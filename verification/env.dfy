/**
 * What the driver gets from outside the code modelled here: the exceptions
 * that abort a step, and the library calls whose behaviour is taken as given
 * (the regular-expression engine, `float()` and `eval()`).
 */
module Env {
  import opened Wrappers
  import opened Paths

  /** The exceptions the modelled code can raise, one per cause. */
  datatype Error =
    | Unreadable(path: Path)              // opening or reading a file failed
    | BadRegex(pattern: string)           // re.compile rejected the escaped pattern
    | MissingColumn(line: string)         // a TEST_TYPES line without '!': parts[1] raised IndexError
    | BadInt(text: string)                // int() raised ValueError
    | MissingField(line: string, index: nat)  // a TEST_FILES line too short: token1[index] raised IndexError
    | PatternIndex(selector: int)         // test_type[selector - 1] raised IndexError
    | BadFloat(text: string)              // float() raised ValueError
    | EvalFailed(expr: string)            // eval() of a condition token raised
    | EmptyGroup                          // task_info[0] on a group without tasks
    | NoParent(path: Path)                // parents[0] of a path without components
    | UnhandledTimeout                    // the TimeoutExpired handler read e.returncode, which raised AttributeError

  /**
   * The library behaviour the model takes as parameters: whether `re.compile`
   * accepts a pattern, whether `regex.search(line)` finds a match, what
   * `float(text)` yields, and what `eval(expr)` yields with `mpiranks` bound
   * (None where the call raises).
   */
  datatype Oracles = Oracles(
    compiles: string -> bool,
    search: (string, string) -> bool,
    parseFloat: string -> Option<real>,
    evalCondition: (string, int) -> Option<bool>)
}
