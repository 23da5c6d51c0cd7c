# CP2K regression-test driver (dask), modelled in Dafny

`regtests-dask.py` runs CP2K's regression tests on a dask cluster. The model
covers the part of the driver that decides things; the process and cluster
plumbing is left out.

- **Result-extraction rules.** Each line of `tests/TEST_TYPES` is a `TestType`:
  - the text before the last `!` becomes a regular expression, with
    `[[:space:]]` rewritten to `\s` and each of `| ( ) +` escaped by a
    backslash;
  - the integer after the `!` names a column;
  - `grep` scans program output from its last line backwards and returns that
    column's whitespace token from the first line that matches.
- **Test selection.** `list_task` walks `tests/TEST_DIRS`.
  - For each directory line that is selected, it walks that directory's
    `TEST_FILES` and builds a group of tasks.
  - A task either only runs an input, or also compares a value that a rule
    extracts from the output against an expected value, within a relative
    tolerance.
- **Judging.** `check_task_for_error` turns a task's output file into a
  pass/fail verdict, a reported value and a status. It never raises.
- **Running and tallying.**
  - `run_cp2k` launches one task and judges it.
  - `run_subdir_cp2k` runs a group in order.
  - The driver's last loop counts passes and collects failures as the groups
    complete, in whatever order they complete.

Modules, in dependency order:

| file | module | contents |
|---|---|---|
| `wrappers.dfy` | `Wrappers` | `Option` and `Result` |
| `traversals.dfy` | `Traversals` | the list-building loop shapes the driver uses: collect in order and stop at the first exception; keep only the last value; sums and concatenations over a list, with their order independence |
| `py.dfy` | `Py` | the Python string and list operations the driver relies on: `str.split(sep)`, `str.split()`, `str.strip()`, `str.rsplit(c, 1)`, `str.replace`, `int()`, negative indexing, slicing |
| `paths.dfy` | `Paths` | POSIX `pathlib.Path(text)` and `parents[0]` |
| `env.dfy` | `Env` | the exceptions, and the library behaviour taken as parameters (regex compile and search, `float()`, `eval()`) |
| `test_types.dfy` | `TestTypes` | `TestType.__init__`, `grep`, `list_test_types` |
| `catalog.dfy` | `Catalog` | `list_task` |
| `verdict.dfy` | `Verdict` | `check_task_for_error` |
| `runner.dfy` | `Runner` | `ReturnCodes`, `run_cp2k`, `run_subdir_cp2k`, the tally loop of the main block |

The loops that build a value step by step are methods. Each one's `ensures`
ties its result to a specification function, and the properties are proved as
lemmas about that function. These methods are `NewTestType`, `ListTestTypes`,
`IncludeTest`, `ReadTestFiles`, `ListTask`, `RunSubdirCp2k` and `Aggregate`.
The one loop that is not a method is `grep`'s backward scan, which returns
from inside the loop at the first matching line. It is the recursive function
`TestTypes.ScanBack`, and `Grep` is specified by the lemmas about it.

Other modelling choices:
- Exceptions are `Err` values of one `Error` type.
- The file system is a map from path to text.
- Values are `real`.

Behaviour of the code worth knowing, which the model follows:
- Both task files are built under `cp2k_root/out_dir/<dir>/<stem>`. There is no
  separate input root and output root.
- A selector `k` picks `test_type[k - 1]` with Python indexing, so a negative
  `k` counts from the end of the list. Only a selector beyond either end raises.
- Among a directory's condition tokens, the last one alone decides selection.
  Earlier conditions only matter when their `eval` raises.
- A count larger than the number of TEST_TYPES lines only shortens the slice
  `lines[1 : count + 1]`. When the file ends in a newline, though, its last
  line is empty, and a count that reaches it makes loading raise: the empty
  line has no `!`.
- A rule's column is any integer, with Python indexing. Column 0 takes the
  last token of the line.
- A run-only task passes when its output file can be read, whatever the
  process's exit status.
- An extracted value of zero skips the comparison and fails with an empty
  status.
- `run_cp2k` records only OK or BAD_RUN. FILENOTFOUND and UNKNOWN are declared
  but never produced, and TIMEOUT is never recorded because the timeout
  handler raises first (see Findings).
- A selected directory whose TEST_FILES has no task line (every line blank or
  commented out) gives an empty group, and `run_subdir_cp2k` raises on it at
  `task_info[0]`.
- A run-only task has two elements, not the three that `list_task`'s docstring
  shows.

## Model

| member | source | states |
|---|---|---|
| TestTypes.NewTestType | regtests-dask.py:27-38 | The constructor splits the line at its last `!`. It rewrites `[[:space:]]`, then escapes the vertical bar, `(`, `)` and `+` in turn. The loop invariant is that the characters handled so far are escaped exactly once. The result is the rule, or the exception for a bad regex, a missing `!` or a non-integer column. |
| TestTypes.UnescapeEscape | regtests-dask.py:31-32 | Escaping only inserts one backslash before each special character and changes nothing else. Dropping those backslashes gives back the rewritten text. |
| TestTypes.EscapeGuardsSpecials | regtests-dask.py:31-32 | Every vertical bar, `(`, `)` or `+` in the escaped pattern is immediately preceded by a backslash. |
| TestTypes.TestTypeParts | regtests-dask.py:28-38 | For `head!tail` with no `!` in `tail`, the pattern comes from `head` and the column is `int(tail)`. If the pattern does not compile, or `tail` is not an integer, the line raises. |
| TestTypes.TestTypeNeedsBang | regtests-dask.py:28-38 | A line without `!` never yields a rule (`parts[1]` raises). |
| TestTypes.TokenAt | regtests-dask.py:44 | `line.split()[column - 1]` on a matching line is never "no match". It is a nonempty, whitespace-free token exactly when `column - 1` is a valid Python index into the tokens; otherwise it raises. |
| TestTypes.ScanBack | regtests-dask.py:41-45 | The backward loop over the lines finds nothing in no lines, and whatever it extracts is a single whitespace-free token. |
| TestTypes.Grep | regtests-dask.py:40-45 | `grep` extracts a single nonempty, whitespace-free token when it finds one. Which token it is, and when it finds none, is stated by `GrepLastMatch`, `GrepNoMatch` and `GrepShadows`. |
| TestTypes.GrepLastMatch | regtests-dask.py:40-45 | `grep` returns `line.split()[column - 1]` of the last output line that matches, whatever comes before it. |
| TestTypes.GrepNoMatch | regtests-dask.py:40-45 | `grep` returns None exactly when no output line matches. |
| TestTypes.GrepShadows | regtests-dask.py:41-44 | Output is scanned from its end. If the later part has a matching line, that part alone decides; otherwise the earlier part does. |
| TestTypes.ExtractsColumnToken | regtests-dask.py:27-44 | A rule `pattern!c` with `c >= 1`, run on output whose last line matches and has tokens `t`, extracts exactly `t[c - 1]`. |
| TestTypes.ListTestTypes | regtests-dask.py:47-66 | `list_test_types` reads TEST_TYPES, takes `lines[1 : int(lines[0]) + 1]` and compiles them in order. The loop invariant is that the list so far equals the compiled prefix. It raises the first exception. |
| TestTypes.CompileAllSucceeds | regtests-dask.py:62-64 | The rule list is built exactly when every selected line compiles. |
| TestTypes.CompileAllInOrder | regtests-dask.py:62-66 | The rule list holds one rule per selected line, compiled from that line, in file order. |
| TestTypes.PatternLinesCount | regtests-dask.py:58-62 | With a count `K >= 0` on the first line, the rules come from the next `K` lines, or from all the remaining lines when there are fewer. |
| TestTypes.TrailingNewlineRaises | regtests-dask.py:58-64 | For a file ending in a newline, a count that reaches past the rule lines selects the final empty line, and `list_test_types` raises. |
| Catalog.Clean | regtests-dask.py:98 | A cleaned manifest line has no `#` and does not start with whitespace. |
| Catalog.Satisfied | regtests-dask.py:105-108 | A condition token that is a reported flag holds. A token that is neither a flag nor mentions `mpiranks` fails. Only an `mpiranks` token can raise, and then with the `eval` of its text with `||` read as ` or `. |
| Catalog.IncludeTest | regtests-dask.py:102-108 | The loop over condition tokens gives the selection function's value. Every token overwrites the flag, and the first raising `eval` ends the loop. |
| Catalog.LastConditionDecides | regtests-dask.py:102-111 | A line with no conditions is selected. Otherwise selection raises exactly when some condition raises, and if none raises, the last condition alone decides. |
| Catalog.TaskOfLine | regtests-dask.py:116-147 | A TEST_FILES line gives nothing exactly when it is blank once its comment is removed. Otherwise it gives a task or raises. It raises only for a missing token (index 1 to 3, beyond the tokens present), a selector that is not an integer, a rule index out of range, or a float that does not parse. |
| Catalog.TaskOfLineKeeps | regtests-dask.py:116-119 | A TEST_FILES line yields a task exactly when it is not blank once the comment is removed. |
| Catalog.TaskShape | regtests-dask.py:120-147 | Input is `root/out_dir/dir/stem` and output is that path plus `.out`. Selector 0 gives a run-only task. Any other selector `k` carries `test_type[k-1]`, with `float(tokens[2])` as tolerance and `float(tokens[3])` as expected value. |
| Catalog.OutputBesideInput | regtests-dask.py:122-142 | For a one-component stem, the input and output files share the parent directory `root/out_dir/dir`. |
| Catalog.ReadTestFiles | regtests-dask.py:113-148 | The inner loop of `list_task` builds the directory's group, or raises the first exception, including an unreadable TEST_FILES. |
| Catalog.GroupInOrder | regtests-dask.py:115-148 | A group is built exactly when no line raises. It then holds one task per non-blank line, from that line, in file order. |
| Catalog.ListTask | regtests-dask.py:69-149 | `list_task` walks TEST_DIRS and gives the list of groups, or the first exception. |
| Catalog.GroupsInOrder | regtests-dask.py:95-149 | There is one group per kept directory line, in file order. Each is the group of the directory that line names. With `DirOfLineKeeps`, the kept lines are exactly the non-blank, selected ones; excluded and blank lines add no group. |
| Catalog.DirOfLine | regtests-dask.py:97-115 | A blank TEST_DIRS line gives nothing. A line raises only when it is not blank and either a condition raises, or the line is selected and reading or parsing its directory's TEST_FILES raises. |
| Catalog.DirOfLineSelected | regtests-dask.py:97-115 | A TEST_DIRS line yields a group only when it is not blank and its conditions select it. |
| Catalog.DirOfLineKeeps | regtests-dask.py:97-115 | A TEST_DIRS line that does not raise yields a group exactly when it is not blank and its conditions select it. The group is then that directory's. |
| Verdict.Extracted | regtests-dask.py:170 | `float(task[2].grep(output))` gives a value exactly when `grep` finds a token and `float()` accepts it. |
| Verdict.CheckTaskForError | regtests-dask.py:152-189 | A task passes only with status OK, and a runtime failure reports no value. The decision is total: every exception is caught. |
| Verdict.PassRule | regtests-dask.py:166-184 | A task passes exactly when its output is readable and either it is run-only, or the extracted value is nonzero, the expected value is nonzero and `abs(out - expected) < tolerance * abs(expected)`. |
| Verdict.RelativeError | regtests-dask.py:175-176 | For a nonzero expected value, `abs((out - orig) / orig) < err` is the same as `abs(out - orig) < err * abs(orig)`. |
| Verdict.ToleranceIsStrict | regtests-dask.py:174-180 | The comparison is strict. A tolerance of zero or less never passes, and a relative error equal to the tolerance is WRONG RESULT. |
| Verdict.RuntimeFailures | regtests-dask.py:166-189 | RUNTIME FAILED happens exactly when the output is unreadable, or for a checked task when no value is extracted (no match, short line, bad float), or when a nonzero value meets a zero expected value. |
| Verdict.ZeroValueSkipsComparison | regtests-dask.py:174-181 | An extracted value of 0 fails with an empty status and still reports the value. |
| Verdict.ZeroExpectedNeverPasses | regtests-dask.py:174-176 | A checked task with expected value 0 never passes. |
| Verdict.RunOnlyPasses | regtests-dask.py:166-184 | A run-only task passes exactly when its output file can be read, and reports no value. |
| Runner.CodeValue | regtests-dask.py:15-22 | The return codes are 0 down to -4, and only OK is 0. A record carries the code's integer. |
| Runner.ReturnCodeOf | regtests-dask.py:232-267 | The intended classification of how a process ended. A zero exit is OK, a nonzero exit is BAD_RUN and the time limit is TIMEOUT. FILENOTFOUND and UNKNOWN never occur. |
| Runner.Classify | regtests-dask.py:232-267 | The classification as written. An exit is OK exactly for status 0 and BAD_RUN otherwise. The time limit raises AttributeError, because the handler reads `e.returncode` before it sets TIMEOUT. |
| Runner.RunCp2k | regtests-dask.py:199-290 | `run_cp2k` raises exactly when the process hits the time limit. Otherwise its record is for its task, carries code 0 for a zero exit and -2 for any other, and holds the verdict on the files the launch left. |
| Runner.PassIgnoresReturnCode | regtests-dask.py:283-290 | For two runs that exit, the verdict depends only on the files the process leaves, not on the exit status. A run with a nonzero exit can still pass. |
| Runner.SubdirRuns | regtests-dask.py:298-299 | Running a group gives one record per task, or the first exception, which ends the group. |
| Runner.RunSubdirCp2k | regtests-dask.py:293-301 | The loop of `run_subdir_cp2k` runs the tasks one after another on the files the earlier ones left. The first exception ends the group. It raises for an empty group before any task runs. |
| Runner.SubdirRunsFails | regtests-dask.py:293-301 | A group's runs raise exactly when some task is reached and hits the time limit. The exception is then the timeout handler's AttributeError. |
| Runner.TimeoutAbortsGroup | regtests-dask.py:256-267 | When the first task of a group hits the time limit, `run_subdir_cp2k` raises instead of reporting that task as TIMEOUT, which is the code it was meant to get. |
| Runner.SubdirRunsAt | regtests-dask.py:298-299 | The record of task `i` is the run of task `i` on the files the tasks before it left. |
| Runner.SubdirInOrder | regtests-dask.py:293-301 | The group fails exactly when it is empty, the first input has no parent, or a task it reaches hits the time limit. Otherwise the report has one record per task, in order, each for its own task, run on the files the earlier tasks left, with code 0 or -2. The directory is the parent of the first input. |
| Runner.Aggregate | regtests-dask.py:382-394 | The tally loop gives the pass count and the error list. Its nested invariants track both over the groups and records seen so far. |
| Runner.GroupTally | regtests-dask.py:389-393 | Within a group, every record is either a pass or one error entry. Every entry is the whole group, not the failing record. |
| Runner.TallyCoversAll | regtests-dask.py:382-394 | `num_pass + len(error_list)` equals the number of records over all completed groups. |
| Runner.CompletionOrderIrrelevant | regtests-dask.py:380-394 | Any completion order of the same groups gives the same pass count and the same error entries, counted with multiplicity. |
| Runner.ErrorEntries | regtests-dask.py:389-393 | Every error entry is the record list of a completed group that holds a failure. |
| Runner.AllTasksCounted | regtests-dask.py:377-394 | If every group of the task list ran, then in any completion order `num_pass + len(error_list)` equals the number of tasks. |
| Py.JoinSplit | regtests-dask.py:41 | `"\n".join(s.split("\n")) == s`: splitting output into lines loses nothing. The other direction, `Py.SplitJoin`, shows that splitting a join of separator-free parts gives the parts back. |
| Py.SplitWsJoinWs | regtests-dask.py:44 | `split()` gives back the tokens of a line built from whitespace-free tokens. |
| Py.StripSpec | regtests-dask.py:98 | `strip()` is empty exactly for all-whitespace text. Otherwise it is the span from the first to the last non-whitespace character. |
| Py.BeforeFirst | regtests-dask.py:98 | `line.split("#", 1)[0]` is the longest prefix without `#`. |
| Py.RSplitOnceJoin | regtests-dask.py:28 | `rsplit("!", 1)` gives a head and a tail that rejoin to the line, with no `!` in the tail. |
| Py.ParseShowInt | regtests-dask.py:38 | `int(str(n)) == n` for every integer `n`. |
| Py.DecimalAccepts | regtests-dask.py:38 | The digits the model's `int()` accepts after an optional sign are exactly the nonempty ASCII decimal strings. |
| Paths.ChildPath | regtests-dask.py:295 | For a nonempty prefix, the path `prefix/name` has `prefix` as its `parents[0]`. |

## Left out

- Running CP2K is a parameter `launch`. It maps a task and the files before
  the run to how the process ended and the files after the run. Left out of
  `run_cp2k` (lines 199-290):
  - the `Template` command line and its substitution;
  - creating the output directory;
  - `os.chdir` and `filename.absolute()`;
  - the printed process output;
  - the 300-second limit as a number.
  Only the classification of the outcome is kept.
- Durations and `time.time()` are left out (clock). Records and reports carry
  no duration.
- `cp2k_version` (lines 310-342) is left out: it runs an executable and scrapes
  its output. The flags are a parameter.
- Dask's `Client`, `client.map` and `as_completed` (lines 376-382) are left out.
  - Completion order is an arbitrary sequence of reports, and results are
    proved independent of it.
  - Each group runs from the same initial files; concurrent groups writing to
    the files are not modelled.
  - An exception inside a worker, re-raised by `finished_task.result()`, is not
    modelled: `Aggregate` takes the reports of groups that completed.
- The rest of the main block (lines 346-375) is left out:
  - `argparse`, `shutil.copytree` and the timestamped directory;
  - the debug prints of `lt[0][0]`, which raise IndexError when no directory
    is selected or the first group is empty.
- The format string and colours of the result line (lines 191-195) are left out
  (display only). The reported value is the `real`, not its `.10g` text.
- Regular expressions are oracles: whether `re.compile` accepts a pattern, and
  whether `search` finds it in a line.
- `float()` is an oracle from text to an optional `real`.
  - Arithmetic is exact over `real`.
  - NaN, infinities and IEEE rounding are not modelled.
- `eval()` of an `mpiranks` condition is an oracle giving an optional
  boolean, and the truthiness of non-boolean results is folded into it.
- Py.ParseInt: models `int()` on text as optional surrounding whitespace, an
  optional sign and ASCII digits. Underscores between digits and non-ASCII
  decimal digits are not accepted. Text holding one of U+001C to U+001F is
  rejected anywhere, as `int()` does, although `strip()` counts them as
  whitespace.
- Files are the text `read()` returns in text mode: `\r\n` and `\r` are
  already turned into `\n`, and `grep` and both manifests split on `\n` only.
  Decoding errors and the encoding argument are not modelled, and an
  unreadable file is a missing key.
- Paths.PathOf: POSIX pathlib keeps a leading `//` (exactly two slashes) as
  a root of its own. The model reads it as `/`, as Linux resolves it.
- The handlers of `run_cp2k` decode the captured output as UTF-8. That
  decoding is taken to succeed; a `UnicodeDecodeError` there is not modelled.
- Aggregate: a group whose `run_subdir_cp2k` raised re-raises in
  `finished_task.result()` and ends the tally. That happens for a timeout, and
  for an empty group (a selected directory without task lines, which fails at
  `task_info[0]`). `Aggregate` takes only reports
  of groups that completed, so it does not model that abort.

## Findings

| source | as written | input that shows it | evidently intended | confidence | as-written member | corrected member |
|---|---|---|---|---|---|---|
| regtests-dask.py:256-267 | The `TimeoutExpired` handler first formats `e.returncode`. `TimeoutExpired` has no such attribute, so an AttributeError escapes `run_cp2k`, then `run_subdir_cp2k`, and re-raises in the tally. | Any task whose CP2K run exceeds the 300-second limit; `Runner.TimeoutAbortsGroup` shows the group raising. | Record TIMEOUT for the task, judge its output and go on with the group. `Classify` uses this classification for every exit. | high, not executed | Runner.Classify | Runner.ReturnCodeOf |
