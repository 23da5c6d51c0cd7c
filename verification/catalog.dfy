/**
 * `list_task`: the walk over TEST_DIRS and every selected directory's
 * TEST_FILES that turns manifest lines into groups of tasks, one group per
 * selected directory, in file order.
 */
module Catalog {
  import opened Wrappers
  import opened Py
  import opened Paths
  import opened Env
  import opened Traversals
  import opened TestTypes

  /**
   * One line of a TEST_FILES manifest: run the input only, or run it and
   * compare the value a rule extracts with an expected value.
   */
  datatype Task =
    | RunOnly(input: Path, output: Path)
    | Checked(input: Path, output: Path, testType: TestType, tolerance: real, expected: real)

  /** The arguments of `list_task`: `cp2k_root`, `out_dir`, `test_type`, `flags` and `mpiranks`. */
  datatype Args = Args(root: string, outDir: string, testTypes: seq<TestType>, flags: seq<string>, mpiranks: int)

  /** What one call of `list_task` sees: the files, its arguments and the library behaviour. */
  datatype Setting = Setting(fs: map<Path, string>, args: Args, host: Oracles)

  /** The walk over one directory's TEST_FILES: the setting and the directory name. */
  datatype DirScope = DirScope(setting: Setting, dir: string)

  /** `line.split("#", 1)[0].strip()`: a manifest line without its comment and surrounding whitespace. */
  function Clean(line: string): (c: string)
    ensures c == [] || (!IsSpace(c[0]) && '#' !in c)
  {
    var c := Strip(BeforeFirst(line, '#'));
    StripSpec(BeforeFirst(line, '#'));
    assert '#' !in c by {
      var b := BeforeFirst(line, '#');
      if c != [] {
        forall k | 0 <= k < |c| ensures c[k] != '#' {
          assert c[k] == b[LeadingSpace(b) + k];
        }
      }
    }
    c
  }

  /** The whitespace-separated tokens of a cleaned line that is not blank: never empty. */
  function Tokens(c: string): (tokens: seq<string>)
    requires c != [] && !IsSpace(c[0])
    ensures tokens != [] && tokens[0] == c[..WordLength(c)]
  {
    SplitWs(c)
  }

  // ---------------------------------------------------------------------
  // selecting directories

  /**
   * One condition token of a TEST_DIRS line: a flag the program reports
   * holds; otherwise a token mentioning `mpiranks` is evaluated as a Python
   * expression, `||` read as `or`; any other token fails.
   */
  function Satisfied(token: string, w: Setting): (r: Result<bool, Error>)
    ensures token in w.args.flags ==> r == Ok(true)
    ensures token !in w.args.flags && !Occurs("mpiranks", token) ==> r == Ok(false)
    ensures r.Err? ==> Occurs("mpiranks", token) && r.error == EvalFailed(Replace(token, "||", " or "))
  {
    if token in w.args.flags then Ok(true)
    else if Occurs("mpiranks", token) then
      var expr := Replace(token, "||", " or ");
      match w.host.evalCondition(expr, w.args.mpiranks)
      case None => Err(EvalFailed(expr))
      case Some(b) => Ok(b)
    else Ok(false)
  }

  /** `include_test` after the loop over the condition tokens `tokens[1:]`. */
  function Inclusion(tokens: seq<string>, w: Setting): Result<bool, Error>
  {
    if |tokens| > 1 then LastResult(tokens[1..], w, Satisfied, true) else Ok(true)
  }

  /** The loop that decides whether a TEST_DIRS line is selected. */
  method IncludeTest(tokens: seq<string>, w: Setting) returns (r: Result<bool, Error>)
    ensures r == Inclusion(tokens, w)
  {
    var includeTest := true;
    if |tokens| > 1 {
      var conditions := tokens[1..];
      for i := 0 to |conditions|
        invariant LastResult(conditions[..i], w, Satisfied, true) == Ok(includeTest)
      {
        assert conditions[..i + 1][..i] == conditions[..i];
        var verdict := Satisfied(conditions[i], w);
        if verdict.Err? {
          LastResultErrPrefix(conditions, i + 1, w, Satisfied, true);
          return Err(verdict.error);
        }
        includeTest := verdict.value;
      }
      assert conditions[..|conditions|] == conditions;
    }
    r := Ok(includeTest);
  }

  /**
   * A directory line without conditions is selected; with conditions, the
   * selection fails exactly when some condition raises, and otherwise only
   * the last condition decides it.
   */
  lemma LastConditionDecides(tokens: seq<string>, w: Setting)
    ensures |tokens| <= 1 ==> Inclusion(tokens, w) == Ok(true)
    ensures |tokens| > 1 ==>
      (Inclusion(tokens, w).Ok? <==> forall i :: 1 <= i < |tokens| ==> Satisfied(tokens[i], w).Ok?)
    ensures |tokens| > 1 && Inclusion(tokens, w).Ok? ==>
      Inclusion(tokens, w) == Satisfied(tokens[|tokens| - 1], w)
  {
    if |tokens| > 1 {
      var conditions := tokens[1..];
      LastResultSucceeds(conditions, w, Satisfied, true);
      assert forall i :: 1 <= i < |tokens| ==> tokens[i] == conditions[i - 1];
      assert conditions[|conditions| - 1] == tokens[|tokens| - 1];
    }
  }

  // ---------------------------------------------------------------------
  // one TEST_FILES line

  /** The path both task files start from: `root/out_dir/dir/stem`. */
  function TaskBase(args: Args, dir: string, stem: string): string
  {
    args.root + "/" + args.outDir + "/" + dir + "/" + stem
  }

  /**
   * The task of one TEST_FILES line, nothing for a blank or comment line, or
   * the exception the line raises: a missing token, a selector that is not an
   * integer, a rule index outside the list (Python indexing, so a negative
   * selector counts from the end), or a tolerance or expected value that
   * `float()` rejects.
   */
  function TaskOfLine(line: string, at: DirScope): (r: Result<Option<Task>, Error>)
    ensures r == Ok(None) <==> Clean(line) == []
    ensures r.Err? ==> r.error.MissingField? || r.error.BadInt? || r.error.PatternIndex? || r.error.BadFloat?
    ensures r.Err? && r.error.MissingField? ==> 1 <= r.error.index <= 3 && r.error.index >= |Tokens(Clean(line))|
  {
    var c := Clean(line);
    if c == [] then Ok(None)
    else
      var tokens := Tokens(c);
      var args := at.setting.args;
      var base := TaskBase(args, at.dir, tokens[0]);
      var input := PathOf(base);
      var output := PathOf(base + ".out");
      if |tokens| < 2 then Err(MissingField(c, 1))
      else
        match ParseInt(tokens[1])
        case None => Err(BadInt(tokens[1]))
        case Some(k) =>
          if k == 0 then Ok(Some(RunOnly(input, output)))
          else
            match PyIndex(args.testTypes, k - 1)
            case None => Err(PatternIndex(k))
            case Some(t) =>
              if |tokens| < 3 then Err(MissingField(c, 2))
              else
                match at.setting.host.parseFloat(tokens[2])
                case None => Err(BadFloat(tokens[2]))
                case Some(tolerance) =>
                  if |tokens| < 4 then Err(MissingField(c, 3))
                  else
                    match at.setting.host.parseFloat(tokens[3])
                    case None => Err(BadFloat(tokens[3]))
                    case Some(expected) => Ok(Some(Checked(input, output, t, tolerance, expected)))
  }

  /** A line yields a task exactly when it is not blank once its comment is removed. */
  lemma TaskOfLineKeeps(line: string, at: DirScope)
    requires TaskOfLine(line, at).Ok?
    ensures TaskOfLine(line, at).value.Some? <==> Clean(line) != []
  {
  }

  /**
   * The task of a line `stem k [tolerance expected]`: both files sit under
   * `root/out_dir/dir`, the output named after the input plus `.out`; a
   * selector 0 means run only; any other selector `k` picks
   * `test_type[k - 1]` and takes the third and fourth tokens as tolerance
   * and expected value.
   */
  lemma TaskShape(line: string, at: DirScope, task: Task)
    requires TaskOfLine(line, at) == Ok(Some(task))
    ensures var c := Clean(line);
      c != [] && |Tokens(c)| >= 2 && ParseInt(Tokens(c)[1]).Some? &&
      var tokens := Tokens(c);
      var base := TaskBase(at.setting.args, at.dir, tokens[0]);
      var k := ParseInt(tokens[1]).value;
      task.input == PathOf(base) && task.output == PathOf(base + ".out") &&
      (task.RunOnly? <==> k == 0) &&
      (task.Checked? ==>
        |tokens| >= 4 &&
        PyIndex(at.setting.args.testTypes, k - 1) == Some(task.testType) &&
        (1 <= k <= |at.setting.args.testTypes| ==> task.testType == at.setting.args.testTypes[k - 1]) &&
        at.setting.host.parseFloat(tokens[2]) == Some(task.tolerance) &&
        at.setting.host.parseFloat(tokens[3]) == Some(task.expected))
  {
  }

  /**
   * With a stem that is a single path component, the output file sits in
   * the same directory as the input file.
   */
  lemma OutputBesideInput(args: Args, dir: string, stem: string)
    requires IsComponent(stem)
    ensures Parent(PathOf(TaskBase(args, dir, stem))) == Parent(PathOf(TaskBase(args, dir, stem) + ".out"))
    ensures Parent(PathOf(TaskBase(args, dir, stem))) == Some(PathOf(args.root + "/" + args.outDir + "/" + dir))
  {
    var prefix := args.root + "/" + args.outDir + "/" + dir;
    assert TaskBase(args, dir, stem) == prefix + "/" + stem;
    assert TaskBase(args, dir, stem) + ".out" == prefix + "/" + (stem + ".out");
    assert IsComponent(stem + ".out") by {
      assert (stem + ".out")[|stem + ".out"| - 1] == 't';
      assert forall k :: 0 <= k < |stem + ".out"| ==> (stem + ".out")[k] != '/' by {
        forall k | 0 <= k < |stem + ".out"| ensures (stem + ".out")[k] != '/' {
          if k < |stem| {
            assert (stem + ".out")[k] == stem[k];
          }
        }
      }
    }
    ChildPath(prefix, stem);
    ChildPath(prefix, stem + ".out");
  }

  // ---------------------------------------------------------------------
  // one directory

  function TestFilesPath(root: string, dir: string): Path
  {
    PathOf(root + "/tests/" + dir + "/TEST_FILES")
  }

  /** The lines of a directory's TEST_FILES, as `read_text().split("\n")` gives them. */
  function TestFilesLines(w: Setting, dir: string): seq<string>
    requires TestFilesPath(w.args.root, dir) in w.fs
  {
    Split(w.fs[TestFilesPath(w.args.root, dir)], '\n')
  }

  /** The tasks of a directory, one per non-blank TEST_FILES line, or the first exception. */
  function GroupOf(w: Setting, dir: string): Result<seq<Task>, Error>
  {
    var p := TestFilesPath(w.args.root, dir);
    if p !in w.fs then Err(Unreadable(p))
    else Traverse(TestFilesLines(w, dir), DirScope(w, dir), TaskOfLine)
  }

  /** The inner loop of `list_task`: reads TEST_FILES and builds the directory's tasks. */
  method ReadTestFiles(w: Setting, dir: string) returns (r: Result<seq<Task>, Error>)
    ensures r == GroupOf(w, dir)
  {
    var p := TestFilesPath(w.args.root, dir);
    if p !in w.fs {
      return Err(Unreadable(p));
    }
    var lines := Split(w.fs[p], '\n');
    var at := DirScope(w, dir);
    var tasks: seq<Task> := [];
    for i := 0 to |lines|
      invariant Traverse(lines[..i], at, TaskOfLine) == Ok(tasks)
    {
      TraverseStep(lines, i, at, TaskOfLine);
      var task := TaskOfLine(lines[i], at);
      if task.Err? {
        TraverseErrPrefix(lines, i + 1, at, TaskOfLine);
        return Err(task.error);
      }
      if task.value.Some? {
        tasks := tasks + [task.value.value];
      }
    }
    TraverseWhole(lines, at, TaskOfLine);
    r := Ok(tasks);
  }

  /**
   * A directory's group holds exactly one task per line of its TEST_FILES
   * that is not blank, in file order; it is produced exactly when no line
   * raises.
   */
  lemma GroupInOrder(w: Setting, dir: string)
    requires TestFilesPath(w.args.root, dir) in w.fs
    ensures var lines := TestFilesLines(w, dir);
      (GroupOf(w, dir).Ok? <==> forall i :: 0 <= i < |lines| ==> TaskOfLine(lines[i], DirScope(w, dir)).Ok?)
    ensures GroupOf(w, dir).Ok? ==>
      var g := GroupOf(w, dir).value;
      var kept := Kept(TestFilesLines(w, dir), DirScope(w, dir), TaskOfLine);
      |g| == |kept| &&
      forall j :: 0 <= j < |kept| ==> Clean(kept[j]) != [] && TaskOfLine(kept[j], DirScope(w, dir)) == Ok(Some(g[j]))
  {
    var lines := TestFilesLines(w, dir);
    var at := DirScope(w, dir);
    assert GroupOf(w, dir) == Traverse(lines, at, TaskOfLine);
    TraverseSucceeds(lines, at, TaskOfLine);
    assert GroupOf(w, dir).Ok? <==> forall i :: 0 <= i < |lines| ==> TaskOfLine(lines[i], at).Ok?;
    if GroupOf(w, dir).Ok? {
      var g := GroupOf(w, dir).value;
      TraverseKept(lines, at, TaskOfLine, g);
      var kept := Kept(lines, at, TaskOfLine);
      assert |g| == |kept|;
      forall j | 0 <= j < |kept|
        ensures Clean(kept[j]) != [] && TaskOfLine(kept[j], at) == Ok(Some(g[j]))
      {
        assert TaskOfLine(kept[j], at) == Ok(Some(g[j]));
        TaskOfLineKeeps(kept[j], at);
      }
    }
  }

  // ---------------------------------------------------------------------
  // all directories

  function TestDirsPath(root: string): Path
  {
    PathOf(root + "/tests/TEST_DIRS")
  }

  /**
   * One TEST_DIRS line: nothing for a blank or comment line or a directory
   * whose conditions fail, otherwise that directory's group.
   */
  function DirOfLine(line: string, w: Setting): (r: Result<Option<seq<Task>>, Error>)
    ensures Clean(line) == [] ==> r == Ok(None)
    ensures r.Err? ==>
      && Clean(line) != []
      && (|| Inclusion(Tokens(Clean(line)), w).Err?
          || (Inclusion(Tokens(Clean(line)), w) == Ok(true) && GroupOf(w, Tokens(Clean(line))[0]).Err?))
  {
    var c := Clean(line);
    if c == [] then Ok(None)
    else
      var tokens := Tokens(c);
      match Inclusion(tokens, w)
      case Err(e) => Err(e)
      case Ok(included) =>
        if !included then Ok(None)
        else
          match GroupOf(w, tokens[0])
          case Err(e) => Err(e)
          case Ok(g) => Ok(Some(g))
  }

  /** What `list_task` returns or raises. */
  function TaskListOf(w: Setting): Result<seq<seq<Task>>, Error>
  {
    var p := TestDirsPath(w.args.root);
    if p !in w.fs then Err(Unreadable(p))
    else Traverse(Split(w.fs[p], '\n'), w, DirOfLine)
  }

  /** `list_task`: walks TEST_DIRS and, for each selected directory, its TEST_FILES. */
  method ListTask(w: Setting) returns (r: Result<seq<seq<Task>>, Error>)
    ensures r == TaskListOf(w)
  {
    var p := TestDirsPath(w.args.root);
    if p !in w.fs {
      return Err(Unreadable(p));
    }
    var lines := Split(w.fs[p], '\n');
    var groups: seq<seq<Task>> := [];
    for i := 0 to |lines|
      invariant Traverse(lines[..i], w, DirOfLine) == Ok(groups)
    {
      TraverseStep(lines, i, w, DirOfLine);
      var c := Clean(lines[i]);
      if c == [] {
        continue;
      }
      var tokens := Tokens(c);
      var included := IncludeTest(tokens, w);
      if included.Err? {
        TraverseErrPrefix(lines, i + 1, w, DirOfLine);
        return Err(included.error);
      }
      if !included.value {
        continue;
      }
      var group := ReadTestFiles(w, tokens[0]);
      if group.Err? {
        TraverseErrPrefix(lines, i + 1, w, DirOfLine);
        return Err(group.error);
      }
      groups := groups + [group.value];
    }
    TraverseWhole(lines, w, DirOfLine);
    r := Ok(groups);
  }

  /**
   * The task list holds one group per selected directory line of TEST_DIRS,
   * in file order, each the group of the directory the line names; a
   * selected directory whose TEST_FILES has no task contributes an empty
   * group.
   */
  lemma GroupsInOrder(w: Setting, groups: seq<seq<Task>>)
    requires TaskListOf(w) == Ok(groups)
    ensures var lines := Split(w.fs[TestDirsPath(w.args.root)], '\n');
      var kept := Kept(lines, w, DirOfLine);
      |groups| == |kept| &&
      forall j :: 0 <= j < |kept| ==>
        Clean(kept[j]) != [] &&
        Inclusion(Tokens(Clean(kept[j])), w) == Ok(true) &&
        GroupOf(w, Tokens(Clean(kept[j]))[0]) == Ok(groups[j])
  {
    var lines := Split(w.fs[TestDirsPath(w.args.root)], '\n');
    TraverseKept(lines, w, DirOfLine, groups);
    var kept := Kept(lines, w, DirOfLine);
    forall j | 0 <= j < |kept|
      ensures Clean(kept[j]) != []
      ensures Inclusion(Tokens(Clean(kept[j])), w) == Ok(true)
      ensures GroupOf(w, Tokens(Clean(kept[j]))[0]) == Ok(groups[j])
    {
      DirOfLineSelected(kept[j], w, groups[j]);
    }
  }

  /**
   * A TEST_DIRS line that does not raise yields a group exactly when it is
   * not blank and its conditions select it; the group is then that
   * directory's.
   */
  lemma {:induction false} DirOfLineKeeps(line: string, w: Setting)
    requires DirOfLine(line, w).Ok?
    ensures DirOfLine(line, w).value.Some? <==>
      Clean(line) != [] && Inclusion(Tokens(Clean(line)), w) == Ok(true)
    ensures DirOfLine(line, w).value.Some? ==>
      GroupOf(w, Tokens(Clean(line))[0]) == Ok(DirOfLine(line, w).value.value)
  {
    if DirOfLine(line, w).value.Some? {
      DirOfLineSelected(line, w, DirOfLine(line, w).value.value);
    }
  }

  /** A TEST_DIRS line yields a group only when it is not blank and its conditions select it. */
  lemma DirOfLineSelected(line: string, w: Setting, g: seq<Task>)
    requires DirOfLine(line, w) == Ok(Some(g))
    ensures Clean(line) != []
    ensures Inclusion(Tokens(Clean(line)), w) == Ok(true)
    ensures GroupOf(w, Tokens(Clean(line))[0]) == Ok(g)
  {
  }
}
