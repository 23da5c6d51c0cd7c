/**
 * Running the tasks: `run_cp2k` launches one task and judges its output,
 * `run_subdir_cp2k` runs a directory's group in order, and the loop at the
 * end of the driver tallies the results of the groups as they complete.
 */
module Runner {
  import opened Wrappers
  import opened Paths
  import opened Env
  import opened Traversals
  import opened Catalog
  import opened Verdict

  /** `ReturnCodes`: the codes `run_cp2k` may report. */
  datatype ReturnCode = Success | FileNotFound | BadRun | Unknown | Timeout

  /** The integer value of each code. */
  function CodeValue(c: ReturnCode): (v: int)
    ensures -4 <= v <= 0
    ensures v == 0 <==> c == Success
  {
    match c
    case Success => 0
    case FileNotFound => -1
    case BadRun => -2
    case Unknown => -3
    case Timeout => -4
  }

  /** How the launched process ended: it exited with a status, or ran into the time limit. */
  datatype ProcessOutcome = Exited(status: int) | TimedOut

  /**
   * The code each outcome is meant to be recorded with: the process is
   * started with `check=True`, so a nonzero exit is BAD_RUN, and the
   * `TimeoutExpired` handler ends by setting TIMEOUT.
   */
  function ReturnCodeOf(outcome: ProcessOutcome): (c: ReturnCode)
    ensures c != FileNotFound && c != Unknown
    ensures c == Success <==> outcome == Exited(0)
    ensures c == BadRun <==> outcome.Exited? && outcome.status != 0
    ensures c == Timeout <==> outcome.TimedOut?
  {
    match outcome
    case TimedOut => Timeout
    case Exited(status) => if status == 0 then Success else BadRun
  }

  /**
   * The code `run_cp2k` records, as written. An exit is classified as
   * intended, but the timeout handler first formats `e.returncode`, an
   * attribute `TimeoutExpired` does not have: the AttributeError escapes
   * before TIMEOUT is set. FILENOTFOUND, UNKNOWN and TIMEOUT are never
   * recorded.
   */
  function Classify(outcome: ProcessOutcome): (r: Result<ReturnCode, Error>)
    ensures r.Err? <==> outcome.TimedOut?
    ensures r.Err? ==> r.error == UnhandledTimeout
    ensures r.Ok? ==> r.value == Success || r.value == BadRun
    ensures r == Ok(Success) <==> outcome == Exited(0)
  {
    match outcome
    case TimedOut => Err(UnhandledTimeout)
    case Exited(_) => Ok(ReturnCodeOf(outcome))
  }

  /** What launching a task does: how the process ended, and the files afterwards. */
  datatype Execution = Execution(outcome: ProcessOutcome, fs: map<Path, string>)

  /** The record `run_cp2k` returns for one task (its duration left out); the code is the enum's integer. */
  datatype RunRecord = RunRecord(task: Task, verdict: Judgement, code: int)

  /**
   * `run_cp2k`: launch the task, classify how it ended, then judge the
   * output file as the launch left it; returns the record and the files
   * afterwards, or the exception that escapes. It raises exactly when the
   * process hits the time limit. Otherwise its record is for its task,
   * carries 0 for a zero exit and -2 (BAD_RUN) for any other, and its
   * verdict is the judgement of the files the launch left.
   */
  function RunCp2k(task: Task, fs: map<Path, string>, host: Oracles, launch: (Task, map<Path, string>) -> Execution): (r: Result<(RunRecord, map<Path, string>), Error>)
    ensures r.Err? <==> launch(task, fs).outcome.TimedOut?
    ensures r.Err? ==> r.error == UnhandledTimeout
    ensures r.Ok? ==>
      var (record, files) := r.value;
      && record.task == task
      && files == launch(task, fs).fs
      && record.verdict == CheckTaskForError(task, launch(task, fs).fs, host)
      && record.code == (if launch(task, fs).outcome.status == 0 then 0 else -2)
  {
    var e := launch(task, fs);
    match Classify(e.outcome)
    case Err(err) => Err(err)
    case Ok(c) => Ok((RunRecord(task, CheckTaskForError(task, e.fs, host), CodeValue(c)), e.fs))
  }

  /**
   * Whether a task passes depends only on the files the launch leaves
   * behind, not on its exit status: a run that exited with an error still
   * passes when its output holds the expected value.
   */
  lemma PassIgnoresReturnCode(task: Task, fs: map<Path, string>, host: Oracles,
                              launch1: (Task, map<Path, string>) -> Execution,
                              launch2: (Task, map<Path, string>) -> Execution)
    requires launch1(task, fs).fs == launch2(task, fs).fs
    requires launch1(task, fs).outcome.Exited? && launch2(task, fs).outcome.Exited?
    ensures RunCp2k(task, fs, host, launch1).Ok? && RunCp2k(task, fs, host, launch2).Ok?
    ensures RunCp2k(task, fs, host, launch1).value.0.verdict == RunCp2k(task, fs, host, launch2).value.0.verdict
  {
  }

  // ---------------------------------------------------------------------
  // one group

  /**
   * The records of a group's tasks run one after another, each on the files
   * the earlier ones left, and the files afterwards; the first exception
   * ends the group.
   */
  function SubdirRuns(group: seq<Task>, fs: map<Path, string>, host: Oracles, launch: (Task, map<Path, string>) -> Execution): (r: Result<(seq<RunRecord>, map<Path, string>), Error>)
    ensures r.Ok? ==> |r.value.0| == |group|
  {
    if group == [] then Ok(([], fs))
    else
      match SubdirRuns(group[..|group| - 1], fs, host, launch)
      case Err(e) => Err(e)
      case Ok(before) =>
        match RunCp2k(group[|group| - 1], before.1, host, launch)
        case Err(e) => Err(e)
        case Ok(run) => Ok((before.0 + [run.0], run.1))
  }

  /** Once the runs of a prefix raise, the whole group raises the same exception. */
  lemma {:induction false} SubdirRunsErrPrefix(group: seq<Task>, i: nat, fs: map<Path, string>, host: Oracles, launch: (Task, map<Path, string>) -> Execution)
    requires i <= |group| && SubdirRuns(group[..i], fs, host, launch).Err?
    ensures SubdirRuns(group, fs, host, launch) == SubdirRuns(group[..i], fs, host, launch)
    decreases |group| - i
  {
    if i < |group| {
      assert group[..i + 1][..i] == group[..i];
      SubdirRunsErrPrefix(group, i + 1, fs, host, launch);
    } else {
      assert group[..i] == group;
    }
  }

  /** What `run_subdir_cp2k` returns (its duration left out): the group's directory and its records. */
  datatype SubdirReport = SubdirReport(dir: Path, results: seq<RunRecord>)

  /**
   * `run_subdir_cp2k`: the directory is the parent of the first task's
   * input, taken before any task runs, so an empty group raises; an
   * exception of a run escapes the group.
   */
  function SubdirOf(group: seq<Task>, fs: map<Path, string>, host: Oracles, launch: (Task, map<Path, string>) -> Execution): Result<SubdirReport, Error>
  {
    if group == [] then Err(EmptyGroup)
    else
      match Parent(group[0].input)
      case None => Err(NoParent(group[0].input))
      case Some(dir) =>
        match SubdirRuns(group, fs, host, launch)
        case Err(e) => Err(e)
        case Ok(runs) => Ok(SubdirReport(dir, runs.0))
  }

  /** The loop of `run_subdir_cp2k`: runs the tasks of a group in order. */
  method RunSubdirCp2k(group: seq<Task>, fs: map<Path, string>, host: Oracles, launch: (Task, map<Path, string>) -> Execution)
    returns (r: Result<SubdirReport, Error>)
    ensures r == SubdirOf(group, fs, host, launch)
  {
    if group == [] {
      return Err(EmptyGroup);
    }
    var dir := Parent(group[0].input);
    if dir.None? {
      return Err(NoParent(group[0].input));
    }
    var results: seq<RunRecord> := [];
    var files := fs;
    for i := 0 to |group|
      invariant SubdirRuns(group[..i], fs, host, launch) == Ok((results, files))
    {
      assert group[..i + 1][..i] == group[..i];
      var run := RunCp2k(group[i], files, host, launch);
      if run.Err? {
        SubdirRunsErrPrefix(group, i + 1, fs, host, launch);
        return Err(run.error);
      }
      results := results + [run.value.0];
      files := run.value.1;
    }
    assert group[..|group|] == group;
    r := Ok(SubdirReport(dir.value, results));
  }

  /** Task `i` is reached, every task before it having run, and it hits the time limit. */
  predicate TimesOutAt(group: seq<Task>, fs: map<Path, string>, host: Oracles, launch: (Task, map<Path, string>) -> Execution, i: nat)
  {
    i < |group| &&
    SubdirRuns(group[..i], fs, host, launch).Ok? &&
    launch(group[i], SubdirRuns(group[..i], fs, host, launch).value.1).outcome.TimedOut?
  }

  /**
   * The runs of a group raise exactly when some task is reached and hits
   * the time limit; the exception is then the one the timeout handler
   * raises.
   */
  lemma {:induction false} SubdirRunsFails(group: seq<Task>, fs: map<Path, string>, host: Oracles, launch: (Task, map<Path, string>) -> Execution)
    ensures SubdirRuns(group, fs, host, launch).Err? <==>
      exists i :: 0 <= i < |group| && TimesOutAt(group, fs, host, launch, i)
    ensures SubdirRuns(group, fs, host, launch).Err? ==> SubdirRuns(group, fs, host, launch).error == UnhandledTimeout
    decreases |group|
  {
    if group != [] {
      var n := |group| - 1;
      var front := group[..n];
      SubdirRunsFails(front, fs, host, launch);
      forall i | 0 <= i < n
        ensures TimesOutAt(front, fs, host, launch, i) == TimesOutAt(group, fs, host, launch, i)
      {
        assert front[..i] == group[..i];
        assert front[i] == group[i];
      }
      if SubdirRuns(front, fs, host, launch).Ok? {
        assert front == group[..n];
        if exists i :: 0 <= i < |group| && TimesOutAt(group, fs, host, launch, i) {
          var i :| 0 <= i < |group| && TimesOutAt(group, fs, host, launch, i);
          if i < n {
            assert false;
          }
        }
        if SubdirRuns(group, fs, host, launch).Err? {
          assert TimesOutAt(group, fs, host, launch, n);
        }
      } else {
        var i :| 0 <= i < |front| && TimesOutAt(front, fs, host, launch, i);
        assert TimesOutAt(group, fs, host, launch, i);
      }
    }
  }

  /**
   * When the group's runs succeed, the record of task `i` is the run of
   * that task on the files the tasks before it left.
   */
  lemma {:induction false} SubdirRunsAt(group: seq<Task>, fs: map<Path, string>, host: Oracles, launch: (Task, map<Path, string>) -> Execution, i: nat)
    requires i < |group| && SubdirRuns(group, fs, host, launch).Ok?
    ensures SubdirRuns(group[..i], fs, host, launch).Ok?
    ensures RunCp2k(group[i], SubdirRuns(group[..i], fs, host, launch).value.1, host, launch).Ok?
    ensures SubdirRuns(group, fs, host, launch).value.0[i] ==
      RunCp2k(group[i], SubdirRuns(group[..i], fs, host, launch).value.1, host, launch).value.0
    decreases |group|
  {
    var n := |group| - 1;
    if i < n {
      assert group[..n][..i] == group[..i];
      SubdirRunsAt(group[..n], fs, host, launch, i);
    } else {
      assert group[..n] == group[..i];
    }
  }

  /**
   * A group fails exactly when it is empty, its first input has no parent,
   * or one of its tasks hits the time limit. Otherwise its report holds
   * exactly one record per task, in the group's order, each for its own
   * task, run on the files the earlier tasks left, and recorded as OK or
   * BAD_RUN; the directory is the parent of the first task's input.
   */
  lemma SubdirInOrder(group: seq<Task>, fs: map<Path, string>, host: Oracles, launch: (Task, map<Path, string>) -> Execution)
    ensures SubdirOf(group, fs, host, launch) == Err(EmptyGroup) <==> group == []
    ensures SubdirOf(group, fs, host, launch).Err? <==>
      group == [] || group[0].input.parts == [] ||
      exists i :: 0 <= i < |group| && TimesOutAt(group, fs, host, launch, i)
    ensures SubdirOf(group, fs, host, launch).Ok? ==>
      var report := SubdirOf(group, fs, host, launch).value;
      Some(report.dir) == Parent(group[0].input) &&
      |report.results| == |group| &&
      forall i :: 0 <= i < |group| ==>
        report.results[i].task == group[i] &&
        (report.results[i].code == 0 || report.results[i].code == -2) &&
        SubdirRuns(group[..i], fs, host, launch).Ok? &&
        RunCp2k(group[i], SubdirRuns(group[..i], fs, host, launch).value.1, host, launch).Ok? &&
        RunCp2k(group[i], SubdirRuns(group[..i], fs, host, launch).value.1, host, launch).value.0 == report.results[i]
  {
    SubdirRunsFails(group, fs, host, launch);
    if SubdirOf(group, fs, host, launch).Ok? {
      forall i | 0 <= i < |group|
        ensures SubdirRuns(group[..i], fs, host, launch).Ok?
        ensures RunCp2k(group[i], SubdirRuns(group[..i], fs, host, launch).value.1, host, launch).Ok?
        ensures RunCp2k(group[i], SubdirRuns(group[..i], fs, host, launch).value.1, host, launch).value.0 ==
          SubdirRuns(group, fs, host, launch).value.0[i]
        ensures var c := SubdirRuns(group, fs, host, launch).value.0[i].code; c == 0 || c == -2
      {
        SubdirRunsAt(group, fs, host, launch, i);
      }
    } else if group != [] && group[0].input.parts != [] {
      assert SubdirRuns(group, fs, host, launch).Err?;
    }
  }

  /**
   * As written, a task that hits the time limit aborts its group: the first
   * task of a group timing out makes `run_subdir_cp2k` raise instead of
   * returning a report with a TIMEOUT record.
   */
  lemma TimeoutAbortsGroup(group: seq<Task>, fs: map<Path, string>, host: Oracles, launch: (Task, map<Path, string>) -> Execution)
    requires group != [] && group[0].input.parts != []
    requires launch(group[0], fs).outcome.TimedOut?
    ensures SubdirOf(group, fs, host, launch) == Err(UnhandledTimeout)
    ensures ReturnCodeOf(launch(group[0], fs).outcome) == Timeout
  {
    assert group[..0] == [];
    assert TimesOutAt(group, fs, host, launch, 0);
    SubdirRunsFails(group, fs, host, launch);
  }

  // ---------------------------------------------------------------------
  // tallying the groups as they complete

  /** How many records of a group passed. */
  function GroupPasses(rs: seq<RunRecord>): nat
  {
    if rs == [] then 0
    else GroupPasses(rs[..|rs| - 1]) + if rs[|rs| - 1].verdict.pass then 1 else 0
  }

  /** What the error list receives for the records `rs` of the group `whole`: the whole group once per failure. */
  function GroupErrors(rs: seq<RunRecord>, whole: seq<RunRecord>): seq<seq<RunRecord>>
  {
    if rs == [] then []
    else GroupErrors(rs[..|rs| - 1], whole) + if rs[|rs| - 1].verdict.pass then [] else [whole]
  }

  function ReportPasses(r: SubdirReport): nat
  {
    GroupPasses(r.results)
  }

  function ReportErrors(r: SubdirReport): seq<seq<RunRecord>>
  {
    GroupErrors(r.results, r.results)
  }

  function ReportSize(r: SubdirReport): nat
  {
    |r.results|
  }

  function GroupSize(g: seq<Task>): nat
  {
    |g|
  }

  /** `num_pass` after the loop over the reports in completion order. */
  function PassCount(completed: seq<SubdirReport>): nat
  {
    Total(completed, ReportPasses)
  }

  /** `error_list` after the loop over the reports in completion order. */
  function ErrorList(completed: seq<SubdirReport>): seq<seq<RunRecord>>
  {
    Concat(completed, ReportErrors)
  }

  /** The loop that tallies the reports as the groups complete. */
  method Aggregate(completed: seq<SubdirReport>) returns (numPass: nat, errorList: seq<seq<RunRecord>>)
    ensures numPass == PassCount(completed)
    ensures errorList == ErrorList(completed)
  {
    numPass := 0;
    errorList := [];
    for i := 0 to |completed|
      invariant numPass == Total(completed[..i], ReportPasses)
      invariant errorList == Concat(completed[..i], ReportErrors)
    {
      var result := completed[i].results;
      for j := 0 to |result|
        invariant numPass == Total(completed[..i], ReportPasses) + GroupPasses(result[..j])
        invariant errorList == Concat(completed[..i], ReportErrors) + GroupErrors(result[..j], result)
      {
        assert result[..j + 1][..j] == result[..j];
        if result[j].verdict.pass {
          numPass := numPass + 1;
        } else {
          errorList := errorList + [result];
        }
      }
      assert result[..|result|] == result;
      assert completed[..i + 1][..i] == completed[..i];
    }
    assert completed[..|completed|] == completed;
  }

  /** Some record of the group failed. */
  predicate HasFailure(rs: seq<RunRecord>)
  {
    exists t :: 0 <= t < |rs| && !rs[t].verdict.pass
  }

  /**
   * Within one group, every record is either counted as a pass or adds one
   * entry to the error list, and every such entry is the whole group, not
   * the failing record; the entries appear only for a failure.
   */
  lemma {:induction false} GroupTally(rs: seq<RunRecord>, whole: seq<RunRecord>)
    ensures GroupPasses(rs) + |GroupErrors(rs, whole)| == |rs|
    ensures forall e :: e in GroupErrors(rs, whole) ==> e == whole && HasFailure(rs)
  {
    if rs != [] {
      var front := rs[..|rs| - 1];
      GroupTally(front, whole);
      assert forall t :: 0 <= t < |front| ==> front[t] == rs[t];
    }
  }

  /** Over all reports, the passes and the error entries together number the records. */
  lemma {:induction false} TallyCoversAll(completed: seq<SubdirReport>)
    ensures PassCount(completed) + |ErrorList(completed)| == Total(completed, ReportSize)
    decreases |completed|
  {
    if completed != [] {
      var last := completed[|completed| - 1];
      TallyCoversAll(completed[..|completed| - 1]);
      GroupTally(last.results, last.results);
    }
  }

  /**
   * The tally does not depend on the order in which the groups complete:
   * any order gives the same pass count and the same error entries, counted
   * with multiplicity.
   */
  lemma CompletionOrderIrrelevant(completed: seq<SubdirReport>, other: seq<SubdirReport>)
    requires multiset(completed) == multiset(other)
    ensures PassCount(completed) == PassCount(other)
    ensures multiset(ErrorList(completed)) == multiset(ErrorList(other))
    ensures |ErrorList(completed)| == |ErrorList(other)|
  {
    TotalPermutation(completed, other, ReportPasses);
    ConcatPermutation(completed, other, ReportErrors);
    assert |multiset(ErrorList(completed))| == |ErrorList(completed)|;
  }

  /** Every entry of the error list is the whole record list of a completed group that holds a failure. */
  lemma ErrorEntries(completed: seq<SubdirReport>)
    ensures forall e :: e in ErrorList(completed) ==>
      HasFailure(e) && exists k :: 0 <= k < |completed| && completed[k].results == e
  {
    forall e | e in ErrorList(completed)
      ensures HasFailure(e) && exists k :: 0 <= k < |completed| && completed[k].results == e
    {
      ConcatMember(completed, ReportErrors, e);
      var k :| 0 <= k < |completed| && e in ReportErrors(completed[k]);
      GroupTally(completed[k].results, completed[k].results);
    }
  }

  /**
   * When every group of the task list ran to a report and the reports
   * arrive in any order, the passes and the error entries together number
   * the tasks of the whole list.
   */
  lemma AllTasksCounted(groups: seq<seq<Task>>, reports: seq<SubdirReport>, completed: seq<SubdirReport>,
                        fs: map<Path, string>, host: Oracles, launch: (Task, map<Path, string>) -> Execution)
    requires |reports| == |groups|
    requires forall i :: 0 <= i < |groups| ==> SubdirOf(groups[i], fs, host, launch) == Ok(reports[i])
    requires multiset(completed) == multiset(reports)
    ensures PassCount(completed) + |ErrorList(completed)| == Total(groups, GroupSize)
  {
    TallyCoversAll(completed);
    TotalPermutation(completed, reports, ReportSize);
    forall i | 0 <= i < |groups| ensures ReportSize(reports[i]) == GroupSize(groups[i]) {
      SubdirInOrder(groups[i], fs, host, launch);
    }
    TotalPointwise(reports, ReportSize, groups, GroupSize);
  }
}
