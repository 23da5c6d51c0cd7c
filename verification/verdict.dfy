/**
 * `check_task_for_error`: reads a task's output file and decides whether the
 * task passed, which value it reports and which status it shows. Every
 * exception inside is caught and reported as a runtime failure, so the
 * decision itself never raises.
 */
module Verdict {
  import opened Wrappers
  import opened Paths
  import opened Env
  import opened TestTypes
  import opened Catalog

  /** The status column: "OK", "WRONG RESULT", "RUNTIME FAILED", or left empty. */
  datatype Status = Passed | WrongResult | RuntimeFailed | NoStatus

  /**
   * What the check decides: whether the task passed, the extracted value it
   * reports (None where it shows "-") and its status.
   */
  datatype Judgement = Judgement(pass: bool, value: Option<real>, status: Status)

  const Failed := Judgement(false, None, RuntimeFailed)

  function Abs(x: real): real
  {
    if x < 0.0 then -x else x
  }

  /**
   * The value `float(task[2].grep(output))` yields for a checked task whose
   * output was read, or None where the rule matches no line, the column is
   * out of range or `float()` rejects the token.
   */
  function Extracted(task: Task, output: string, host: Oracles): (v: Option<real>)
    requires task.Checked?
    ensures v.Some? <==>
      Grep(task.testType, host, output).Found? && host.parseFloat(Grep(task.testType, host, output).token).Some?
  {
    match Grep(task.testType, host, output)
    case Found(token) => host.parseFloat(token)
    case _ => None
  }

  /**
   * The decision of `check_task_for_error`. A task passes only with status
   * OK; a runtime failure never reports a value.
   */
  function CheckTaskForError(task: Task, fs: map<Path, string>, host: Oracles): (j: Judgement)
    ensures j.pass <==> j.status == Passed
    ensures j.status == RuntimeFailed ==> j.value == None
  {
    if task.output !in fs then Failed
    else if task.RunOnly? then Judgement(true, None, Passed)
    else
      match Extracted(task, fs[task.output], host)
      case None => Failed
      case Some(out) =>
        if out == 0.0 then Judgement(false, Some(out), NoStatus)
        else if task.expected == 0.0 then Failed
        else if Abs((out - task.expected) / task.expected) < task.tolerance then Judgement(true, Some(out), Passed)
        else Judgement(false, Some(out), WrongResult)
  }

  /** For a nonzero expected value, the relative-error test is a comparison of absolute values. */
  lemma RelativeError(out: real, expected: real, tolerance: real)
    requires expected != 0.0
    ensures Abs((out - expected) / expected) < tolerance <==> Abs(out - expected) < tolerance * Abs(expected)
  {
  }

  /**
   * A task passes exactly when its output can be read and either it is a
   * run-only task, or a value is extracted that is not zero, the expected
   * value is not zero, and the value lies strictly within the tolerance of
   * the expected value, relative to it.
   */
  lemma PassRule(task: Task, fs: map<Path, string>, host: Oracles)
    ensures CheckTaskForError(task, fs, host).pass <==>
      task.output in fs &&
      (task.RunOnly? ||
        (var out := Extracted(task, fs[task.output], host);
         out.Some? && out.value != 0.0 && task.expected != 0.0 &&
         Abs(out.value - task.expected) < task.tolerance * Abs(task.expected)))
  {
    if task.output in fs && task.Checked? {
      var out := Extracted(task, fs[task.output], host);
      if out.Some? && out.value != 0.0 && task.expected != 0.0 {
        RelativeError(out.value, task.expected, task.tolerance);
      }
    }
  }

  /**
   * The tolerance test is strict: a checked task with a tolerance that is
   * not positive never passes, and a value whose relative error equals the
   * tolerance is a wrong result.
   */
  lemma ToleranceIsStrict(task: Task, fs: map<Path, string>, host: Oracles)
    requires task.Checked? && task.output in fs
    ensures task.tolerance <= 0.0 ==> !CheckTaskForError(task, fs, host).pass
    ensures var out := Extracted(task, fs[task.output], host);
      out.Some? && out.value != 0.0 && task.expected != 0.0 &&
      Abs(out.value - task.expected) == task.tolerance * Abs(task.expected)
      ==> CheckTaskForError(task, fs, host).status == WrongResult
  {
  }

  /**
   * The runtime failures: the output cannot be read, or for a checked task
   * no value is extracted, or a nonzero value meets a zero expected value
   * (the division raises). Exactly these report "RUNTIME FAILED".
   */
  lemma RuntimeFailures(task: Task, fs: map<Path, string>, host: Oracles)
    ensures CheckTaskForError(task, fs, host).status == RuntimeFailed <==>
      task.output !in fs ||
      (task.Checked? &&
        (var out := Extracted(task, fs[task.output], host);
         out.None? || (out.value != 0.0 && task.expected == 0.0)))
  {
  }

  /**
   * An extracted value of zero skips the comparison: the task fails with no
   * status but still reports the value, whatever the expected value and
   * tolerance.
   */
  lemma ZeroValueSkipsComparison(task: Task, fs: map<Path, string>, host: Oracles)
    requires task.Checked? && task.output in fs
    requires Extracted(task, fs[task.output], host) == Some(0.0)
    ensures CheckTaskForError(task, fs, host) == Judgement(false, Some(0.0), NoStatus)
  {
  }

  /**
   * A checked task whose expected value is zero never passes: a zero value
   * skips the comparison and any other value raises in the division.
   */
  lemma ZeroExpectedNeverPasses(task: Task, fs: map<Path, string>, host: Oracles)
    requires task.Checked? && task.expected == 0.0
    ensures !CheckTaskForError(task, fs, host).pass
    ensures task.output in fs && Extracted(task, fs[task.output], host).Some? ==>
      CheckTaskForError(task, fs, host).status == (if Extracted(task, fs[task.output], host).value == 0.0 then NoStatus else RuntimeFailed)
  {
  }

  /** A run-only task passes exactly when its output file can be read. */
  lemma RunOnlyPasses(task: Task, fs: map<Path, string>, host: Oracles)
    requires task.RunOnly?
    ensures CheckTaskForError(task, fs, host).pass <==> task.output in fs
    ensures CheckTaskForError(task, fs, host).value == None
  {
  }
}
