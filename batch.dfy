/**
 * The batch-extraction outcome machine of WorkerDialog and its ExportWork jobs
 * (workerdialog.cpp), with threads abstracted into a sequence of events.
 *
 * One batch is the dialog's counters plus one job per entry of files_idx. A
 * job is taken from the queue by the pool (Take), checks its cancel flag and
 * calls RdbFile::ExtractFile or returns (Check), returns from ExtractFile (End)
 * and, when it emitted a signal, has that signal delivered to the dialog's
 * slot on the GUI thread (Deliver): Qt queues a signal emitted on a pool thread,
 * so End and Deliver are distinct events. cancelSignal is a direct connection
 * from the GUI thread, so it can land between Take and Check. The user acts through reject()
 * (Reject) and the priority combo box (SetPriority). The dialog's slots and the
 * user only act while exec()'s event loop runs, that is while no terminal code
 * has been handed to done().
 */
module Batch {
  import opened CTypes

  /** The codes WorkerDialog hands to done(); ExtractMultiple reads them from exec(). */
  const SuccessCode: int := 1
  const CancelledCode: int := 0
  const ErrorCode: int := -1

  /** How one ExportWork::run ends. */
  datatype RunOutcome =
    | Dropped    // cancel was already set: ExtractFile is not called and nothing is emitted
    | Abandoned  // ExtractFile was called, cancel was set by the time it returned: nothing is emitted
    | Failed     // errorSignal was emitted
    | Finished   // workFinished was emitted

  datatype Signal = NoSignal | ErrorSignal | WorkFinished

  function SignalOf(o: RunOutcome): Signal {
    match o
    case Failed => ErrorSignal
    case Finished => WorkFinished
    case _ => NoSignal
  }

  /**
   * The decision ExportWork::run makes from the cancel flag at its first check,
   * the value ExtractFile returned, and the cancel flag read after the call.
   * A run emits at most one signal, since it ends in exactly one outcome.
   */
  function RunOutcomeOf(cancelBefore: bool, success: bool, cancelAfter: bool): (r: RunOutcome)
    ensures r == Dropped <==> cancelBefore
    ensures SignalOf(r) == ErrorSignal <==> !cancelBefore && !success && !cancelAfter
    ensures SignalOf(r) == WorkFinished <==> !cancelBefore && success && !cancelAfter
    ensures cancelAfter ==> SignalOf(r) == NoSignal
  {
    if cancelBefore then Dropped
    else if !success && !cancelAfter then Failed
    else if cancelAfter then Abandoned
    else Finished
  }

  /** Whether done() has been called, and with which code. */
  datatype Closing = Open | Done(code: int)

  /** The dialog's own state: max_jobs, jobs_finished, priority and the code given to done(). */
  datatype Dialog = Dialog(maxJobs: int, jobsFinished: int, priority: int, result: Closing)

  /** WorkerDialog::onWorkFinished. */
  function AfterWorkFinished(d: Dialog): (r: Dialog)
    ensures r.jobsFinished == d.jobsFinished + 1
    ensures r.maxJobs == d.maxJobs && r.priority == d.priority
    ensures r.jobsFinished == d.maxJobs ==> r.result == Done(SuccessCode)
    ensures r.jobsFinished != d.maxJobs ==> r.result == d.result
  {
    var finished := d.jobsFinished + 1;
    d.(jobsFinished := finished, result := if finished == d.maxJobs then Done(SuccessCode) else d.result)
  }

  /** Whether WorkerDialog::reject acts: only while some job has not finished. */
  predicate RejectActs(d: Dialog) {
    d.jobsFinished != d.maxJobs
  }

  /** WorkerDialog::reject, the dialog's part. */
  function AfterReject(d: Dialog): (r: Dialog)
    ensures !RejectActs(d) ==> r == d
    ensures RejectActs(d) ==> r == d.(result := Done(CancelledCode))
  {
    if RejectActs(d) then d.(result := Done(CancelledCode)) else d
  }

  /** WorkerDialog::onError, the dialog's part: it ends with -1 whatever happened before. */
  function AfterError(d: Dialog): (r: Dialog)
    ensures r.result == Done(ErrorCode)
    ensures r.maxJobs == d.maxJobs && r.jobsFinished == d.jobsFinished && r.priority == d.priority
  {
    d.(result := Done(ErrorCode))
  }

  /**
   * Where a job is: in the pool's queue, on the pool thread before its cancel
   * check, inside ExtractFile, returned (signal delivered or not), or removed
   * from the queue by QThreadPool::clear.
   */
  datatype Phase = Queued | Started | Extracting | Ran(outcome: RunOutcome, delivered: bool) | Cleared

  /** One ExportWork: its cancel flag and where it is. */
  datatype Job = Job(cancel: bool, phase: Phase)

  datatype State = State(dialog: Dialog, jobs: seq<Job>)

  datatype Event =
    | Take(j: nat)                // the pool's thread takes job j from the queue and run() sets the thread mode
    | Check(j: nat)               // run() tests cancel: returns at once if set, otherwise calls ExtractFile
    | End(j: nat, success: bool)  // ExtractFile returns `success` to job j, which decides what to emit
    | Deliver(j: nat)             // the signal job j emitted reaches the dialog's slot
    | Reject                      // the user cancels (button, Esc or window close)
    | SetPriority(p: int)         // on_priorityComboBox_activated

  /** emit cancelSignal() after QThreadPool::clear(): every job is told to cancel, and jobs still queued never run. */
  function Broadcast(jobs: seq<Job>): (r: seq<Job>)
    ensures |r| == |jobs|
    ensures forall i | 0 <= i < |jobs| :: r[i].cancel
    ensures forall i | 0 <= i < |jobs| ::
      r[i].phase == (if jobs[i].phase == Queued then Cleared else jobs[i].phase)
  {
    seq(|jobs|, i requires 0 <= i < |jobs| =>
      Job(true, if jobs[i].phase == Queued then Cleared else jobs[i].phase))
  }

  /** The job occupies the pool's thread: run() has begun and not returned. */
  predicate Running(job: Job) {
    job.phase == Started || job.phase == Extracting
  }

  /** The pool's single thread is free. */
  predicate Idle(jobs: seq<Job>) {
    forall i | 0 <= i < |jobs| :: !Running(jobs[i])
  }

  /** One event. An event that cannot happen in the given state leaves it unchanged. */
  function Step(s: State, e: Event): (r: State)
    ensures |r.jobs| == |s.jobs|
    ensures r.dialog.maxJobs == s.dialog.maxJobs
    ensures r.dialog.jobsFinished >= s.dialog.jobsFinished
  {
    match e
    case Take(j) =>
      if j < |s.jobs| && s.jobs[j].phase == Queued && Idle(s.jobs) then
        s.(jobs := s.jobs[j := s.jobs[j].(phase := Started)])
      else s
    case Check(j) =>
      if j < |s.jobs| && s.jobs[j].phase == Started then
        var phase := if s.jobs[j].cancel then Ran(Dropped, false) else Extracting;
        s.(jobs := s.jobs[j := s.jobs[j].(phase := phase)])
      else s
    case End(j, success) =>
      if j < |s.jobs| && s.jobs[j].phase == Extracting then
        var cancel := s.jobs[j].cancel;
        s.(jobs := s.jobs[j := Job(cancel, Ran(RunOutcomeOf(false, success, cancel), false))])
      else s
    case Deliver(j) =>
      if s.dialog.result == Open && j < |s.jobs| && s.jobs[j].phase.Ran?
         && !s.jobs[j].phase.delivered && SignalOf(s.jobs[j].phase.outcome) != NoSignal
      then
        var jobs := s.jobs[j := s.jobs[j].(phase := s.jobs[j].phase.(delivered := true))];
        if s.jobs[j].phase.outcome == Finished then State(AfterWorkFinished(s.dialog), jobs)
        else State(AfterError(s.dialog), Broadcast(jobs))
      else s
    case Reject =>
      if s.dialog.result == Open && RejectActs(s.dialog) then
        State(AfterReject(s.dialog), Broadcast(s.jobs))
      else s
    case SetPriority(p) =>
      if s.dialog.result == Open then s.(dialog := s.dialog.(priority := p)) else s
  }

  function Replay(s: State, evs: seq<Event>): (r: State)
    ensures |r.jobs| == |s.jobs|
    decreases |evs|
  {
    if evs == [] then s else Replay(Step(s, evs[0]), evs[1..])
  }

  /**
   * The state exec() reaches right after DoExport: setExport/setExportAll set
   * max_jobs to (int) of the number of indices, every job is queued with cancel
   * clear, and jobs_finished is 0.
   */
  function Start(n: nat, priority: int): (s: State)
    ensures |s.jobs| == n && s.dialog.result == Open && s.dialog.jobsFinished == 0
    ensures n <= INT_MAX ==> s.dialog.maxJobs == n
    ensures forall i | 0 <= i < n :: !s.jobs[i].cancel && s.jobs[i].phase == Queued
  {
    State(Dialog(SizeToInt(n), 0, priority, Open), seq(n, _ => Job(false, Queued)))
  }

  // ---------------------------------------------------------------------------
  // Counting finished jobs

  /** A job whose workFinished reached onWorkFinished. */
  predicate IsCounted(job: Job) {
    job.phase == Ran(Finished, true)
  }

  function Count(jobs: seq<Job>): (n: nat)
    ensures n <= |jobs|
  {
    if jobs == [] then 0
    else Count(jobs[..|jobs| - 1]) + (if IsCounted(jobs[|jobs| - 1]) then 1 else 0)
  }

  lemma {:induction false} CountSame(a: seq<Job>, b: seq<Job>)
    requires |a| == |b|
    requires forall i | 0 <= i < |a| :: IsCounted(a[i]) == IsCounted(b[i])
    ensures Count(a) == Count(b)
  {
    if a != [] {
      CountSame(a[..|a| - 1], b[..|b| - 1]);
    }
  }

  lemma {:induction false} CountUpdate(jobs: seq<Job>, j: nat, x: Job)
    requires j < |jobs|
    ensures Count(jobs[j := x]) ==
      Count(jobs) - (if IsCounted(jobs[j]) then 1 else 0) + (if IsCounted(x) then 1 else 0)
  {
    var last := |jobs| - 1;
    if j < last {
      assert jobs[j := x][..last] == jobs[..last][j := x];
      CountUpdate(jobs[..last], j, x);
    } else {
      assert jobs[j := x][..last] == jobs[..last];
    }
  }

  lemma {:induction false} CountAll(jobs: seq<Job>, i: nat)
    requires Count(jobs) == |jobs| && i < |jobs|
    ensures IsCounted(jobs[i])
  {
    var last := |jobs| - 1;
    if i < last {
      CountAll(jobs[..last], i);
    }
  }

  lemma {:induction false} CountEvery(jobs: seq<Job>)
    requires forall i | 0 <= i < |jobs| :: IsCounted(jobs[i])
    ensures Count(jobs) == |jobs|
  {
    if jobs != [] {
      CountEvery(jobs[..|jobs| - 1]);
    }
  }

  lemma {:induction false} CountNone(jobs: seq<Job>)
    requires forall i | 0 <= i < |jobs| :: !IsCounted(jobs[i])
    ensures Count(jobs) == 0
  {
    if jobs != [] {
      CountNone(jobs[..|jobs| - 1]);
    }
  }

  // ---------------------------------------------------------------------------
  // The invariant of a running batch

  /** One pool thread: at most one run() is under way. */
  predicate AtMostOneRunning(jobs: seq<Job>) {
    forall i, k | 0 <= i < k < |jobs| :: !(Running(jobs[i]) && Running(jobs[k]))
  }

  /** After a cancel broadcast: every job has cancel set and none is still queued. */
  predicate Halted(jobs: seq<Job>) {
    forall i | 0 <= i < |jobs| :: jobs[i].cancel && jobs[i].phase != Queued
  }

  predicate SomeFailureDelivered(jobs: seq<Job>) {
    exists i | 0 <= i < |jobs| :: jobs[i].phase == Ran(Failed, true)
  }

  ghost predicate Inv(s: State) {
    && s.dialog.maxJobs == |s.jobs|
    && s.dialog.jobsFinished == Count(s.jobs)
    && AtMostOneRunning(s.jobs)
    && (s.dialog.result == Open && s.jobs != [] ==> Count(s.jobs) < |s.jobs|)
    && (s.dialog.result == Done(SuccessCode) ==> Count(s.jobs) == |s.jobs|)
    && (s.dialog.result == Done(CancelledCode) ==> Halted(s.jobs) && RejectActs(s.dialog))
    && (s.dialog.result == Done(ErrorCode) ==> Halted(s.jobs) && SomeFailureDelivered(s.jobs))
    && (s.dialog.result == Open || s.dialog.result == Done(SuccessCode)
        || s.dialog.result == Done(CancelledCode) || s.dialog.result == Done(ErrorCode))
  }

  lemma StartInv(n: nat, priority: int)
    requires n <= INT_MAX
    ensures Inv(Start(n, priority))
  {
    CountNone(Start(n, priority).jobs);
  }

  lemma StepInv(s: State, e: Event)
    requires Inv(s)
    ensures Inv(Step(s, e))
  {
    match e
    case Take(j) => TakeInv(s, j);
    case Check(j) => CheckInv(s, j);
    case End(j, success) => EndInv(s, j, success);
    case Deliver(j) => DeliverInv(s, j);
    case Reject =>
      if s.dialog.result == Open && RejectActs(s.dialog) {
        CountSame(s.jobs, Broadcast(s.jobs));
      }
    case SetPriority(p) =>
  }

  lemma TakeInv(s: State, j: nat)
    requires Inv(s)
    ensures Inv(Step(s, Take(j)))
  {
    if j < |s.jobs| && s.jobs[j].phase == Queued && Idle(s.jobs) {
      var s' := Step(s, Take(j));
      CountUpdate(s.jobs, j, s'.jobs[j]);
      if s.dialog.result == Done(SuccessCode) {
        CountAll(s.jobs, j);
      }
    }
  }

  lemma CheckInv(s: State, j: nat)
    requires Inv(s)
    ensures Inv(Step(s, Check(j)))
  {
    if j < |s.jobs| && s.jobs[j].phase == Started {
      var s' := Step(s, Check(j));
      CountUpdate(s.jobs, j, s'.jobs[j]);
      if s.dialog.result == Done(ErrorCode) {
        var i :| 0 <= i < |s.jobs| && s.jobs[i].phase == Ran(Failed, true);
        assert s'.jobs[i] == s.jobs[i];
      }
    }
  }

  lemma EndInv(s: State, j: nat, success: bool)
    requires Inv(s)
    ensures Inv(Step(s, End(j, success)))
  {
    if j < |s.jobs| && s.jobs[j].phase == Extracting {
      var s' := Step(s, End(j, success));
      CountUpdate(s.jobs, j, s'.jobs[j]);
      if s.dialog.result == Done(SuccessCode) {
        CountAll(s.jobs, j);
      }
      if s.dialog.result == Done(ErrorCode) {
        var i :| 0 <= i < |s.jobs| && s.jobs[i].phase == Ran(Failed, true);
        assert s'.jobs[i] == s.jobs[i];
      }
    }
  }

  lemma DeliverInv(s: State, j: nat)
    requires Inv(s)
    ensures Inv(Step(s, Deliver(j)))
  {
    if s.dialog.result == Open && j < |s.jobs| && s.jobs[j].phase.Ran?
       && !s.jobs[j].phase.delivered && SignalOf(s.jobs[j].phase.outcome) != NoSignal
    {
      var jobs := s.jobs[j := s.jobs[j].(phase := s.jobs[j].phase.(delivered := true))];
      assert forall i | 0 <= i < |jobs| :: Running(jobs[i]) == Running(s.jobs[i]);
      CountUpdate(s.jobs, j, jobs[j]);
      if s.jobs[j].phase.outcome == Finished {
        DeliverFinishedInv(s, jobs);
      } else {
        DeliverFailedInv(s, j, jobs);
      }
    }
  }

  lemma DeliverFinishedInv(s: State, jobs: seq<Job>)
    requires Inv(s) && s.dialog.result == Open && |jobs| == |s.jobs|
    requires AtMostOneRunning(jobs) && Count(jobs) == Count(s.jobs) + 1
    ensures Inv(State(AfterWorkFinished(s.dialog), jobs))
  {
  }

  lemma DeliverFailedInv(s: State, j: nat, jobs: seq<Job>)
    requires Inv(s) && |jobs| == |s.jobs| && j < |jobs|
    requires AtMostOneRunning(jobs) && Count(jobs) == Count(s.jobs)
    requires jobs[j].phase == Ran(Failed, true)
    ensures Inv(State(AfterError(s.dialog), Broadcast(jobs)))
  {
    var b := Broadcast(jobs);
    CountSame(jobs, b);
    assert forall i | 0 <= i < |b| :: Running(b[i]) == Running(jobs[i]);
    assert b[j].phase == Ran(Failed, true);
  }

  lemma {:induction false} ReplayInv(s: State, evs: seq<Event>)
    requires Inv(s)
    ensures Inv(Replay(s, evs))
    decreases |evs|
  {
    if evs != [] {
      StepInv(s, evs[0]);
      ReplayInv(Step(s, evs[0]), evs[1..]);
    }
  }

  // ---------------------------------------------------------------------------
  // Properties of every run of a batch

  /** jobs_finished stays between 0 and max_jobs, whatever the order of events. */
  lemma FinishedWithinMax(n: nat, priority: int, evs: seq<Event>)
    requires n <= INT_MAX
    ensures var d := Replay(Start(n, priority), evs).dialog;
      0 <= d.jobsFinished <= d.maxJobs == n
  {
    StartInv(n, priority);
    ReplayInv(Start(n, priority), evs);
  }

  /** jobs_finished never decreases. */
  lemma {:induction false} FinishedMonotone(s: State, evs: seq<Event>)
    ensures Replay(s, evs).dialog.jobsFinished >= s.dialog.jobsFinished
    decreases |evs|
  {
    if evs != [] {
      FinishedMonotone(Step(s, evs[0]), evs[1..]);
    }
  }

  /** Once done() has been called its code never changes. */
  lemma {:induction false} ResultFinal(s: State, evs: seq<Event>)
    requires s.dialog.result != Open
    ensures Replay(s, evs).dialog.result == s.dialog.result
    decreases |evs|
  {
    if evs != [] {
      ResultFinal(Step(s, evs[0]), evs[1..]);
    }
  }

  /** reject() does nothing once every job has finished. */
  lemma RejectIdleWhenAllFinished(s: State)
    requires s.dialog.jobsFinished == s.dialog.maxJobs
    ensures Step(s, Reject) == s
  {
  }

  /** What each terminal code means about the jobs. */
  lemma {:induction false} OutcomeMeaning(n: nat, priority: int, evs: seq<Event>)
    requires n <= INT_MAX
    ensures var s := Replay(Start(n, priority), evs);
      && (s.dialog.result == Done(SuccessCode) ==>
            forall i | 0 <= i < n :: s.jobs[i].phase == Ran(Finished, true))
      && (s.dialog.result == Done(ErrorCode) ==>
            exists i | 0 <= i < n :: s.jobs[i].phase == Ran(Failed, true))
      && (s.dialog.result == Done(CancelledCode) ==> s.dialog.jobsFinished < n)
      && (s.dialog.result == Open && n > 0 ==> s.dialog.jobsFinished < n)
      && (s.dialog.result == Open || s.dialog.result == Done(SuccessCode)
          || s.dialog.result == Done(CancelledCode) || s.dialog.result == Done(ErrorCode))
  {
    StartInv(n, priority);
    ReplayInv(Start(n, priority), evs);
    var s := Replay(Start(n, priority), evs);
    if s.dialog.result == Done(SuccessCode) {
      forall i | 0 <= i < n ensures s.jobs[i].phase == Ran(Finished, true) {
        CountAll(s.jobs, i);
      }
    }
  }

  /** The converse for code 1: once every job's workFinished has been delivered, the dialog has ended with 1. */
  lemma AllDeliveredMeansSuccess(s: State)
    requires Inv(s) && s.jobs != []
    requires forall i | 0 <= i < |s.jobs| :: s.jobs[i].phase == Ran(Finished, true)
    ensures s.dialog.result == Done(SuccessCode)
  {
    CountEvery(s.jobs);
  }

  /** In every run of a non-empty batch, a batch whose jobs all delivered workFinished has ended with 1. */
  lemma AllFinishedMeansSuccess(n: nat, priority: int, evs: seq<Event>)
    requires 0 < n <= INT_MAX
    ensures var s := Replay(Start(n, priority), evs);
      (forall i | 0 <= i < n :: s.jobs[i].phase == Ran(Finished, true)) ==> s.dialog.result == Done(SuccessCode)
  {
    StartInv(n, priority);
    ReplayInv(Start(n, priority), evs);
    var s := Replay(Start(n, priority), evs);
    if forall i | 0 <= i < n :: s.jobs[i].phase == Ran(Finished, true) {
      AllDeliveredMeansSuccess(s);
    }
  }

  /** While a non-empty batch is open, reject() acts: the user can always end it with 0. */
  lemma NonEmptyCanAlwaysCancel(n: nat, priority: int, evs: seq<Event>)
    requires 0 < n <= INT_MAX
    ensures var s := Replay(Start(n, priority), evs);
      s.dialog.result == Open ==> Step(s, Reject).dialog.result == Done(CancelledCode)
  {
    StartInv(n, priority);
    ReplayInv(Start(n, priority), evs);
  }

  // ---------------------------------------------------------------------------
  // No extraction starts once the batch is cancelled or failed

  /** The job has called (or is inside) RdbFile::ExtractFile. */
  predicate CalledExtract(job: Job) {
    job.phase == Extracting || (job.phase.Ran? && job.phase.outcome != Dropped)
  }

  /**
   * The only way into ExtractFile is run()'s check with cancel clear, and
   * nothing ever clears a cancel flag.
   */
  lemma StepCallsOnlyUncancelled(s: State, e: Event, i: nat)
    requires i < |s.jobs|
    ensures |Step(s, e).jobs| == |s.jobs|
    ensures s.jobs[i].cancel ==> Step(s, e).jobs[i].cancel
    ensures CalledExtract(Step(s, e).jobs[i]) ==>
      CalledExtract(s.jobs[i]) || (s.jobs[i].phase == Started && !s.jobs[i].cancel)
  {
  }

  lemma {:induction false} ReplayCallsNothingNew(s: State, evs: seq<Event>, i: nat)
    requires i < |s.jobs| && s.jobs[i].cancel
    ensures |Replay(s, evs).jobs| == |s.jobs|
    ensures CalledExtract(Replay(s, evs).jobs[i]) ==> CalledExtract(s.jobs[i])
    decreases |evs|
  {
    if evs != [] {
      StepCallsOnlyUncancelled(s, evs[0], i);
      ReplayCallsNothingNew(Step(s, evs[0]), evs[1..], i);
    }
  }

  /**
   * Once the dialog has ended with 0 (cancelled) or -1 (an error was
   * delivered), no job that had not yet called ExtractFile ever calls it,
   * including one the pool had taken before the cancel broadcast.
   */
  lemma NoExtractionAfterHalt(s: State, evs: seq<Event>, i: nat)
    requires Inv(s) && (s.dialog.result == Done(CancelledCode) || s.dialog.result == Done(ErrorCode))
    requires i < |s.jobs| && !CalledExtract(s.jobs[i])
    ensures i < |Replay(s, evs).jobs| && !CalledExtract(Replay(s, evs).jobs[i])
  {
    ReplayCallsNothingNew(s, evs, i);
  }

  /**
   * A cancel that lands after the pool took a job but before run()'s check
   * drops that job at the check, and the jobs still queued never run.
   */
  lemma CancelBetweenTakeAndCheck()
    ensures var s := Replay(Start(2, 0), [Take(0), Reject, Check(0)]);
      && s.jobs[0] == Job(true, Ran(Dropped, false))
      && s.jobs[1] == Job(true, Cleared)
      && s.dialog.result == Done(CancelledCode)
  {
  }

  /**
   * The converse gap: between a job's failed ExtractFile and the delivery of
   * its errorSignal, the pool may start the next job, which calls ExtractFile.
   */
  lemma NextJobMayStartBeforeErrorIsDelivered()
    ensures var s := Replay(Start(2, 0), [Take(0), Check(0), End(0, false), Take(1), Check(1)]);
      s.jobs[0].phase == Ran(Failed, false) && s.jobs[1].phase == Extracting
      && s.dialog.result == Open
  {
  }

  // ---------------------------------------------------------------------------
  // The empty batch

  /**
   * With no job, no slot ever runs and reject() sees 0 == max_jobs: the dialog
   * never reaches a terminal code, whatever happens.
   */
  lemma {:induction false} EmptyBatchNeverCloses(priority: int, evs: seq<Event>)
    ensures Replay(Start(0, priority), evs).dialog.result == Open
  {
    EmptyStaysOpen(Start(0, priority), evs);
  }

  lemma {:induction false} EmptyStaysOpen(s: State, evs: seq<Event>)
    requires s.jobs == [] && s.dialog.maxJobs == 0 && s.dialog.jobsFinished == 0
    requires s.dialog.result == Open
    ensures Replay(s, evs).dialog.result == Open
    decreases |evs|
  {
    if evs != [] {
      EmptyStaysOpen(Step(s, evs[0]), evs[1..]);
    }
  }

  /** The intended start: an empty batch ends at once with the success code. */
  function StartChecked(n: nat, priority: int): (s: State)
    ensures n > 0 ==> s == Start(n, priority)
    ensures n == 0 ==> s.dialog.result == Done(SuccessCode) && s.jobs == []
  {
    var s := Start(n, priority);
    if n == 0 then s.(dialog := s.dialog.(result := Done(SuccessCode))) else s
  }

  lemma StartCheckedInv(n: nat, priority: int)
    requires n <= INT_MAX
    ensures Inv(StartChecked(n, priority))
  {
    StartInv(n, priority);
  }
}
