/**
 * WorkerDialog and ExportWork (workerdialog.h, workerdialog.cpp) as classes
 * whose methods update their fields in place. The thread pool is reduced to
 * the list of runnables it has been handed and not yet started, and to its
 * thread count; signal emission is a direct call of the connected slot.
 */
module Worker {
  import opened CTypes
  import opened Batch

  /** The target of an `int *`: every ExportWork points at the dialog's own `priority`. */
  class IntCell {
    var value: int

    constructor (v: int)
      ensures value == v
    {
      value := v;
    }
  }

  /** The hint ExportWork::run gives SetThreadPriority before anything else. */
  datatype ThreadMode = BackgroundBegin | BackgroundEnd

  function ModeFor(priority: int): (m: ThreadMode)
    ensures m == BackgroundBegin <==> priority == 1
  {
    if priority == 1 then BackgroundBegin else BackgroundEnd
  }

  class ExportWork {
    const idx: nat
    const file: string
    var cancel: bool
    const currentPriority: IntCell

    constructor (idx: nat, file: string, priority: IntCell)
      ensures this.idx == idx && this.file == file && currentPriority == priority
      ensures !cancel
    {
      this.idx := idx;
      this.file := file;
      currentPriority := priority;
      cancel := false;
    }

    /** The slot connected to cancelSignal: it only ever sets the flag, so calling it again changes nothing. */
    method OnCancel()
      modifies this
      ensures cancel
    {
      cancel := true;
    }

    /**
     * run(). `success` is what RdbFile::ExtractFile returns, and
     * `cancelledDuringExtract` says whether cancelSignal reached this job
     * while ExtractFile was running on the pool thread.
     */
    method Run(success: bool, cancelledDuringExtract: bool) returns (mode: ThreadMode, outcome: RunOutcome)
      modifies this
      ensures mode == ModeFor(currentPriority.value)
      ensures cancel == (old(cancel) || cancelledDuringExtract)
      ensures outcome == RunOutcomeOf(old(cancel), success, cancel)
    {
      mode := if currentPriority.value == 1 then BackgroundBegin else BackgroundEnd;
      if cancel {
        return mode, Dropped;
      }
      // RdbFile::ExtractFile(idx, file, true, true) runs here and returns `success`.
      if cancelledDuringExtract {
        OnCancel();
      }
      if !success && !cancel {
        return mode, Failed;
      }
      if cancel {
        return mode, Abandoned;
      }
      outcome := Finished;
    }
  }

  class WorkerDialog {
    var filesIdx: seq<nat>
    var outDir: string
    var jobsFinished: int
    var maxJobs: int
    /** max_jobs has no initialiser: it means something only after setExport, setExportAll or onSetWorkSize. */
    ghost var maxJobsSet: bool
    const priority: IntCell
    var works: seq<ExportWork>
    /** The runnables handed to the global pool that have not started yet. */
    var pending: seq<ExportWork>
    var poolMaxThreads: int
    var result: Closing

    /** Every job reads the dialog's own priority through its `int *`. */
    ghost predicate Valid()
      reads this
    {
      forall w <- works :: w.currentPriority == priority
    }

    /** The dialog's state as the batch machine sees it. */
    function View(): Dialog
      reads this, priority
    {
      Dialog(maxJobs, jobsFinished, priority.value, result)
    }

    constructor ()
      ensures Valid() && fresh(priority)
      ensures jobsFinished == 0 && priority.value == 0 && !maxJobsSet
      ensures filesIdx == [] && works == [] && pending == [] && result == Open
    {
      filesIdx := [];
      outDir := "";
      jobsFinished := 0;
      maxJobs := *;
      maxJobsSet := false;
      priority := new IntCell(0);
      works := [];
      pending := [];
      poolMaxThreads := *;
      result := Open;
    }

    /** setExport: one index per hash, in hash order, looked up with RdbFile::FindFileByID. */
    method SetExport(hashes: seq<uint32>, dir: string, findFileById: uint32 -> nat)
      requires Valid()
      modifies this
      ensures Valid()
      ensures maxJobs == SizeToInt(|hashes|) && maxJobsSet
      ensures |filesIdx| == |hashes|
      ensures forall i | 0 <= i < |hashes| :: filesIdx[i] == findFileById(hashes[i])
      ensures outDir == dir
      ensures jobsFinished == old(jobsFinished) && works == old(works) && pending == old(pending)
      ensures result == old(result) && poolMaxThreads == old(poolMaxThreads)
    {
      maxJobs := SizeToInt(|hashes|);
      maxJobsSet := true;
      var indices := seq(|hashes|, _ => 0);
      for i := 0 to |hashes|
        invariant |indices| == |hashes|
        invariant forall k | 0 <= k < i :: indices[k] == findFileById(hashes[k])
      {
        indices := indices[i := findFileById(hashes[i])];
      }
      filesIdx := indices;
      outDir := dir;
    }

    /** setExportAll: the indices 0 .. n-1 in order, n being RdbFile::GetNumFiles. */
    method SetExportAll(numFiles: nat, dir: string)
      requires Valid()
      modifies this
      ensures Valid()
      ensures maxJobs == SizeToInt(numFiles) && maxJobsSet
      ensures |filesIdx| == numFiles
      ensures forall i | 0 <= i < numFiles :: filesIdx[i] == i
      ensures outDir == dir
      ensures jobsFinished == old(jobsFinished) && works == old(works) && pending == old(pending)
      ensures result == old(result) && poolMaxThreads == old(poolMaxThreads)
    {
      maxJobs := SizeToInt(numFiles);
      maxJobsSet := true;
      var indices := seq(numFiles, _ => 0);
      for i := 0 to numFiles
        invariant |indices| == numFiles
        invariant forall k | 0 <= k < i :: indices[k] == k
      {
        indices := indices[i := i];
      }
      filesIdx := indices;
      outDir := dir;
    }

    /** onSetWorkSize. */
    method OnSetWorkSize(size: int)
      requires Valid()
      modifies this
      ensures Valid()
      ensures maxJobs == size && maxJobsSet
      ensures jobsFinished == old(jobsFinished) && result == old(result) && filesIdx == old(filesIdx)
      ensures works == old(works) && pending == old(pending)
      ensures outDir == old(outDir) && poolMaxThreads == old(poolMaxThreads)
    {
      maxJobs := size;
      maxJobsSet := true;
    }

    /**
     * DoExport: one job per entry of files_idx, writing to
     * MakePathString(out_dir, name), all sharing the dialog's priority;
     * jobs_finished back to 0, one pool thread, every job handed to the pool.
     */
    method DoExport(comboIndex: int, fileName: nat -> string, makePath: (string, string) -> string)
      modifies this, priority
      ensures Valid()
      ensures |works| == |filesIdx| == old(|filesIdx|)
      ensures forall i | 0 <= i < |works| ::
        && fresh(works[i]) && !works[i].cancel
        && works[i].idx == filesIdx[i]
        && works[i].file == makePath(outDir, fileName(filesIdx[i]))
      ensures forall i, k | 0 <= i < k < |works| :: works[i] != works[k]
      ensures pending == works
      ensures jobsFinished == 0 && poolMaxThreads == 1 && priority.value == comboIndex
      ensures filesIdx == old(filesIdx) && outDir == old(outDir) && maxJobs == old(maxJobs)
      ensures maxJobsSet == old(maxJobsSet) && result == old(result)
    {
      priority.value := comboIndex;
      var indices, dir := filesIdx, outDir;
      var made: seq<ExportWork> := [];
      for i := 0 to |indices|
        modifies {}
        invariant |made| == i
        invariant forall k | 0 <= k < i ::
          && fresh(made[k]) && !made[k].cancel && made[k].currentPriority == priority
          && made[k].idx == indices[k]
          && made[k].file == makePath(dir, fileName(indices[k]))
        invariant forall k, m | 0 <= k < m < i :: made[k] != made[m]
      {
        var file := makePath(dir, fileName(indices[i]));
        var w := new ExportWork(indices[i], file, priority);
        made := made + [w];
      }
      works := made;
      jobsFinished := 0;
      poolMaxThreads := 1;
      pending := works;
    }

    /**
     * emit cancelSignal(): every connected job's onCancel runs. A job the pool
     * has already run and auto-deleted is disconnected in the source; here it
     * stays in `works` and gets the flag too, which nothing reads any more.
     */
    method EmitCancelSignal()
      modifies works
      ensures forall w <- works :: w.cancel
    {
      for i := 0 to |works|
        invariant forall k | 0 <= k < i :: works[k].cancel
      {
        works[i].OnCancel();
      }
    }

    /** onWorkFinished. */
    method OnWorkFinished()
      requires maxJobsSet && jobsFinished < INT_MAX
      requires Valid()
      modifies this
      ensures Valid()
      ensures View() == AfterWorkFinished(old(View()))
      ensures maxJobsSet && works == old(works) && pending == old(pending) && filesIdx == old(filesIdx)
      ensures outDir == old(outDir) && poolMaxThreads == old(poolMaxThreads)
    {
      jobsFinished := jobsFinished + 1;
      if jobsFinished == maxJobs {
        // QThreadPool::waitForDone()
        result := Done(SuccessCode);
      }
    }

    /** reject: nothing once every job has finished; otherwise clear the pool, cancel every job, end with 0. */
    method Reject()
      requires maxJobsSet
      requires Valid()
      modifies this, works
      ensures Valid()
      ensures View() == AfterReject(old(View()))
      ensures works == old(works) && filesIdx == old(filesIdx) && maxJobsSet
      ensures outDir == old(outDir) && poolMaxThreads == old(poolMaxThreads)
      ensures RejectActs(old(View())) ==> pending == [] && forall w <- works :: w.cancel
      ensures !RejectActs(old(View())) ==>
        pending == old(pending) && forall w <- works :: w.cancel == old(w.cancel)
    {
      if jobsFinished != maxJobs {
        pending := [];
        EmitCancelSignal();
        // QThreadPool::waitForDone()
        result := Done(CancelledCode);
      }
    }

    /** onError: clear the pool, cancel every job and end with -1, whatever came before. */
    method OnError()
      requires Valid()
      modifies this, works
      ensures Valid()
      ensures View() == AfterError(old(View()))
      ensures works == old(works) && filesIdx == old(filesIdx) && maxJobsSet == old(maxJobsSet)
      ensures outDir == old(outDir) && poolMaxThreads == old(poolMaxThreads)
      ensures pending == [] && forall w <- works :: w.cancel
    {
      pending := [];
      EmitCancelSignal();
      // QThreadPool::waitForDone()
      result := Done(ErrorCode);
    }

    /** on_priorityComboBox_activated: the shared value changes, so every job that has not run yet sees it. */
    method OnPriorityActivated(index: int)
      requires Valid()
      modifies priority
      ensures priority.value == index
      ensures forall w <- works :: w.currentPriority.value == index
    {
      priority.value := index;
    }
  }

  /**
   * A job built by DoExport reads the priority chosen after DoExport,
   * because it holds the address of the dialog's field and not a copy: with
   * "background" picked after DoExport, the second of two jobs runs in
   * background mode, and its workFinished alone does not close the dialog.
   */
  method PriorityIsShared(fileName: nat -> string, makePath: (string, string) -> string)
    returns (mode: ThreadMode, outcome: RunOutcome, closed: bool)
    ensures mode == BackgroundBegin && outcome == Finished && !closed
  {
    var dialog := new WorkerDialog();
    dialog.SetExportAll(2, "out");
    dialog.DoExport(0, fileName, makePath);
    var job := dialog.works[1];
    dialog.OnPriorityActivated(1);
    mode, outcome := job.Run(true, false);
    dialog.OnWorkFinished();
    closed := dialog.result != Open;
  }
}
