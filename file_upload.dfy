/**
 * The upload component's state and its handlers. Each React state variable is a
 * field; each handler is a method that updates the fields the way its state
 * setters do. The codec is an oracle: `outcomes[i]` says whether converting the
 * i-th queued file succeeds. The ZIP archive is the sequence of entry names
 * added to it.
 */
module Upload {
  import opened Wrappers
  import opened Rename
  import opened Files
  import opened Batch

  class FileUpload {
    var files: seq<File>
    var failedConversions: nat
    var isProcessing: bool
    var progress: Progress
    /** The stored archive, as the names of its entries; None stands for null. */
    var zipFile: Option<seq<string>>

    /**
     * What every handler keeps: every listed file carries the 'queued' status,
     * progress never exceeds its total, and a stored archive is never empty.
     */
    ghost predicate Valid()
      reads this, files
    {
      (forall f :: f in files ==> f.status == Queued) &&
      progress.done <= progress.total &&
      (zipFile.Some? ==> |zipFile.value| > 0)
    }

    /** The initial state of the component's hooks. */
    constructor ()
      ensures Valid()
      ensures files == [] && failedConversions == 0 && !isProcessing
      ensures progress == Progress(0, 0) && zipFile == None
    {
      files := [];
      failedConversions := 0;
      isProcessing := false;
      progress := Progress(0, 0);
      zipFile := None;
    }

    /** The size shown under the drop zone: the sum of the listed files' sizes. */
    function TotalFileSize(): (total: nat)
      reads this
      ensures files == [] ==> total == 0
      ensures forall i :: 0 <= i < |files| ==> files[i].size <= total
    {
      TotalSize(files)
    }

    /**
     * Intake: every accepted file is marked 'queued' and appended, in order,
     * after the files already listed. Nothing else changes.
     */
    method OnDrop(accepted: seq<File>)
      requires Valid()
      modifies this, accepted
      ensures Valid()
      ensures files == old(files) + accepted
      ensures forall f :: f in accepted ==> f.status == Queued
      ensures TotalFileSize() == old(TotalFileSize()) + TotalSize(accepted)
      ensures failedConversions == old(failedConversions) && isProcessing == old(isProcessing)
      ensures progress == old(progress) && zipFile == old(zipFile)
    {
      for i := 0 to |accepted|
        invariant forall j :: 0 <= j < i ==> accepted[j].status == Queued
        invariant forall f :: f in files ==> f.status == Queued
        invariant files == old(files)
        invariant failedConversions == old(failedConversions) && isProcessing == old(isProcessing)
        invariant progress == old(progress) && zipFile == old(zipFile)
      {
        accepted[i].status := Queued;
      }
      TotalSizeConcat(files, accepted);
      files := files + accepted;
    }

    /** Removal: every entry that is the given file object goes; the rest keep their order. */
    method RemoveFile(file: File)
      requires Valid()
      modifies this
      ensures Valid()
      ensures files == Without(old(files), file)
      ensures file !in files
      ensures TotalFileSize() + multiset(old(files))[file] * file.size == old(TotalFileSize())
      ensures failedConversions == old(failedConversions) && isProcessing == old(isProcessing)
      ensures progress == old(progress) && zipFile == old(zipFile)
    {
      TotalSizeWithout(files, file);
      files := Without(files, file);
    }

    /** Reset: the list, the failure count, the progress and the stored archive are all cleared. */
    method ResetForm()
      modifies this
      ensures Valid()
      ensures files == [] && failedConversions == 0 && !isProcessing
      ensures progress == Progress(0, 0) && zipFile == None
      ensures TotalFileSize() == 0
    {
      files := [];
      failedConversions := 0;
      isProcessing := false;
      progress := Progress(0, 0);
      zipFile := None;
    }

    /**
     * One run over the listed files. Each file is converted in order; a success
     * adds its renamed name to the archive, a failure is counted and the run goes
     * on; progress is set after every file. The archive is stored only when some
     * file converted, so a run in which every file fails keeps the previous one.
     *
     * Returned alongside the new state: the run's local counters, the entry names
     * added to its archive, and the progress values set, in order.
     */
    method BeginProcessing(outcomes: seq<bool>)
      returns (converted: nat, failed: nat, entries: seq<string>, reports: seq<Progress>)
      requires Valid()
      requires |outcomes| == |files|
      modifies this
      ensures Valid()
      ensures files == old(files)
      ensures converted == Successes(outcomes) && converted + failed == |files|
      ensures entries == ArchiveEntries(Names(files), outcomes)
      ensures reports == ProgressSeries(|files|)
      ensures progress == Progress(|files|, |files|)
      ensures progress.Complete() <==> |files| > 0
      ensures failedConversions == failed && !isProcessing
      ensures zipFile == if converted > 0 then Some(entries) else old(zipFile)
    {
      isProcessing := true;
      failedConversions := 0;
      progress := Progress(0, |files|);
      reports := [progress];

      var names := Names(files);
      var n := |files|;
      entries := [];
      converted, failed := 0, 0;
      var i := 0;
      while i < n
        invariant 0 <= i <= n && files == old(files) && zipFile == old(zipFile)
        invariant isProcessing && failedConversions == 0
        invariant converted == Successes(outcomes[..i]) && converted + failed == i
        invariant entries == ArchiveEntries(names[..i], outcomes[..i])
        invariant progress == Progress(i, n)
        invariant reports == ProgressSeries(n)[..i + 1]
      {
        RunStep(names, outcomes, i);
        ProgressSeriesStep(n, i);
        if outcomes[i] {
          entries := entries + [WebpName(names[i])];
          converted := converted + 1;
        } else {
          failed := failed + 1;
        }
        progress := Progress(converted + failed, n);
        reports := reports + [progress];
        i := i + 1;
      }
      assert names[..n] == names && outcomes[..n] == outcomes;
      ArchiveEntriesLength(names, outcomes);

      failedConversions := failed;
      if converted > 0 {
        zipFile := Some(entries);
      }
      isProcessing := false;
    }
  }

  /**
   * A session: the same run after a reset and a fresh drop of the same files
   * gives the same counters, the same archive entries and the same stored
   * archive as the first run.
   */
  method RunIsRepeatable(dropped: seq<File>, outcomes: seq<bool>)
    returns (converted1: nat, failed1: nat, entries1: seq<string>, stored1: Option<seq<string>>,
             converted2: nat, failed2: nat, entries2: seq<string>, stored2: Option<seq<string>>)
    requires |outcomes| == |dropped|
    modifies set f | f in dropped
    ensures converted1 == converted2 && failed1 == failed2
    ensures entries1 == entries2 == ArchiveEntries(Names(dropped), outcomes)
    ensures stored1 == stored2
  {
    var ui := new FileUpload();
    ui.OnDrop(dropped);
    assert ui.files == dropped;
    var reports1;
    converted1, failed1, entries1, reports1 := ui.BeginProcessing(outcomes);
    stored1 := ui.zipFile;
    ui.ResetForm();
    ui.OnDrop(dropped);
    assert ui.files == dropped;
    var reports2;
    converted2, failed2, entries2, reports2 := ui.BeginProcessing(outcomes);
    stored2 := ui.zipFile;
  }

  /**
   * A session: a run in which `a` converts, then `a` is removed, `b` dropped and
   * a run in which `b` fails. The archive of the first run is still stored, and
   * the failure count is that of the second run.
   */
  method FailedRunKeepsArchive(a: File, b: File)
    returns (stored: Option<seq<string>>, failures: nat)
    modifies a, b
    ensures stored == Some([WebpName(a.name)]) && failures == 1
  {
    var ui := new FileUpload();
    ui.OnDrop([a]);
    var converted, failed, entries, reports := ui.BeginProcessing([true]);
    assert Names([a]) == [a.name];
    ArchiveEntriesSingle(a.name, true);
    ui.RemoveFile(a);
    assert ui.files == [];
    ui.OnDrop([b]);
    converted, failed, entries, reports := ui.BeginProcessing([false]);
    stored, failures := ui.zipFile, ui.failedConversions;
  }
}
