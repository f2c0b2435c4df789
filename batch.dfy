/**
 * What one run of the batch conversion computes, as functions of the file
 * names and of the codec's outcome for each file (true: it produced a WebP
 * file; false: it threw). The component's run method is proved to compute
 * exactly these values.
 */
module Batch {
  import opened Rename

  /**
   * The progress shown after some files: `done` of `total` processed. The
   * component displays `done / total * 100` percent. Equality of these pairs is
   * finer than the displayed value: every `Progress(0, t)` shows as 0.
   */
  datatype Progress = Progress(done: nat, total: nat)
  {
    /** Every file of a non-empty batch has been processed: 100%. */
    predicate Complete()
    {
      total > 0 && done == total
    }
  }

  /** How many conversions succeeded. */
  function Successes(outcomes: seq<bool>): (n: nat)
    ensures n <= |outcomes|
  {
    if outcomes == [] then 0
    else Successes(outcomes[..|outcomes| - 1]) + (if outcomes[|outcomes| - 1] then 1 else 0)
  }

  /**
   * The names added to the archive, in the order they are added: the renamed
   * name of each file whose conversion succeeded.
   */
  function ArchiveEntries(names: seq<string>, outcomes: seq<bool>): seq<string>
    requires |names| == |outcomes|
  {
    if names == [] then []
    else
      var n := |names| - 1;
      ArchiveEntries(names[..n], outcomes[..n]) + (if outcomes[n] then [WebpName(names[n])] else [])
  }

  /**
   * The progress values of a run over `n` files, in the order they are set: 0
   * at the start, then one value after each file.
   */
  function ProgressSeries(n: nat): seq<Progress>
  {
    seq(n + 1, k requires 0 <= k <= n => Progress(k, n))
  }

  /** The archive has one entry per successful conversion. */
  lemma {:induction false} ArchiveEntriesLength(names: seq<string>, outcomes: seq<bool>)
    requires |names| == |outcomes|
    ensures |ArchiveEntries(names, outcomes)| == Successes(outcomes)
  {
    if names != [] {
      var n := |names| - 1;
      ArchiveEntriesLength(names[..n], outcomes[..n]);
    }
  }

  /** Processing one more file extends the counters and the archive by that file's outcome alone. */
  lemma RunStep(names: seq<string>, outcomes: seq<bool>, i: nat)
    requires |names| == |outcomes| && i < |names|
    ensures Successes(outcomes[..i + 1]) == Successes(outcomes[..i]) + (if outcomes[i] then 1 else 0)
    ensures ArchiveEntries(names[..i + 1], outcomes[..i + 1]) ==
      ArchiveEntries(names[..i], outcomes[..i]) + (if outcomes[i] then [WebpName(names[i])] else [])
  {
    assert names[..i + 1][..i] == names[..i];
    assert outcomes[..i + 1][..i] == outcomes[..i];
  }

  /** The progress values set up to one more file. */
  lemma ProgressSeriesStep(n: nat, i: nat)
    requires i < n
    ensures ProgressSeries(n)[..i + 2] == ProgressSeries(n)[..i + 1] + [Progress(i + 1, n)]
  {
  }

  /** The archive of a batch split in two is the archive of the first part followed by that of the second. */
  lemma {:induction false} ArchiveEntriesConcat(a: seq<string>, oa: seq<bool>, b: seq<string>, ob: seq<bool>)
    requires |a| == |oa| && |b| == |ob|
    ensures ArchiveEntries(a + b, oa + ob) == ArchiveEntries(a, oa) + ArchiveEntries(b, ob)
  {
    if b == [] {
      assert a + b == a && oa + ob == oa;
    } else {
      var n := |b| - 1;
      assert (a + b)[..|a + b| - 1] == a + b[..n];
      assert (oa + ob)[..|oa + ob| - 1] == oa + ob[..n];
      ArchiveEntriesConcat(a, oa, b[..n], ob[..n]);
    }
  }

  /** Successes of a batch split in two add up. */
  lemma {:induction false} SuccessesConcat(oa: seq<bool>, ob: seq<bool>)
    ensures Successes(oa + ob) == Successes(oa) + Successes(ob)
  {
    if ob == [] {
      assert oa + ob == oa;
    } else {
      var n := |ob| - 1;
      assert (oa + ob)[..|oa + ob| - 1] == oa + ob[..n];
      SuccessesConcat(oa, ob[..n]);
    }
  }

  /** Every file that converted has its renamed name in the archive. */
  lemma {:induction false} ArchiveEntriesComplete(names: seq<string>, outcomes: seq<bool>, i: nat)
    requires |names| == |outcomes| && i < |names| && outcomes[i]
    ensures WebpName(names[i]) in ArchiveEntries(names, outcomes)
  {
    var n := |names| - 1;
    if i < n {
      ArchiveEntriesComplete(names[..n], outcomes[..n], i);
      assert names[..n][i] == names[i];
    }
  }

  /** Every archive entry is the renamed name of some file that converted. */
  lemma {:induction false} ArchiveEntriesSound(names: seq<string>, outcomes: seq<bool>, x: string)
    requires |names| == |outcomes| && x in ArchiveEntries(names, outcomes)
    ensures exists i :: 0 <= i < |names| && outcomes[i] && x == WebpName(names[i])
  {
    var n := |names| - 1;
    if x in ArchiveEntries(names[..n], outcomes[..n]) {
      ArchiveEntriesSound(names[..n], outcomes[..n], x);
      var i :| 0 <= i < n && outcomes[..n][i] && x == WebpName(names[..n][i]);
      assert outcomes[i] && x == WebpName(names[i]);
    } else {
      assert outcomes[n] && x == WebpName(names[n]);
    }
  }

  /** A name is in the archive exactly when it is the renamed name of a file that converted. */
  lemma ArchiveEntriesMembership(names: seq<string>, outcomes: seq<bool>, x: string)
    requires |names| == |outcomes|
    ensures x in ArchiveEntries(names, outcomes) <==>
      exists i :: 0 <= i < |names| && outcomes[i] && x == WebpName(names[i])
  {
    if x in ArchiveEntries(names, outcomes) {
      ArchiveEntriesSound(names, outcomes, x);
    }
    if exists i :: 0 <= i < |names| && outcomes[i] && x == WebpName(names[i]) {
      var i :| 0 <= i < |names| && outcomes[i] && x == WebpName(names[i]);
      ArchiveEntriesComplete(names, outcomes, i);
    }
  }

  /** When every file converts, the archive holds every renamed name, in order. */
  lemma {:induction false} ArchiveEntriesAllSucceed(names: seq<string>, outcomes: seq<bool>)
    requires |names| == |outcomes|
    requires forall i :: 0 <= i < |outcomes| ==> outcomes[i]
    ensures Successes(outcomes) == |names|
    ensures ArchiveEntries(names, outcomes) == seq(|names|, i requires 0 <= i < |names| => WebpName(names[i]))
  {
    if names != [] {
      var n := |names| - 1;
      ArchiveEntriesAllSucceed(names[..n], outcomes[..n]);
      var renamed := seq(|names|, i requires 0 <= i < |names| => WebpName(names[i]));
      var prefix := seq(n, i requires 0 <= i < n => WebpName(names[..n][i]));
      assert outcomes[n];
      assert renamed == prefix + [WebpName(names[n])];
    }
  }

  /** When every file fails, nothing is added to the archive. */
  lemma {:induction false} ArchiveEntriesAllFail(names: seq<string>, outcomes: seq<bool>)
    requires |names| == |outcomes|
    requires forall i :: 0 <= i < |outcomes| ==> !outcomes[i]
    ensures Successes(outcomes) == 0
    ensures ArchiveEntries(names, outcomes) == []
  {
    if names != [] {
      var n := |names| - 1;
      ArchiveEntriesAllFail(names[..n], outcomes[..n]);
    }
  }

  /**
   * Progress never goes back within a run, all values have the run's total,
   * the run starts at 0, and 100% is shown exactly after the last file.
   */
  lemma ProgressSeriesMonotone(n: nat)
    ensures ProgressSeries(n)[0].done == 0
    ensures forall j, k :: 0 <= j <= k <= n ==>
      ProgressSeries(n)[j].total == n && ProgressSeries(n)[j].done <= ProgressSeries(n)[k].done
    ensures forall k :: 0 <= k <= n ==> (ProgressSeries(n)[k].Complete() <==> 0 < n && k == n)
  {
  }

  /** A batch of one file adds its renamed name exactly when it converts. */
  lemma ArchiveEntriesSingle(name: string, converts: bool)
    ensures ArchiveEntries([name], [converts]) == if converts then [WebpName(name)] else []
  {
    assert [name][..0] == [] && [converts][..0] == [];
  }

  /** Three files, the last of which the codec rejects: two entries, one failure. */
  lemma ThreeFilesOneFailure(x: string, y: string, z: string)
    ensures Successes([true, true, false]) == 2
    ensures ArchiveEntries([x, y, z], [true, true, false]) == [WebpName(x), WebpName(y)]
  {
    assert [true, true, false][..2] == [true, true] && [true, true][..1] == [true];
    assert [x, y, z] == [x, y] + [z] && [x, y] == [x] + [y];
    assert [true, true, false] == [true, true] + [false] && [true, true] == [true] + [true];
    ArchiveEntriesConcat([x], [true], [y], [true]);
    ArchiveEntriesConcat([x, y], [true, true], [z], [false]);
    ArchiveEntriesSingle(x, true);
    ArchiveEntriesSingle(y, true);
    ArchiveEntriesSingle(z, false);
  }

  /** The same with the names `a.jpg`, `b.png` and `c.bmp`: the archive holds `a.webp` and `b.webp`. */
  lemma ThreeImagesOneFailure()
    ensures ArchiveEntries(["a.jpg", "b.png", "c.bmp"], [true, true, false]) == ["a.webp", "b.webp"]
  {
    ThreeFilesOneFailure("a.jpg", "b.png", "c.bmp");
    WebpNameExampleSimple();
    LastIndexOfIs("b.png", '.', 1);
    assert "b.png"[..1] == "b";
    assert WebpName("b.png") == "b.webp";
  }
}
