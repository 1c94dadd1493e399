/**
  ssnes_extract_zipfile (console/console_ext.c lines 206-232): extract every
  entry of an archive in order, stopping at the first entry that fails or the
  first failed move to the next entry.

  As written, the driver does not check what unzOpen returns, carries on
  when unzGetGlobalInfo fails, never calls unzClose and always returns 0.
*/
module ZipArchive {
  import opened Unzip
  import opened ZipEntry

  /** The answers for one entry, and for the unzGoToNextFile that may follow it. */
  datatype Slot = Slot(entry: EntryScript, nextStatus: int)

  /**
    The answers for one archive: whether unzOpen produced a handle, the
    status of unzGetGlobalInfo, and one slot per entry. The entry count the
    loop runs to, gi.number_entry, is the number of slots; when
    unzGetGlobalInfo fails gi is uninitialised, so any count is possible.
  */
  datatype ArchiveScript = ArchiveScript(handleOk: bool, globalStatus: int, slots: seq<Slot>)

  /** Every entry's data eventually ends. */
  predicate AllEnd(slots: seq<Slot>) {
    forall i :: 0 <= i < |slots| ==> Ends(slots[i].entry.replies)
  }

  /** The calls the driver makes, the extractor standing for one call. */
  datatype DriverCall = UnzOpen | GetGlobalInfo | ExtractCurrent(index: nat) | GoToNext(index: nat)

  /** What the loop did from some index on: the extractor runs and the driver's calls. */
  datatype Progress = Progress(runs: seq<EntryRun>, calls: seq<DriverCall>)

  datatype ArchiveRun = ArchiveRun(ret: int, runs: seq<EntryRun>, trace: seq<DriverCall>)

  /** The call the driver makes at position q of its loop calls when the loop starts at entry i. */
  function Scheduled(i: nat, q: nat): DriverCall {
    if q % 2 == 0 then ExtractCurrent(i + q / 2) else GoToNext(i + q / 2)
  }

  /** The for loop (lines 215-229) from entry i on. */
  function Iterate(slots: seq<Slot>, i: nat): (p: Progress)
    requires i <= |slots| && AllEnd(slots)
    ensures |p.runs| <= |slots| - i
    ensures i < |slots| <==> |p.runs| > 0
    decreases |slots| - i
  {
    if i == |slots| then Progress([], [])
    else
      var run := ExtractEntry(slots[i].entry);
      if run.status != UNZ_OK then
        Progress([run], [ExtractCurrent(i)])
      else if i + 1 < |slots| then
        if slots[i].nextStatus != UNZ_OK then
          Progress([run], [ExtractCurrent(i), GoToNext(i)])
        else
          var rest := Iterate(slots, i + 1);
          Progress([run] + rest.runs, [ExtractCurrent(i), GoToNext(i)] + rest.calls)
      else
        Progress([run], [ExtractCurrent(i)])
  }

  /** From entry i on, the extractor runs on entries i, i+1, ... in order. */
  lemma {:induction false} IterateInOrder(slots: seq<Slot>, i: nat)
    requires i <= |slots| && AllEnd(slots)
    ensures forall j :: 0 <= j < |Iterate(slots, i).runs| ==> Iterate(slots, i).runs[j] == ExtractEntry(slots[i + j].entry)
    decreases |slots| - i
  {
    if i < |slots| {
      var run := ExtractEntry(slots[i].entry);
      if run.status == UNZ_OK && i + 1 < |slots| && slots[i].nextStatus == UNZ_OK {
        IterateInOrder(slots, i + 1);
        var rest := Iterate(slots, i + 1).runs;
        var runs := Iterate(slots, i).runs;
        assert runs == [run] + rest;
        forall j | 1 <= j < |runs|
          ensures runs[j] == ExtractEntry(slots[i + j].entry)
        {
          assert runs[j] == rest[j - 1];
        }
      }
    }
  }

  /**
    Every run but the last succeeded and was followed by a successful
    unzGoToNextFile, and the loop stops before the last entry only on a
    failure of the extractor or of unzGoToNextFile.
  */
  lemma {:induction false} IterateStopsAtFailure(slots: seq<Slot>, i: nat)
    requires i <= |slots| && AllEnd(slots)
    ensures var runs := Iterate(slots, i).runs;
      && (forall j :: 0 <= j < |runs| - 1 ==> runs[j].status == UNZ_OK && slots[i + j].nextStatus == UNZ_OK)
      && (0 < |runs| < |slots| - i ==>
            runs[|runs| - 1].status != UNZ_OK || slots[i + |runs| - 1].nextStatus != UNZ_OK)
    decreases |slots| - i
  {
    if i < |slots| {
      var run := ExtractEntry(slots[i].entry);
      if run.status == UNZ_OK && i + 1 < |slots| && slots[i].nextStatus == UNZ_OK {
        IterateStopsAtFailure(slots, i + 1);
        var rest := Iterate(slots, i + 1).runs;
        var runs := Iterate(slots, i).runs;
        assert runs == [run] + rest;
        assert runs[0] == run && runs[|runs| - 1] == rest[|rest| - 1];
        forall j | 1 <= j < |runs| - 1
          ensures runs[j].status == UNZ_OK && slots[i + j].nextStatus == UNZ_OK
        {
          assert runs[j] == rest[j - 1];
          assert rest[j - 1].status == UNZ_OK && slots[i + 1 + (j - 1)].nextStatus == UNZ_OK;
        }
      }
    }
  }

  /**
    The loop's calls alternate extract / advance starting at entry i, and it
    advances after its last run exactly when that run succeeded and entries
    remain: unzGoToNextFile is never called after the last entry.
  */
  lemma {:induction false} IterateCalls(slots: seq<Slot>, i: nat)
    requires i <= |slots| && AllEnd(slots)
    ensures var p := Iterate(slots, i);
      && (forall q :: 0 <= q < |p.calls| ==> p.calls[q] == Scheduled(i, q))
      && (p.runs == [] ==> p.calls == [])
      && (p.runs != [] ==> |p.calls| == 2 * |p.runs| - 1 || |p.calls| == 2 * |p.runs|)
      && (p.runs != [] ==>
           (|p.calls| == 2 * |p.runs| <==> p.runs[|p.runs| - 1].status == UNZ_OK && i + |p.runs| < |slots|))
    decreases |slots| - i
  {
    if i < |slots| {
      var run := ExtractEntry(slots[i].entry);
      if run.status == UNZ_OK && i + 1 < |slots| && slots[i].nextStatus == UNZ_OK {
        IterateCalls(slots, i + 1);
        var rest := Iterate(slots, i + 1);
        var calls := Iterate(slots, i).calls;
        assert calls == [ExtractCurrent(i), GoToNext(i)] + rest.calls;
        forall q | 2 <= q < |calls|
          ensures calls[q] == Scheduled(i, q)
        {
          assert calls[q] == rest.calls[q - 2] == Scheduled(i + 1, q - 2);
        }
      }
    }
  }

  /** ssnes_extract_zipfile as written. */
  function ExtractArchive(a: ArchiveScript): (r: ArchiveRun)
    requires AllEnd(a.slots)
    ensures r.ret == 0
    ensures |r.runs| <= |a.slots|
    ensures |r.trace| >= 2 && r.trace[..2] == [UnzOpen, GetGlobalInfo]
  {
    var p := Iterate(a.slots, 0);
    ArchiveRun(0, p.runs, [UnzOpen, GetGlobalInfo] + p.calls)
  }

  /**
    When every entry extracts and every move to the next entry succeeds, the
    extractor runs once on every entry, in order.
  */
  lemma ArchiveExtractsAll(a: ArchiveScript)
    requires AllEnd(a.slots)
    requires forall j :: 0 <= j < |a.slots| ==> ExtractEntry(a.slots[j].entry).status == UNZ_OK
    requires forall j :: 0 <= j < |a.slots| - 1 ==> a.slots[j].nextStatus == UNZ_OK
    ensures |ExtractArchive(a).runs| == |a.slots|
    ensures forall j :: 0 <= j < |a.slots| ==> ExtractArchive(a).runs[j] == ExtractEntry(a.slots[j].entry)
  {
    IterateInOrder(a.slots, 0);
    IterateStopsAtFailure(a.slots, 0);
  }

  /**
    Fail-fast: if entry k is the first whose extraction or following
    unzGoToNextFile fails, the extractor ran on entries 0..k only and was
    never called on a later entry.
  */
  lemma ArchiveStopsAtFirstFailure(a: ArchiveScript, k: nat)
    requires AllEnd(a.slots)
    requires k < |a.slots|
    requires forall j :: 0 <= j < k ==> ExtractEntry(a.slots[j].entry).status == UNZ_OK && a.slots[j].nextStatus == UNZ_OK
    requires ExtractEntry(a.slots[k].entry).status != UNZ_OK || (k + 1 < |a.slots| && a.slots[k].nextStatus != UNZ_OK)
    ensures |ExtractArchive(a).runs| == k + 1
    ensures forall j :: 0 <= j <= k ==> ExtractArchive(a).runs[j] == ExtractEntry(a.slots[j].entry)
  {
    IterateInOrder(a.slots, 0);
    IterateStopsAtFailure(a.slots, 0);
    var runs := ExtractArchive(a).runs;
    var m := |runs|;
    assert runs[m - 1] == ExtractEntry(a.slots[m - 1].entry);
    if m > k {
      assert runs[k] == ExtractEntry(a.slots[k].entry);
    }
  }

  /** The loop call at odd position c is unzGoToNextFile after a successful entry c / 2 that is not the last. */
  lemma AdvanceAt(slots: seq<Slot>, c: nat)
    requires AllEnd(slots)
    requires c < |Iterate(slots, 0).calls| && c % 2 == 1
    ensures c / 2 < |Iterate(slots, 0).runs|
    ensures c / 2 + 1 < |slots|
    ensures Iterate(slots, 0).runs[c / 2].status == UNZ_OK
  {
    IterateCalls(slots, 0);
    IterateStopsAtFailure(slots, 0);
  }

  /**
    The driver's calls: unzOpen, unzGetGlobalInfo, then the extractor on
    entries 0, 1, ... with an unzGoToNextFile between consecutive entries.
    unzGoToNextFile(j) comes right after a successful extraction of entry j,
    only when j + 1 < number_entry, and is followed by the extraction of
    entry j + 1 if anything follows it.
  */
  lemma ArchiveAdvancesBetweenEntries(a: ArchiveScript, q: nat)
    requires AllEnd(a.slots)
    requires 2 <= q < |ExtractArchive(a).trace| && ExtractArchive(a).trace[q].GoToNext?
    ensures var r := ExtractArchive(a);
      && r.trace[q - 1] == ExtractCurrent(r.trace[q].index)
      && r.trace[q].index + 1 < |a.slots|
      && r.trace[q].index < |r.runs|
      && r.runs[r.trace[q].index].status == UNZ_OK
      && (q + 1 < |r.trace| ==> r.trace[q + 1] == ExtractCurrent(r.trace[q].index + 1))
  {
    IterateCalls(a.slots, 0);
    var r := ExtractArchive(a);
    var p := Iterate(a.slots, 0);
    var c := q - 2;
    assert r.trace[q] == p.calls[c] == Scheduled(0, c);
    assert r.trace[q - 1] == p.calls[c - 1] == Scheduled(0, c - 1);
    AdvanceAt(a.slots, c);
    if q + 1 < |r.trace| {
      assert r.trace[q + 1] == p.calls[c + 1] == Scheduled(0, c + 1);
    }
  }

  /** The result does not depend on unzOpen's handle or on unzGetGlobalInfo's status. */
  lemma ArchiveIgnoresOpenAndGlobalInfo(a: ArchiveScript, handleOk: bool, globalStatus: int)
    requires AllEnd(a.slots)
    ensures ExtractArchive(a.(handleOk := handleOk, globalStatus := globalStatus)) == ExtractArchive(a)
  {
  }

  /** One turn of the loop at entry i, given the extractor's run on that entry. */
  lemma IterateStep(slots: seq<Slot>, i: nat, run: EntryRun)
    requires i < |slots| && AllEnd(slots)
    requires run == ExtractEntry(slots[i].entry)
    ensures run.status != UNZ_OK ==> Iterate(slots, i) == Progress([run], [ExtractCurrent(i)])
    ensures run.status == UNZ_OK && i + 1 == |slots| ==> Iterate(slots, i) == Progress([run], [ExtractCurrent(i)])
    ensures run.status == UNZ_OK && i + 1 < |slots| && slots[i].nextStatus != UNZ_OK ==>
      Iterate(slots, i) == Progress([run], [ExtractCurrent(i), GoToNext(i)])
    ensures run.status == UNZ_OK && i + 1 < |slots| && slots[i].nextStatus == UNZ_OK ==>
      Iterate(slots, i) == Progress([run] + Iterate(slots, i + 1).runs,
                                    [ExtractCurrent(i), GoToNext(i)] + Iterate(slots, i + 1).calls)
  {
  }

  /** The driver in the shape the C code has: a counted loop with two breaks. */
  method ExtractZipfile(a: ArchiveScript) returns (r: ArchiveRun)
    requires AllEnd(a.slots)
    ensures r == ExtractArchive(a)
  {
    var err := a.globalStatus;  // only logged
    var runs: seq<EntryRun> := [];
    var calls: seq<DriverCall> := [];
    var n := |a.slots|;
    var i := 0;
    while i < n
      invariant 0 <= i <= n
      invariant Iterate(a.slots, 0).runs == runs + Iterate(a.slots, i).runs
      invariant Iterate(a.slots, 0).calls == calls + Iterate(a.slots, i).calls
    {
      var run := ExtractEntry(a.slots[i].entry);
      IterateStep(a.slots, i, run);
      if run.status != UNZ_OK {
        runs, calls := runs + [run], calls + [ExtractCurrent(i)];
        break;
      }
      if i + 1 < n {
        err := a.slots[i].nextStatus;
        if err != UNZ_OK {
          runs, calls := runs + [run], calls + [ExtractCurrent(i), GoToNext(i)];
          break;
        }
        runs, calls := runs + [run], calls + [ExtractCurrent(i), GoToNext(i)];
      } else {
        runs, calls := runs + [run], calls + [ExtractCurrent(i)];
      }
      i := i + 1;
    }
    r := ArchiveRun(0, runs, [UnzOpen, GetGlobalInfo] + calls);
  }
}
