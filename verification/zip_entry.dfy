/**
  ssnes_extract_currentfile_in_zip (console/console_ext.c lines 121-204):
  extract the archive's current entry into a destination file, streaming it
  through one heap buffer, with minizip and the C file functions answered
  from an EntryScript.
*/
module ZipEntry {
  import opened Wrappers
  import opened Unzip

  /**
    The outcome of the do-while transfer loop: how many reads it made, the
    value of err when it left, and the bytes handed to fwrite calls that
    completed.
  */
  datatype Transfer = Transfer(readCalls: nat, err: int, written: seq<byte>)

  /** A reply after which the loop goes round again: a positive read whose write completed. */
  predicate Continues(reply: ReadReply) {
    reply.Data? && reply.written
  }

  /** The err the loop leaves with when it stops at this reply. */
  function StopCode(reply: ReadReply): (code: int)
    ensures reply.EndOfEntry? <==> code == UNZ_OK
  {
    match reply
    case Data(_, _) => UNZ_ERRNO
    case EndOfEntry => UNZ_OK
    case ReadFailed(c) => c
  }

  /**
    The transfer loop (lines 169-187). It stops at the first read that is
    not positive or the first write that does not complete; everything
    before that point went through it and into the file in order.
  */
  function RunTransfer(replies: seq<ReadReply>): (t: Transfer)
    requires Ends(replies)
    ensures 0 < t.readCalls <= |replies|
    ensures forall j :: 0 <= j < t.readCalls - 1 ==> Continues(replies[j])
    ensures !Continues(replies[t.readCalls - 1])
    ensures t.err == StopCode(replies[t.readCalls - 1])
    ensures t.written == Payload(replies[..t.readCalls - 1])
    decreases |replies|
  {
    var reply := replies[0];
    if !Continues(reply) then
      Transfer(1, StopCode(reply), [])
    else
      var rest := RunTransfer(replies[1..]);
      assert replies[..rest.readCalls] == [reply] + replies[1..][..rest.readCalls - 1];
      Transfer(rest.readCalls + 1, rest.err, reply.bytes + rest.written)
  }

  /**
    The same loop in the shape the C code has: a do-while on err > 0 with a
    break on a negative read and on an incomplete write.
  */
  method TransferLoop(replies: seq<ReadReply>) returns (t: Transfer)
    requires Ends(replies)
    ensures t == RunTransfer(replies)
  {
    var readCalls := 0;
    var written: seq<byte> := [];
    var err := UNZ_OK;
    while true
      invariant readCalls < |replies| && Ends(replies[readCalls..])
      invariant forall j :: 0 <= j < readCalls ==> Continues(replies[j])
      invariant written == Payload(replies[..readCalls])
      decreases |replies| - readCalls
    {
      var reply := replies[readCalls];
      err := ReadCode(reply);
      if err < 0 {
        break;
      }
      if err > 0 {
        if !reply.written {
          err := UNZ_ERRNO;
          break;
        }
        assert replies[..readCalls + 1] == replies[..readCalls] + [reply];
        PayloadAppend(replies[..readCalls], [reply]);
        written := written + reply.bytes;
      }
      if err <= 0 {
        break;
      }
      assert replies[readCalls..][1..] == replies[readCalls + 1..];
      readCalls := readCalls + 1;
    }
    t := Transfer(readCalls + 1, err, written);
  }

  /** The entry's outcome: the status returned, the destination file's contents if it was created, and the calls made. */
  datatype EntryRun = EntryRun(status: int, file: Option<seq<byte>>, trace: seq<Call>)

  /** The buffer was allocated: the entry-info lookup and malloc both succeeded. */
  predicate Allocated(s: EntryScript) {
    s.infoStatus == UNZ_OK && s.allocOk
  }

  /** Some call a comes earlier in the trace than some call b. */
  predicate Before(trace: seq<Call>, a: Call, b: Call) {
    exists p, q :: 0 <= p < q < |trace| && trace[p] == a && trace[q] == b
  }

  /**
    Lines 193-200: unzCloseCurrentFile is always called, and its code becomes
    the result only when nothing failed before it.
  */
  function AfterClose(err: int, closeStatus: int): int {
    if err == UNZ_OK then closeStatus else err
  }

  /**
    ssnes_extract_currentfile_in_zip as written. The destination file is
    created only when unzOpenCurrentFile and fopen both succeed, and then
    holds what the transfer loop wrote.
  */
  function ExtractEntry(s: EntryScript): (r: EntryRun)
    requires Ends(s.replies)
    ensures s.infoStatus != UNZ_OK ==> r.status == s.infoStatus && Malloc !in r.trace
    ensures s.infoStatus == UNZ_OK && !s.allocOk ==> r.status == UNZ_INTERNALERROR
    ensures r.file.Some? <==> Allocated(s) && s.openStatus == UNZ_OK && s.fopenOk
    ensures r.file.Some? ==> r.file.value == Payload(s.replies[..RunTransfer(s.replies).readCalls - 1])
  {
    var prefix := [GetFileInfo, Malloc, OpenCurrentFile];
    var suffix := [CloseCurrentFile, Free];
    if s.infoStatus != UNZ_OK then
      EntryRun(s.infoStatus, None, [GetFileInfo])
    else if !s.allocOk then
      EntryRun(UNZ_INTERNALERROR, None, [GetFileInfo, Malloc])
    else if s.openStatus != UNZ_OK then
      EntryRun(AfterClose(s.openStatus, s.closeStatus), None, prefix + suffix)
    else if !s.fopenOk then
      // err still holds the UNZ_OK of unzOpenCurrentFile
      EntryRun(AfterClose(UNZ_OK, s.closeStatus), None, prefix + [FOpen] + suffix)
    else
      var t := RunTransfer(s.replies);
      EntryRun(AfterClose(t.err, s.closeStatus), Some(t.written),
               prefix + [FOpen, ReadChunks(t.readCalls), FClose] + suffix)
  }

  /** The calls the extractor makes on each of its paths. */
  lemma EntryTrace(s: EntryScript)
    requires Ends(s.replies)
    ensures var tr := ExtractEntry(s).trace;
      if s.infoStatus != UNZ_OK then tr == [GetFileInfo]
      else if !s.allocOk then tr == [GetFileInfo, Malloc]
      else if s.openStatus != UNZ_OK then tr == [GetFileInfo, Malloc, OpenCurrentFile, CloseCurrentFile, Free]
      else if !s.fopenOk then tr == [GetFileInfo, Malloc, OpenCurrentFile, FOpen, CloseCurrentFile, Free]
      else tr == [GetFileInfo, Malloc, OpenCurrentFile, FOpen, ReadChunks(RunTransfer(s.replies).readCalls),
                  FClose, CloseCurrentFile, Free]
  {
  }

  /** A call sequence that brackets `body` between the allocation and the final close and free. */
  predicate Bracketed(trace: seq<Call>) {
    && |trace| >= 5
    && trace[..3] == [GetFileInfo, Malloc, OpenCurrentFile]
    && trace[|trace| - 2..] == [CloseCurrentFile, Free]
    && Free !in trace[3..|trace| - 2]
    && CloseCurrentFile !in trace[3..|trace| - 2]
  }

  lemma AllocatedIsBracketed(s: EntryScript)
    requires Ends(s.replies)
    requires Allocated(s)
    ensures Bracketed(ExtractEntry(s).trace)
  {
    EntryTrace(s);
  }

  lemma BracketedCounts(trace: seq<Call>)
    requires Bracketed(trace)
    ensures Last(trace) == Free
    ensures multiset(trace)[Free] == 1
    ensures multiset(trace)[CloseCurrentFile] == 1
    ensures Before(trace, Malloc, CloseCurrentFile)
  {
    var body := trace[3..|trace| - 2];
    assert trace == trace[..3] + body + trace[|trace| - 2..];
    assert trace[1] == Malloc && trace[|trace| - 2] == CloseCurrentFile;
    BeforeAt(trace, Malloc, CloseCurrentFile, 1, |trace| - 2);
  }

  /**
    Buffer discipline: the buffer is freed exactly when it was allocated,
    exactly once, and free is the extractor's last call.
  */
  lemma EntryFreesBuffer(s: EntryScript)
    requires Ends(s.replies)
    ensures !Allocated(s) ==> Free !in ExtractEntry(s).trace
    ensures Allocated(s) ==> Last(ExtractEntry(s).trace) == Free
    ensures Allocated(s) ==> multiset(ExtractEntry(s).trace)[Free] == 1
  {
    if Allocated(s) {
      AllocatedIsBracketed(s);
      BracketedCounts(ExtractEntry(s).trace);
    }
  }

  /**
    Archive-entry discipline: once the buffer is allocated, unzCloseCurrentFile
    is called exactly once, after the allocation, whether or not
    unzOpenCurrentFile succeeded; before that it is never called.
  */
  lemma EntryClosesArchiveEntry(s: EntryScript)
    requires Ends(s.replies)
    ensures !Allocated(s) ==> CloseCurrentFile !in ExtractEntry(s).trace
    ensures Allocated(s) ==> multiset(ExtractEntry(s).trace)[CloseCurrentFile] == 1
    ensures Allocated(s) ==> Before(ExtractEntry(s).trace, Malloc, CloseCurrentFile)
  {
    if Allocated(s) {
      AllocatedIsBracketed(s);
      BracketedCounts(ExtractEntry(s).trace);
    }
  }

  function Last(trace: seq<Call>): Call
    requires |trace| > 0
  {
    trace[|trace| - 1]
  }

  lemma BeforeAt(trace: seq<Call>, a: Call, b: Call, p: nat, q: nat)
    requires p < q < |trace| && trace[p] == a && trace[q] == b
    ensures Before(trace, a, b)
  {
  }

  /**
    Destination-stream discipline: the stream is closed exactly when it was
    opened, once, and before the archive entry is closed.
  */
  lemma EntryClosesStream(s: EntryScript)
    requires Ends(s.replies)
    ensures ExtractEntry(s).file.Some? ==> multiset(ExtractEntry(s).trace)[FClose] == 1
    ensures ExtractEntry(s).file.Some? ==> Before(ExtractEntry(s).trace, FClose, CloseCurrentFile)
    ensures ExtractEntry(s).file.None? ==> FClose !in ExtractEntry(s).trace
  {
    EntryTrace(s);
    if ExtractEntry(s).file.Some? {
      BeforeAt(ExtractEntry(s).trace, FClose, CloseCurrentFile, 5, 6);
    }
  }

  /**
    "First error wins": the status is the first non-UNZ_OK code among the
    steps in the order the code takes them.
  */
  function FirstFailure(codes: seq<int>): (c: int)
    ensures c == UNZ_OK <==> forall k :: 0 <= k < |codes| ==> codes[k] == UNZ_OK
    ensures c != UNZ_OK ==> exists k :: 0 <= k < |codes| && codes[k] == c
                              && forall j :: 0 <= j < k ==> codes[j] == UNZ_OK
  {
    if |codes| == 0 then UNZ_OK
    else if codes[0] != UNZ_OK then codes[0]
    else
      var c := FirstFailure(codes[1..]);
      assert c != UNZ_OK ==> exists k :: 1 <= k < |codes| && codes[k] == c
                              && forall j :: 0 <= j < k ==> codes[j] == UNZ_OK by {
        if c != UNZ_OK {
          var k :| 0 <= k < |codes[1..]| && codes[1..][k] == c && forall j :: 0 <= j < k ==> codes[1..][j] == UNZ_OK;
          assert codes[k + 1] == c;
        }
      }
      c
  }

  /**
    The code each step contributes: the entry-info lookup, the allocation
    (UNZ_INTERNALERROR when it fails), unzOpenCurrentFile, the transfer loop
    (only when the destination file was opened; a failed fopen contributes
    nothing) and unzCloseCurrentFile.
  */
  function StepCodes(s: EntryScript): seq<int>
    requires Ends(s.replies)
  {
    [ s.infoStatus,
      if s.allocOk then UNZ_OK else UNZ_INTERNALERROR,
      s.openStatus,
      if s.fopenOk then RunTransfer(s.replies).err else UNZ_OK,
      s.closeStatus ]
  }

  /** The extractor's status follows the first-error-wins rule over its steps. */
  lemma EntryStatusIsFirstFailure(s: EntryScript)
    requires Ends(s.replies)
    ensures ExtractEntry(s).status == FirstFailure(StepCodes(s))
  {
    var c := StepCodes(s);
    assert FirstFailure(c) == if c[0] != UNZ_OK then c[0] else FirstFailure(c[1..]);
    assert FirstFailure(c[1..]) == if c[1] != UNZ_OK then c[1] else FirstFailure(c[2..]);
    assert FirstFailure(c[2..]) == if c[2] != UNZ_OK then c[2] else FirstFailure(c[3..]);
    assert FirstFailure(c[3..]) == if c[3] != UNZ_OK then c[3] else FirstFailure(c[4..]);
    assert FirstFailure(c[4..]) == if c[4] != UNZ_OK then c[4] else FirstFailure(c[5..]);
    assert FirstFailure(c[5..]) == UNZ_OK;
  }

  /** The transfer loop stopped at the end of the entry rather than on an error. */
  predicate EndsCleanly(s: EntryScript)
    requires Ends(s.replies)
  {
    s.replies[RunTransfer(s.replies).readCalls - 1].EndOfEntry?
  }

  /**
    The entry succeeds exactly when every step does and the loop reached the
    end of the entry — or when fopen failed and everything else succeeded.
  */
  lemma EntrySuccessIff(s: EntryScript)
    requires Ends(s.replies)
    ensures ExtractEntry(s).status == UNZ_OK <==>
      && Allocated(s)
      && s.openStatus == UNZ_OK
      && (s.fopenOk ==> EndsCleanly(s))
      && s.closeStatus == UNZ_OK
  {
    EntryStatusIsFirstFailure(s);
  }

  /**
    A failed fopen after a successful unzOpenCurrentFile is not reported:
    err still holds UNZ_OK, so the entry's status is whatever
    unzCloseCurrentFile returns, and no file exists.
  */
  lemma FopenFailureIsSilent(s: EntryScript)
    requires Ends(s.replies)
    requires Allocated(s) && s.openStatus == UNZ_OK && !s.fopenOk
    ensures ExtractEntry(s).status == s.closeStatus
    ensures ExtractEntry(s).file.None?
  {
  }

  /**
    An error the transfer loop stops on survives the close: a negative read
    code is returned as it is, an incomplete write as UNZ_ERRNO.
  */
  lemma LoopErrorSurvivesClose(s: EntryScript)
    requires Ends(s.replies)
    requires Allocated(s) && s.openStatus == UNZ_OK && s.fopenOk
    ensures var stop := s.replies[RunTransfer(s.replies).readCalls - 1];
      && (stop.ReadFailed? ==> ExtractEntry(s).status == stop.code)
      && (stop.Data? ==> ExtractEntry(s).status == UNZ_ERRNO)
      && (stop.EndOfEntry? ==> ExtractEntry(s).status == s.closeStatus)
  {
  }

  /**
    When every reply up to the end of the entry is a completed chunk, the
    destination file holds the whole entry: the concatenation of every chunk
    before EndOfEntry.
  */
  lemma WholeEntryWritten(s: EntryScript, k: nat)
    requires Ends(s.replies)
    requires Allocated(s) && s.openStatus == UNZ_OK && s.fopenOk
    requires k < |s.replies| && s.replies[k].EndOfEntry?
    requires forall j :: 0 <= j < k ==> Continues(s.replies[j])
    ensures ExtractEntry(s).file == Some(Payload(s.replies[..k]))
    ensures ExtractEntry(s).status == s.closeStatus
  {
  }
}
