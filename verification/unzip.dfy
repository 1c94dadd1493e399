/**
  The vocabulary shared by the archive extractor: the minizip status codes it
  uses and the scripted answers that stand in for minizip and the C file
  functions. Every call the code makes into those libraries is answered from
  a script, so the extractor's control flow can be stated as pure functions.
*/
module Unzip {

  newtype byte = x: int | 0 <= x < 256

  /** minizip status codes (unzip.h). */
  const UNZ_OK: int := 0
  const UNZ_ERRNO: int := -1
  const UNZ_INTERNALERROR: int := -104

  /** The bytes of one positive unzReadCurrentFile result. */
  type Chunk = s: seq<byte> | |s| > 0 witness [0]

  /** A negative unzReadCurrentFile result. */
  type ReadErrorCode = c: int | c < 0 witness -1

  /**
    The answer to one unzReadCurrentFile call. A positive read also carries
    whether the fwrite of that chunk completed.
  */
  datatype ReadReply =
    | Data(bytes: Chunk, written: bool)
    | EndOfEntry
    | ReadFailed(code: ReadErrorCode)

  /** The int unzReadCurrentFile returns for the reply. */
  function ReadCode(reply: ReadReply): (n: int)
    ensures n > 0 <==> reply.Data?
    ensures n < 0 <==> reply.ReadFailed?
  {
    match reply
    case Data(bytes, _) => |bytes|
    case EndOfEntry => UNZ_OK
    case ReadFailed(code) => code
  }

  /** The library eventually reports the end of the entry or an error. */
  predicate Ends(replies: seq<ReadReply>) {
    |replies| > 0 && (replies[0].Data? ==> Ends(replies[1..]))
  }

  /** The concatenation, in order, of the bytes of the positive reads. */
  function Payload(replies: seq<ReadReply>): seq<byte> {
    if |replies| == 0 then []
    else (if replies[0].Data? then replies[0].bytes else []) + Payload(replies[1..])
  }

  lemma {:induction false} PayloadAppend(xs: seq<ReadReply>, ys: seq<ReadReply>)
    ensures Payload(xs + ys) == Payload(xs) + Payload(ys)
  {
    if |xs| > 0 {
      assert (xs + ys)[1..] == xs[1..] + ys;
      PayloadAppend(xs[1..], ys);
    } else {
      assert xs + ys == ys;
    }
  }

  /**
    The answers for one archive entry: unzGetCurrentFileInfo, malloc of the
    transfer buffer, unzOpenCurrentFile, fopen of the destination, the reads
    (with their writes) and unzCloseCurrentFile.
  */
  datatype EntryScript = EntryScript(
    infoStatus: int,
    allocOk: bool,
    openStatus: int,
    fopenOk: bool,
    replies: seq<ReadReply>,
    closeStatus: int)

  /** The calls the extractor makes, in the order it makes them. */
  datatype Call =
    | GetFileInfo
    | Malloc
    | OpenCurrentFile
    | FOpen
    | ReadChunks(count: nat)   // that many unzReadCurrentFile calls, each positive one followed by fwrite
    | FClose
    | CloseCurrentFile
    | Free
}
