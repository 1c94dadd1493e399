/**
  ssnes_console_name_from_id (console/console_ext.c lines 72-94): derive a
  file-name friendly name from the core identifier by turning whitespace into
  '_' and lowering letters, into a caller buffer of `size` characters.
*/
module ConsoleName {
  import opened Wrappers
  import opened CString

  /** The character written for one character of the identifier. */
  function NameChar(c: char): char {
    if IsSpace(c) || IsBlank(c) then '_' else ToLower(c)
  }

  /** A name in normal form: no whitespace and no upper-case letter. */
  predicate Clean(s: string) {
    forall i :: 0 <= i < |s| ==> !IsSpace(s[i]) && !IsBlank(s[i]) && !IsUpper(s[i])
  }

  /** The identifier with NameChar applied at every position. */
  function Normalise(id: CStr): (r: CStr)
    ensures |r| == |id|
    ensures forall i :: 0 <= i < |id| ==> r[i] == NameChar(id[i])
    ensures Clean(r)
  {
    if |id| == 0 then [] else [NameChar(id[0])] + Normalise(id[1..])
  }

  /** How many leading characters of the buffer the call may overwrite. */
  function Extent(id: Option<CStr>, size: nat): nat {
    if size == 0 then 0
    else if id.None? || |id.value| >= size then 1
    else |id.value| + 1
  }

  /**
    The buffer after ssnes_console_name_from_id(name, size), where id is what
    snes_library_id() returns (None for NULL) and `name` the caller's buffer,
    of which the first `size` characters are writable.
  */
  function NameFromId(id: Option<CStr>, size: nat, name: seq<char>): (r: seq<char>)
    requires size <= |name|
    ensures |r| == |name|
    ensures forall i :: Extent(id, size) <= i < |name| ==> r[i] == name[i]
    ensures size == 0 ==> r == name
    ensures size > 0 && (id.None? || |id.value| >= size) ==> r[0] == NUL
    ensures size > 0 && id.Some? && |id.value| < size ==>
      && r[|id.value|] == NUL
      && forall i :: 0 <= i < |id.value| ==>
           r[i] == (if IsSpace(id.value[i]) || IsBlank(id.value[i]) then '_' else ToLower(id.value[i]))
  {
    if size == 0 then name
    else if id.None? || |id.value| >= size then name[0 := NUL]
    else Normalise(id.value) + [NUL] + name[|id.value| + 1..]
  }

  /**
    Read as a C string, the buffer holds the normalised identifier when it
    fits (strictly fewer characters than size), and the empty string when the
    identifier is NULL or too long.
  */
  lemma NameReadsBack(id: Option<CStr>, size: nat, name: seq<char>)
    requires 0 < size <= |name|
    ensures Read(NameFromId(id, size, name)) ==
      if id.Some? && |id.value| < size then Normalise(id.value) else []
  {
    var r := NameFromId(id, size, name);
    if id.Some? && |id.value| < size {
      assert r[..|id.value|] == Normalise(id.value);
      ReadTerminated(Normalise(id.value), r);
    } else {
      ReadTerminated([], r);
    }
  }

  /**
    Whatever the identifier, the resulting name is clean, shorter than the
    buffer, and as long as the identifier when it was accepted.
  */
  lemma NameIsClean(id: Option<CStr>, size: nat, name: seq<char>)
    requires 0 < size <= |name|
    ensures Clean(Read(NameFromId(id, size, name)))
    ensures |Read(NameFromId(id, size, name))| < size
    ensures id.Some? && |id.value| < size ==> |Read(NameFromId(id, size, name))| == |id.value|
  {
    NameReadsBack(id, size, name);
  }

  /** Normalising a name that is already normal changes nothing. */
  lemma {:induction false} NormaliseIdempotent(id: CStr)
    ensures Normalise(Normalise(id)) == Normalise(id)
  {
    if |id| > 0 {
      NormaliseIdempotent(id[1..]);
      assert Normalise(id)[1..] == Normalise(id[1..]);
    }
  }

  /** Applying the call to an id it produced reproduces the same buffer. */
  lemma NameFromIdStable(id: CStr, size: nat, name: seq<char>)
    requires |id| < size <= |name|
    ensures NameFromId(Some(Normalise(id)), size, name) == NameFromId(Some(id), size, name)
  {
    NormaliseIdempotent(id);
  }
}
