/**
  The parts of the C library that console_ext.c leans on, with their ASCII
  ("C" locale) meaning: <ctype.h> classification, strstr, strlcpy and the
  reading of a NUL-terminated character buffer.
*/
module CString {

  const NUL: char := '\0'

  /** The characters of a C string, without its terminator. */
  type CStr = s: string | NUL !in s

  /** isspace in the C locale: space, \t, \n, \v, \f and \r. */
  predicate IsSpace(c: char) {
    c == ' ' || '\t' <= c <= '\r'
  }

  /** isblank in the C locale: space and \t. */
  predicate IsBlank(c: char) {
    c == ' ' || c == '\t'
  }

  predicate IsUpper(c: char) {
    'A' <= c <= 'Z'
  }

  /** tolower in the C locale: only 'A'..'Z' change. */
  function ToLower(c: char): (r: char)
    ensures !IsUpper(r)
    ensures IsUpper(c) ==> r as int == c as int + 32
    ensures !IsUpper(c) ==> r == c
    ensures IsSpace(r) <==> IsSpace(c)
  {
    if IsUpper(c) then (c as int + 32) as char else c
  }

  /** `needle` occurs in `hay` starting at index i. */
  predicate OccursAt(hay: string, needle: string, i: nat) {
    i + |needle| <= |hay| && hay[i..i + |needle|] == needle
  }

  /** strstr(hay, needle) != NULL: a case-sensitive substring test. */
  predicate Contains(hay: string, needle: string) {
    exists i: nat :: i <= |hay| && OccursAt(hay, needle, i)
  }

  /**
    The string strlcpy(dst, src, size) leaves in dst: at most size - 1
    characters of src, always terminated.
  */
  function Strlcpy(src: CStr, size: nat): (r: CStr)
    requires size > 0
    ensures |r| < size
    ensures r <= src
    ensures |r| == |src| || |r| == size - 1
  {
    if |src| < size then src else src[..size - 1]
  }

  /** The C string a buffer holds: its characters up to the first NUL. */
  function Read(buf: seq<char>): (r: CStr)
  {
    if |buf| == 0 || buf[0] == NUL then [] else [buf[0]] + Read(buf[1..])
  }

  /** A buffer whose prefix is s followed by NUL reads back as s. */
  lemma {:induction false} ReadTerminated(s: CStr, buf: seq<char>)
    requires |s| < |buf|
    requires buf[..|s|] == s && buf[|s|] == NUL
    ensures Read(buf) == s
  {
    if |s| > 0 {
      assert buf[0] == s[0];
      assert buf[1..][..|s| - 1] == s[1..];
      ReadTerminated(s[1..], buf[1..]);
    }
  }
}
