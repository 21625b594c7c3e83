/** NUL-terminated strings and the fixed 256-character string fields of the
    `file_info_t` record that `get_file_info` fills in. */
module CStrings {

  /** Width of the `filename` and `comment` fields of `file_info_t`. */
  const FIELD_SIZE: nat := 256

  /** `strlen`: the number of characters before the first NUL, or the whole
      length when there is none. */
  function CStrLen(s: seq<char>): (n: nat)
    ensures n <= |s|
    ensures forall j :: 0 <= j < n ==> s[j] != '\0'
    ensures n < |s| ==> s[n] == '\0'
  {
    if s == [] || s[0] == '\0' then 0 else 1 + CStrLen(s[1..])
  }

  /** The string a NUL-terminated buffer holds: everything before its first NUL. */
  function ReadCString(buf: seq<char>): (r: seq<char>)
    ensures '\0' !in r
    ensures r <= buf
  {
    buf[..CStrLen(buf)]
  }

  /** How many characters of `s` fit in a field: `strlen(s)`, cut to 255 so
      that the terminator still fits. */
  function CopyLen(s: seq<char>): (n: nat)
    ensures n <= |s| && n < FIELD_SIZE
    ensures n == CStrLen(s) || (n == FIELD_SIZE - 1 && CStrLen(s) >= FIELD_SIZE)
  {
    if CStrLen(s) >= FIELD_SIZE then FIELD_SIZE - 1 else CStrLen(s)
  }

  /** The field `field` after the copy of `s` into it: the first `CopyLen(s)`
      characters of `s`, a NUL, and the field's old characters after that. */
  function PutCString(field: seq<char>, s: seq<char>): (r: seq<char>)
    requires |field| == FIELD_SIZE
  {
    var n := CopyLen(s);
    s[..n] + ['\0'] + field[n + 1..]
  }

  /** A prefix without NUL followed by a NUL has exactly that prefix's length. */
  lemma {:induction false} CStrLenTerminated(p: seq<char>, rest: seq<char>)
    requires '\0' !in p
    ensures CStrLen(p + ['\0'] + rest) == |p|
  {
    if p != [] {
      assert (p + ['\0'] + rest)[1..] == p[1..] + ['\0'] + rest;
      CStrLenTerminated(p[1..], rest);
    }
  }

  /** Writing `s` into a field keeps the field's width, puts the terminator at
      index `CopyLen(s)` (never past index 255), leaves every later character
      alone, and reading the field back yields `s` cut to `CopyLen(s)`. */
  lemma PutCStringReadsBack(field: seq<char>, s: seq<char>)
    requires |field| == FIELD_SIZE
    ensures |PutCString(field, s)| == FIELD_SIZE
    ensures PutCString(field, s)[CopyLen(s)] == '\0'
    ensures PutCString(field, s)[CopyLen(s) + 1..] == field[CopyLen(s) + 1..]
    ensures ReadCString(PutCString(field, s)) == s[..CopyLen(s)]
  {
    var n := CopyLen(s);
    assert '\0' !in s[..n] by {
      forall j | 0 <= j < n ensures s[..n][j] != '\0' { }
    }
    CStrLenTerminated(s[..n], field[n + 1..]);
  }

  /** A NUL-free string shorter than the field survives the copy unchanged. */
  lemma ShortStringRoundTrips(field: seq<char>, s: seq<char>)
    requires |field| == FIELD_SIZE
    requires '\0' !in s && |s| < FIELD_SIZE
    ensures ReadCString(PutCString(field, s)) == s
  {
    PutCStringReadsBack(field, s);
  }

  /** A string of 256 characters or more is cut to its first 255. */
  lemma LongStringTruncated(field: seq<char>, s: seq<char>)
    requires |field| == FIELD_SIZE
    requires CStrLen(s) >= FIELD_SIZE
    ensures ReadCString(PutCString(field, s)) == s[..FIELD_SIZE - 1]
  {
    PutCStringReadsBack(field, s);
  }

  /** The `strlen` scan. */
  method StrLen(s: seq<char>) returns (n: nat)
    ensures n == CStrLen(s)
  {
    n := 0;
    while n < |s| && s[n] != '\0'
      invariant n <= |s|
      invariant forall j :: 0 <= j < n ==> s[j] != '\0'
    {
      n := n + 1;
    }
  }

  /** The length computation, `memcpy` and terminator store that copy one
      string into one field of `file_info_t`. */
  method StoreCString(field: array<char>, s: seq<char>)
    requires field.Length == FIELD_SIZE
    modifies field
    ensures field[..] == PutCString(old(field[..]), s)
  {
    var n := StrLen(s);
    if n >= FIELD_SIZE {
      n := FIELD_SIZE - 1;
    }
    for j := 0 to n
      invariant field[..j] == s[..j]
      invariant forall k :: j <= k < FIELD_SIZE ==> field[k] == old(field[k])
    {
      field[j] := s[j];
    }
    field[n] := '\0';
    assert field[..] == s[..n] + ['\0'] + old(field[..])[n + 1..];
  }
}
