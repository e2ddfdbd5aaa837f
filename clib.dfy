/**
 * The parts of the C library that the decoder relies on, stated on the
 * contents of NUL-terminated strings (a `string` here holds the characters
 * before the terminator, one char per C `char`).
 */
module CLib {

  import opened Wrappers

  /** `tolower` in the "C" locale: only 'A'..'Z' change. */
  function ToLower(c: char): (r: char)
    ensures 'A' <= c <= 'Z' ==> r as int == c as int + 32
    ensures !('A' <= c <= 'Z') ==> r == c
  {
    if 'A' <= c <= 'Z' then (c as int + 32) as char else c
  }

  /** `strcasecmp(a, b) == 0`: equal lengths and equal characters after `tolower`. */
  predicate StrCaseEq(a: string, b: string)
  {
    |a| == |b| && forall i :: 0 <= i < |a| ==> ToLower(a[i]) == ToLower(b[i])
  }

  lemma StrCaseEqReflexive(a: string)
    ensures StrCaseEq(a, a)
  {
  }

  lemma StrCaseEqSymmetric(a: string, b: string)
    ensures StrCaseEq(a, b) <==> StrCaseEq(b, a)
  {
  }

  lemma StrCaseEqTransitive(a: string, b: string, c: string)
    requires StrCaseEq(a, b) && StrCaseEq(b, c)
    ensures StrCaseEq(a, c)
  {
  }

  /** `isspace` in the "C" locale. */
  predicate IsSpace(c: char)
  {
    c == ' ' || c == '\t' || c == '\n' || c == '\r' || c as int == 0x0B || c as int == 0x0C
  }

  /** `needle` occurs in `s` at position `i`. */
  predicate OccursAt(s: string, needle: string, i: int)
  {
    0 <= i && i + |needle| <= |s| && s[i..i + |needle|] == needle
  }

  /**
   * `strstr(s, needle)`: the position of the first occurrence of `needle`
   * in `s`, or None (a NULL result) when there is none.
   */
  function StrStr(s: string, needle: string): (r: Option<nat>)
    ensures r.Some? ==> OccursAt(s, needle, r.value)
    ensures r.Some? ==> forall j :: 0 <= j < r.value ==> !OccursAt(s, needle, j)
    ensures r.None? ==> forall j :: 0 <= j <= |s| ==> !OccursAt(s, needle, j)
  {
    StrStrFrom(s, needle, 0)
  }

  function StrStrFrom(s: string, needle: string, from: nat): (r: Option<nat>)
    requires from <= |s| + 1
    requires forall j :: 0 <= j < from ==> !OccursAt(s, needle, j)
    ensures r.Some? ==> from <= r.value && OccursAt(s, needle, r.value)
    ensures r.Some? ==> forall j :: 0 <= j < r.value ==> !OccursAt(s, needle, j)
    ensures r.None? ==> forall j :: 0 <= j <= |s| ==> !OccursAt(s, needle, j)
    decreases |s| + 1 - from
  {
    if from + |needle| > |s| then None
    else if s[from..from + |needle|] == needle then Some(from)
    else StrStrFrom(s, needle, from + 1)
  }
}
