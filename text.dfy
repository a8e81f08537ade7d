/**
 * The string operations `to_number` is built from: Python's `str.strip()`,
 * single-character `str.replace`, the thousands-separator deletion
 * `_space_re.sub("", s)` and the lower-case test for missing-value words.
 */
module Strings {

  /** Python's `str.isspace()` for one character: what `str.strip()` removes. */
  predicate IsSpace(c: char)
  {
    c == ' ' || '\t' <= c <= '\r' || '\U{1C}' <= c <= '\U{1F}' || c == '\U{85}' || c == '\U{A0}'
    || c == '\U{1680}' || '\U{2000}' <= c <= '\U{200A}' || c == '\U{2028}' || c == '\U{2029}'
    || c == '\U{202F}' || c == '\U{205F}' || c == '\U{3000}'
  }

  /** The text without its leading white space (`str.lstrip()`). */
  function StripStart(s: string): (r: string)
    ensures |r| <= |s| && r == s[|s| - |r|..]
    ensures forall k :: 0 <= k < |s| - |r| ==> IsSpace(s[k])
    ensures r == [] || !IsSpace(r[0])
  {
    if s != [] && IsSpace(s[0]) then StripStart(s[1..]) else s
  }

  /** The text without its trailing white space (`str.rstrip()`). */
  function StripEnd(s: string): (r: string)
    ensures |r| <= |s| && r == s[..|r|]
    ensures forall k :: |r| <= k < |s| ==> IsSpace(s[k])
    ensures r == [] || !IsSpace(r[|r| - 1])
  {
    if s != [] && IsSpace(s[|s| - 1]) then StripEnd(s[..|s| - 1]) else s
  }

  /**
   * `r` is `s` with its first `a` characters and its last `|s| - a - |r|`
   * characters cut off, all of them white space.
   */
  predicate TrimmedAt(s: string, a: nat, r: string)
  {
    a + |r| <= |s| && r == s[a..a + |r|]
    && (forall k :: 0 <= k < a ==> IsSpace(s[k]))
    && (forall k :: a + |r| <= k < |s| ==> IsSpace(s[k]))
  }

  /**
   * `str.strip()`: the result is the input with white space removed at both
   * ends and nowhere else, so it neither starts nor ends with white space,
   * and a string that already does not is left as it is.
   */
  function Strip(s: string): (r: string)
    ensures exists a :: TrimmedAt(s, a, r)
    ensures r == [] || (!IsSpace(r[0]) && !IsSpace(r[|r| - 1]))
    ensures (s == [] || (!IsSpace(s[0]) && !IsSpace(s[|s| - 1]))) ==> r == s
  {
    var t := StripStart(s);
    var r := StripEnd(t);
    StripBothEnds(s, t, r);
    r
  }

  /** White space taken off the start and then off the end leaves a middle slice. */
  lemma StripBothEnds(s: string, t: string, r: string)
    requires |t| <= |s| && t == s[|s| - |t|..] && forall k :: 0 <= k < |s| - |t| ==> IsSpace(s[k])
    requires t == [] || !IsSpace(t[0])
    requires |r| <= |t| && r == t[..|r|] && forall k :: |r| <= k < |t| ==> IsSpace(t[k])
    requires r == [] || !IsSpace(r[|r| - 1])
    ensures TrimmedAt(s, |s| - |t|, r)
    ensures r == [] || (!IsSpace(r[0]) && !IsSpace(r[|r| - 1]))
    ensures (s == [] || (!IsSpace(s[0]) && !IsSpace(s[|s| - 1]))) ==> r == s
  {
    var a := |s| - |t|;
    assert s[a..][..|r|] == s[a..a + |r|];
    forall k | a + |r| <= k < |s| ensures IsSpace(s[k]) {
      assert s[k] == t[k - a];
    }
  }

  /** Stripping keeps only characters of the input. */
  lemma StripKeepsOut(s: string, c: char)
    requires c !in s
    ensures c !in Strip(s)
  {
    var a :| TrimmedAt(s, a, Strip(s));
  }

  /** `s.replace(old, new)` for single characters. */
  function Replace(s: string, from: char, to: char): (r: string)
    ensures |r| == |s|
  {
    seq(|s|, k requires 0 <= k < |s| => if s[k] == from then to else s[k])
  }

  lemma ReplaceConcat(a: string, b: string, from: char, to: char)
    ensures Replace(a + b, from, to) == Replace(a, from, to) + Replace(b, from, to)
  {
    assert forall k :: 0 <= k < |a + b| ==> (a + b)[k] == if k < |a| then a[k] else b[k - |a|];
  }

  lemma ReplaceAbsent(s: string, from: char, to: char)
    requires from !in s
    ensures Replace(s, from, to) == s
  {
  }

  /** The thousands separators: U+0020, U+00A0, U+2000 to U+200B, U+202F and U+205F. */
  predicate IsSeparator(c: char)
  {
    c == ' ' || c == '\U{A0}' || '\U{2000}' <= c <= '\U{200B}' || c == '\U{202F}' || c == '\U{205F}'
  }

  /**
   * `_space_re.sub("", s)`: every separator deleted, the rest kept in order.
   * A lone separator disappears; `RemoveSeparatorsConcat` and
   * `RemoveSeparatorsAbsent` extend this to any text.
   */
  function RemoveSeparators(s: string): (r: string)
    ensures |r| <= |s|
    ensures NoSeparators(r)
    ensures |s| == 1 && IsSeparator(s[0]) ==> r == []
  {
    if s == [] then [] else (if IsSeparator(s[0]) then [] else [s[0]]) + RemoveSeparators(s[1..])
  }

  lemma {:induction false} RemoveSeparatorsConcat(a: string, b: string)
    ensures RemoveSeparators(a + b) == RemoveSeparators(a) + RemoveSeparators(b)
  {
    if a == [] {
      assert a + b == b;
    } else {
      assert (a + b)[1..] == a[1..] + b;
      RemoveSeparatorsConcat(a[1..], b);
    }
  }

  /** Deleting separators introduces no character that was not there. */
  lemma {:induction false} RemoveSeparatorsKeepsChars(s: string, c: char)
    requires c !in s
    ensures c !in RemoveSeparators(s)
  {
    if s != [] {
      RemoveSeparatorsKeepsChars(s[1..], c);
    }
  }

  predicate NoSeparators(s: string)
  {
    forall k :: 0 <= k < |s| ==> !IsSeparator(s[k])
  }

  lemma {:induction false} RemoveSeparatorsAbsent(s: string)
    requires NoSeparators(s)
    ensures RemoveSeparators(s) == s
  {
    if s != [] {
      RemoveSeparatorsAbsent(s[1..]);
    }
  }

  /** Lower case for ASCII letters, the only ones `"nan"`, `"none"` and `"null"` contain. */
  function LowerAscii(c: char): char
  {
    if 'A' <= c <= 'Z' then (c as int + 32) as char else c
  }

  /**
   * `s.lower() in {"nan", "none", "null"}`. No character outside ASCII
   * lower-cases to one of the letters of these words, so comparing the
   * ASCII lower case is exact.
   */
  predicate IsMissingWord(s: string)
  {
    var t := seq(|s|, k requires 0 <= k < |s| => LowerAscii(s[k]));
    t == "nan" || t == "none" || t == "null"
  }

  lemma NotMissingWord(s: string)
    requires s != [] && LowerAscii(s[0]) != 'n'
    ensures !IsMissingWord(s)
  {
    var t := seq(|s|, k requires 0 <= k < |s| => LowerAscii(s[k]));
    assert t[0] != 'n';
  }
}
