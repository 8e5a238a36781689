/**
  The Python string operations around the utilities: `str.lower()`, which
  `color_string` applies to its colour, and the substring test `needle in hay`,
  with which the unit tests inspect the exception messages. Characters are
  Dafny `char`s (Unicode scalar values); lower-casing is modelled on the ASCII
  letters.
 */
module PyStr {

  predicate IsUpperAscii(c: char) { 'A' <= c <= 'Z' }

  predicate IsLowerAscii(c: char) { 'a' <= c <= 'z' }

  /** The lower-case form of one character: ASCII capitals move down by 32. */
  function LowerChar(c: char): (d: char)
    ensures IsUpperAscii(c) ==> IsLowerAscii(d) && d as int == c as int + 32
    ensures !IsUpperAscii(c) ==> d == c
    ensures !IsUpperAscii(d)
  {
    if IsUpperAscii(c) then (c as int + 32) as char else c
  }

  /** The upper-case form of one ASCII lower-case letter. */
  function UpperChar(c: char): (d: char)
    requires IsLowerAscii(c)
    ensures IsUpperAscii(d) && LowerChar(d) == c
  {
    (c as int - 32) as char
  }

  /** `s.lower()`: every character lower-cased, nothing added or dropped. */
  function Lower(s: string): (r: string)
    ensures |r| == |s|
    ensures forall i :: 0 <= i < |s| ==> r[i] == LowerChar(s[i])
  {
    if s == [] then [] else [LowerChar(s[0])] + Lower(s[1..])
  }

  /** A string made only of lower-case ASCII letters. */
  predicate AllLowerAscii(k: string) {
    forall i :: 0 <= i < |k| ==> IsLowerAscii(k[i])
  }

  /** Lower-casing twice is lower-casing once. */
  lemma LowerIdempotent(s: string)
    ensures Lower(Lower(s)) == Lower(s)
  {
    var l := Lower(s);
    assert forall i :: 0 <= i < |l| ==> Lower(l)[i] == l[i];
  }

  /**
    The spellings of a lower-case word `k` that lower-case back to `k` are
    exactly those written with each letter in either case.
   */
  lemma LowerMatches(s: string, k: string)
    requires AllLowerAscii(k)
    ensures Lower(s) == k <==>
              |s| == |k| && forall i :: 0 <= i < |k| ==> s[i] == k[i] || s[i] == UpperChar(k[i])
  {
    if Lower(s) == k {
      forall i | 0 <= i < |k| ensures s[i] == k[i] || s[i] == UpperChar(k[i]) {
        assert LowerChar(s[i]) == k[i];
        if IsUpperAscii(s[i]) {
          assert s[i] as int == k[i] as int - 32;
        }
      }
    }
    if |s| == |k| && forall i :: 0 <= i < |k| ==> s[i] == k[i] || s[i] == UpperChar(k[i]) {
      forall i | 0 <= i < |k| ensures Lower(s)[i] == k[i] {
        assert LowerChar(s[i]) == k[i];
      }
    }
  }

  /** Python's `needle in hay` for strings: `needle` occurs somewhere in `hay`. */
  predicate Contains(hay: string, needle: string)
    ensures Contains(hay, needle) ==> |needle| <= |hay|
    ensures needle == [] ==> Contains(hay, needle)
  {
    assert OccursAt(hay, [], 0);
    exists k :: 0 <= k <= |hay| - |needle| && OccursAt(hay, needle, k)
  }

  /** `needle` occurs in `hay` starting at index `k`. */
  predicate OccursAt(hay: string, needle: string, k: int) {
    0 <= k <= |hay| - |needle| && hay[k..k + |needle|] == needle
  }

  /** A string contains whatever it is built around. */
  lemma ContainsMiddle(a: string, b: string, c: string)
    ensures Contains(a + b + c, b)
  {
    var hay := a + b + c;
    assert OccursAt(hay, b, |a|);
  }
}
