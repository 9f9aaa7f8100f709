/** The three JavaScript string operations the catalog search relies on:
    `toLowerCase` (ASCII letters only), `trim` and `includes`. */
module Strings {

  /** ECMAScript WhiteSpace and LineTerminator code points: the characters
      `String.prototype.trim` removes (TAB, VT, FF, SPACE, NBSP, ZWNBSP, the
      other space separators, LF, CR, LS and PS). */
  const WhiteSpace: set<char> := {
    '\t', '\n', '\U{000B}', '\U{000C}', '\r', ' ', '\U{00A0}', '\U{1680}',
    '\U{2000}', '\U{2001}', '\U{2002}', '\U{2003}', '\U{2004}', '\U{2005}',
    '\U{2006}', '\U{2007}', '\U{2008}', '\U{2009}', '\U{200A}',
    '\U{2028}', '\U{2029}', '\U{202F}', '\U{205F}', '\U{3000}', '\U{FEFF}'
  }

  predicate IsSpace(c: char) {
    c in WhiteSpace
  }

  predicate AllSpace(s: string) {
    forall i :: 0 <= i < |s| ==> IsSpace(s[i])
  }

  /** Lower-cases one character; only the ASCII letters A-Z are mapped. */
  function LowerChar(c: char): (r: char)
    ensures 'A' <= c <= 'Z' ==> 'a' <= r <= 'z' && r as int == c as int + 32
    ensures !('A' <= c <= 'Z') ==> r == c
    ensures !('A' <= r <= 'Z')
  {
    if 'A' <= c <= 'Z' then (c as int + 32) as char else c
  }

  /** `s.toLowerCase()`: same length, no upper-case ASCII letter left and
      every other character kept. */
  function Lower(s: string): (r: string)
    ensures |r| == |s|
    ensures forall i :: 0 <= i < |s| ==> !('A' <= r[i] <= 'Z')
    ensures forall i :: 0 <= i < |s| && !('A' <= s[i] <= 'Z') ==> r[i] == s[i]
    ensures forall i :: 0 <= i < |s| && 'A' <= s[i] <= 'Z' ==> r[i] as int == s[i] as int + 32
  {
    seq(|s|, i requires 0 <= i < |s| => LowerChar(s[i]))
  }

  /** Lower-casing twice is lower-casing once. */
  lemma LowerIdempotent(s: string)
    ensures Lower(Lower(s)) == Lower(s)
  {
  }

  /** A string and the one with some of its capitals A-Z replaced by the
      matching letters a-z lower-case to the same string. */
  lemma LowerIgnoresCase(s: string, t: string)
    requires |s| == |t|
    requires forall i :: 0 <= i < |s| ==>
               s[i] == t[i] || ('A' <= s[i] <= 'Z' && t[i] as int == s[i] as int + 32)
    ensures Lower(s) == Lower(t)
  {
  }

  /** The first index at or after `i` that does not hold white space
      (`|s|` if there is none). */
  function SkipSpaces(s: string, i: nat): (k: nat)
    requires i <= |s|
    ensures i <= k <= |s|
    ensures forall j :: i <= j < k ==> IsSpace(s[j])
    ensures k < |s| ==> !IsSpace(s[k])
    decreases |s| - i
  {
    if i < |s| && IsSpace(s[i]) then SkipSpaces(s, i + 1) else i
  }

  /** The smallest index `k <= j` such that `s[k..j]` is all white space. */
  function SkipSpacesBack(s: string, j: nat): (k: nat)
    requires j <= |s|
    ensures k <= j
    ensures forall i :: k <= i < j ==> IsSpace(s[i])
    ensures k > 0 ==> !IsSpace(s[k - 1])
    decreases j
  {
    if j > 0 && IsSpace(s[j - 1]) then SkipSpacesBack(s, j - 1) else j
  }

  /** `r` sits in `s` at index `lead` with only white space around it. */
  predicate Surrounds(s: string, lead: int, r: string) {
    && 0 <= lead <= |s| - |r|
    && s[lead..lead + |r|] == r
    && (forall i :: 0 <= i < lead ==> IsSpace(s[i]))
    && (forall i :: lead + |r| <= i < |s| ==> IsSpace(s[i]))
  }

  /** `s.trim()`: never longer than `s`, and neither starting nor ending
      with white space. */
  function Trim(s: string): (r: string)
    ensures |r| <= |s|
    ensures r == [] || (!IsSpace(r[0]) && !IsSpace(r[|r| - 1]))
  {
    var lo := SkipSpaces(s, 0);
    if lo == |s| then []
    else
      var hi := SkipSpacesBack(s, |s|);
      SpacesApart(s, lo, hi);
      s[lo..hi]
  }

  /** Where the trimmed text starts and ends when `s` is not all white
      space. */
  lemma TrimBounds(s: string)
    requires SkipSpaces(s, 0) < |s|
    ensures SkipSpaces(s, 0) < SkipSpacesBack(s, |s|)
    ensures Trim(s) == s[SkipSpaces(s, 0)..SkipSpacesBack(s, |s|)]
  {
    SpacesApart(s, SkipSpaces(s, 0), SkipSpacesBack(s, |s|));
  }

  /** A non-space character at `lo` is not inside an all-space tail
      `s[hi..]`. */
  lemma SpacesApart(s: string, lo: nat, hi: nat)
    requires lo < |s| && !IsSpace(s[lo]) && hi <= |s|
    requires forall i :: hi <= i < |s| ==> IsSpace(s[i])
    ensures lo < hi
  {
  }

  /** `Trim(s)` is the unique slice of `s` that neither starts nor ends with
      white space and has only white space around it; it is empty exactly
      when `s` is all white space. */
  lemma TrimSpec(s: string)
    ensures Trim(s) == [] <==> AllSpace(s)
    ensures Trim(s) == [] || (!IsSpace(Trim(s)[0]) && !IsSpace(Trim(s)[|Trim(s)| - 1]))
    ensures exists lead :: Surrounds(s, lead, Trim(s))
  {
    var lo := SkipSpaces(s, 0);
    if lo == |s| {
      assert Surrounds(s, lo, []);
    } else {
      TrimBounds(s);
      var hi := SkipSpacesBack(s, |s|);
      var r := s[lo..hi];
      assert r[0] == s[lo] && r[|r| - 1] == s[hi - 1];
      assert Surrounds(s, lo, r);
    }
  }

  /** `needle` appears in `hay` starting at index `i`. */
  predicate OccursAt(hay: string, needle: string, i: int) {
    0 <= i && i + |needle| <= |hay| && hay[i..i + |needle|] == needle
  }

  /** `hay.includes(needle)`. */
  function Contains(hay: string, needle: string): (r: bool)
    ensures needle == [] ==> r
    ensures r ==> |needle| <= |hay|
    decreases |hay|
  {
    if |needle| > |hay| then false
    else if hay[..|needle|] == needle then true
    else Contains(hay[1..], needle)
  }

  /** `Contains` is substring search: true exactly when some occurrence exists. */
  lemma {:induction false} ContainsIff(hay: string, needle: string)
    ensures Contains(hay, needle) <==> exists i :: OccursAt(hay, needle, i)
    decreases |hay|
  {
    if |needle| > |hay| {
    } else if hay[..|needle|] == needle {
      assert OccursAt(hay, needle, 0);
    } else {
      ContainsIff(hay[1..], needle);
      if Contains(hay[1..], needle) {
        var i :| OccursAt(hay[1..], needle, i);
        assert hay[1..][i..i + |needle|] == hay[i + 1..i + 1 + |needle|];
        assert OccursAt(hay, needle, i + 1);
      } else {
        forall i | OccursAt(hay, needle, i)
          ensures false
        {
          assert i != 0;
          assert hay[1..][i - 1..i - 1 + |needle|] == hay[i..i + |needle|];
          assert OccursAt(hay[1..], needle, i - 1);
        }
      }
    }
  }

  lemma LowerSpace(c: char)
    ensures IsSpace(LowerChar(c)) == IsSpace(c)
  {
  }

  /** Lower-casing keeps every character's white-space status. */
  lemma LowerKeepsSpaces(s: string)
    ensures |Lower(s)| == |s|
    ensures forall i :: 0 <= i < |s| ==> IsSpace(Lower(s)[i]) == IsSpace(s[i])
  {
    forall i | 0 <= i < |s|
      ensures IsSpace(Lower(s)[i]) == IsSpace(s[i])
    {
      LowerSpace(s[i]);
    }
  }

  /** Strings with white space at the same places skip to the same index. */
  lemma {:induction false} SkipSame(s: string, t: string, i: nat)
    requires |s| == |t| && i <= |s|
    requires forall j :: 0 <= j < |s| ==> IsSpace(s[j]) == IsSpace(t[j])
    ensures SkipSpaces(s, i) == SkipSpaces(t, i)
    decreases |s| - i
  {
    if i < |s| && IsSpace(s[i]) {
      SkipSame(s, t, i + 1);
    }
  }

  lemma {:induction false} SkipBackSame(s: string, t: string, j: nat)
    requires |s| == |t| && j <= |s|
    requires forall i :: 0 <= i < |s| ==> IsSpace(s[i]) == IsSpace(t[i])
    ensures SkipSpacesBack(s, j) == SkipSpacesBack(t, j)
    decreases j
  {
    if j > 0 && IsSpace(s[j - 1]) {
      SkipBackSame(s, t, j - 1);
    }
  }

  /** Lower-casing and trimming commute, so `term.toLowerCase().trim()` is
      the lower-cased trimmed term. */
  lemma LowerTrimCommute(s: string)
    ensures Trim(Lower(s)) == Lower(Trim(s))
  {
    var l := Lower(s);
    LowerKeepsSpaces(s);
    SkipSame(s, l, 0);
    SkipBackSame(s, l, |s|);
    var lo, hi := SkipSpaces(s, 0), SkipSpacesBack(s, |s|);
    if lo < |s| {
      TrimBounds(s);
      TrimBounds(l);
      LowerSlice(s, lo, hi);
    }
  }

  lemma LowerSlice(s: string, lo: int, hi: int)
    requires 0 <= lo <= hi <= |s|
    ensures Lower(s)[lo..hi] == Lower(s[lo..hi])
  {
  }
}
