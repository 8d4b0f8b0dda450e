/** The few pieces of Go's `strings` and `unicode` packages the core relies
    on, over strings of Unicode scalar values (Go runes). */
module Strings {
  import opened Wrappers

  /** unicode.IsSpace: the characters with the Unicode White_Space property. */
  predicate IsSpace(c: char) {
    || c == ' '
    || ('\t' <= c <= '\r')
    || c as int == 0x85
    || c as int == 0xA0
    || c as int == 0x1680
    || (0x2000 <= c as int <= 0x200A)
    || c as int == 0x2028
    || c as int == 0x2029
    || c as int == 0x202F
    || c as int == 0x205F
    || c as int == 0x3000
  }

  /** Every character of `s` satisfies `p` (vacuously true of ""). */
  predicate All(s: string, p: char -> bool) {
    forall i :: 0 <= i < |s| ==> p(s[i])
  }

  /** Neither end of `s` satisfies `p`. */
  predicate TrimmedBy(s: string, p: char -> bool) {
    |s| == 0 || (!p(s[0]) && !p(s[|s| - 1]))
  }

  /** The length of the longest prefix of `s` whose characters satisfy `p`. */
  function LeadingCount(s: string, p: char -> bool): (n: nat)
    ensures n <= |s|
    ensures forall i :: 0 <= i < n ==> p(s[i])
    ensures n == |s| || !p(s[n])
  {
    if |s| == 0 || !p(s[0]) then 0
    else
      var t := s[1..];
      var m := LeadingCount(t, p);
      assert forall i :: 1 <= i < m + 1 ==> s[i] == t[i - 1];
      m + 1
  }

  /** The length of the longest suffix of `s` whose characters satisfy `p`. */
  function TrailingCount(s: string, p: char -> bool): (n: nat)
    ensures n <= |s|
    ensures forall i :: |s| - n <= i < |s| ==> p(s[i])
    ensures n == |s| || !p(s[|s| - n - 1])
  {
    if |s| == 0 || !p(s[|s| - 1]) then 0
    else
      var t := s[..|s| - 1];
      var m := TrailingCount(t, p);
      assert forall i :: |s| - m - 1 <= i < |s| - 1 ==> s[i] == t[i];
      m + 1
  }

  /** strings.TrimLeftFunc: drops the longest prefix whose characters satisfy `p`. */
  function TrimLeft(s: string, p: char -> bool): (r: string)
    ensures |r| <= |s| && r == s[|s| - |r|..]
    ensures forall i :: 0 <= i < |s| - |r| ==> p(s[i])
    ensures |r| == 0 || !p(r[0])
  {
    s[LeadingCount(s, p)..]
  }

  /** strings.TrimRightFunc: drops the longest suffix whose characters satisfy `p`. */
  function TrimRight(s: string, p: char -> bool): (r: string)
    ensures |r| <= |s| && r == s[..|r|]
    ensures forall i :: |r| <= i < |s| ==> p(s[i])
    ensures |r| == 0 || !p(r[|r| - 1])
  {
    s[..|s| - TrailingCount(s, p)]
  }

  /** strings.TrimFunc: both ends stripped of characters satisfying `p`. The
      result is the middle of `s`, untouched, and nothing else is removed. */
  function Trim(s: string, p: char -> bool): (r: string)
    ensures |r| <= |s|
    ensures TrimmedBy(r, p)
    ensures TrimmedBy(s, p) ==> r == s
    ensures r == [] <==> All(s, p)
  {
    var l := TrimLeft(s, p);
    var r := TrimRight(l, p);
    var k := |s| - |l|;
    assert |l| > 0 ==> l[0] == s[k];
    assert |r| > 0 ==> r[0] == l[0];
    r
  }

  /** strings.TrimSpace. */
  function TrimSpace(s: string): (r: string)
    ensures |r| <= |s|
    ensures TrimmedBy(r, IsSpace)
    ensures TrimmedBy(s, IsSpace) ==> r == s
    ensures r == [] <==> All(s, IsSpace)
  {
    Trim(s, IsSpace)
  }

  /** Padding made of characters satisfying `p` on either side of a text
      trimmed by `p` is exactly what Trim removes. */
  lemma TrimPadded(a: string, s: string, b: string, p: char -> bool)
    requires All(a, p) && All(b, p) && TrimmedBy(s, p)
    ensures Trim(a + s + b, p) == s
  {
    var x := a + s + b;
    if |s| == 0 {
      assert All(x, p) by {
        assert forall i :: 0 <= i < |x| ==> x[i] == (if i < |a| then a[i] else b[i - |a|]);
      }
    } else {
      var l := TrimLeft(x, p);
      assert x[|a|] == s[0];
      assert |x| - |l| == |a|;
      assert l == s + b;
      var r := TrimRight(l, p);
      assert l[|s| - 1] == s[|s| - 1];
      assert |r| == |s|;
      assert r == s;
    }
  }

  /** Padding made of spaces on either side of a trimmed string is exactly
      what TrimSpace removes. */
  lemma TrimSpacePadded(a: string, s: string, b: string)
    requires All(a, IsSpace) && All(b, IsSpace) && TrimmedBy(s, IsSpace)
    ensures TrimSpace(a + s + b) == s
  {
    TrimPadded(a, s, b, IsSpace);
  }

  /** Every text is its TrimSpace between two runs of white space. */
  lemma SpacePadding(s: string) returns (a: string, c: string)
    ensures All(a, IsSpace) && All(c, IsSpace) && s == a + TrimSpace(s) + c
  {
    var l := TrimLeft(s, IsSpace);
    a := LeftPadding(s);
    c := RightPadding(l);
    TrimSpaceSides(s);
    Regroup(s, a, l, TrimSpace(s), c);
  }

  /** `s == a + l` with `l == m + c` is `s == a + m + c`. */
  lemma Regroup(s: string, a: string, l: string, m: string, c: string)
    requires s == a + l && l == m + c
    ensures s == a + m + c
  {
  }

  /** What TrimLeft drops is white space in front of what it keeps. */
  lemma LeftPadding(s: string) returns (a: string)
    ensures All(a, IsSpace) && s == a + TrimLeft(s, IsSpace)
  {
    var l := TrimLeft(s, IsSpace);
    a := s[..|s| - |l|];
  }

  /** What TrimRight drops is white space behind what it keeps. */
  lemma RightPadding(s: string) returns (c: string)
    ensures All(c, IsSpace) && s == TrimRight(s, IsSpace) + c
  {
    var r := TrimRight(s, IsSpace);
    c := s[|r|..];
  }

  /** TrimSpace trims the left end, then the right end. */
  lemma TrimSpaceSides(s: string)
    ensures TrimSpace(s) == TrimRight(TrimLeft(s, IsSpace), IsSpace)
  {
  }

  /** After white space `ws`, the first character that is not white space
      is where the trimmed text starts. */
  lemma TrimSpaceFirst(ws: string, rest: string)
    requires All(ws, IsSpace) && |rest| > 0 && !IsSpace(rest[0])
    ensures |TrimSpace(ws + rest)| > 0 && TrimSpace(ws + rest)[0] == rest[0]
  {
    var s := ws + rest;
    var l := TrimLeft(s, IsSpace);
    var k := |s| - |l|;
    assert s[|ws|] == rest[0];
    assert k <= |ws|;
    assert !IsSpace(s[k]) by {
      assert l[0] == s[k];
    }
    assert forall i :: 0 <= i < |ws| ==> s[i] == ws[i];
    assert k == |ws|;
    assert l[0] == rest[0];
  }

  /** Every character of TrimSpace(s) occurs in `s`. */
  lemma TrimSpaceChars(s: string)
    ensures forall x :: x in TrimSpace(s) ==> x in s
  {
    var l := TrimLeft(s, IsSpace);
    var r := TrimSpace(s);
    assert forall i :: 0 <= i < |l| ==> l[i] == s[|s| - |l| + i];
    assert forall i :: 0 <= i < |r| ==> r[i] == l[i];
  }

  /** strings.IndexByte / strings.IndexRune: the first position of `c`. */
  function IndexOf(s: string, c: char): (r: Option<nat>)
    ensures r.Some? ==> r.value < |s| && s[r.value] == c && c !in s[..r.value]
    ensures r.None? <==> c !in s
  {
    if |s| == 0 then None
    else if s[0] == c then Some(0)
    else
      match IndexOf(s[1..], c)
      case None => None
      case Some(i) =>
        assert s[..i + 1] == [s[0]] + s[1..][..i];
        Some(i + 1)
  }

  lemma {:induction false} IndexOfAfterPrefix(a: string, c: char, b: string)
    requires c !in a
    ensures IndexOf(a + [c] + b, c) == Some(|a|)
    decreases |a|
  {
    if |a| == 0 {
      assert a + [c] + b == [c] + b;
    } else {
      assert (a + [c] + b)[1..] == a[1..] + [c] + b;
      IndexOfAfterPrefix(a[1..], c, b);
    }
  }

  /** `s` contains the two-character string [a, b]. */
  predicate HasPair(s: string, a: char, b: char) {
    exists i :: 0 <= i < |s| - 1 && s[i] == a && s[i + 1] == b
  }

  /** A pair inside a suffix or a prefix is a pair of the whole. */
  lemma HasPairInfix(s: string, k: nat, a: char, b: char)
    requires k <= |s|
    ensures HasPair(s[k..], a, b) ==> HasPair(s, a, b)
    ensures HasPair(s[..k], a, b) ==> HasPair(s, a, b)
  {
    if HasPair(s[k..], a, b) {
      var i :| 0 <= i < |s[k..]| - 1 && s[k..][i] == a && s[k..][i + 1] == b;
      assert s[k + i] == a && s[k + i + 1] == b;
    }
    if HasPair(s[..k], a, b) {
      var i :| 0 <= i < |s[..k]| - 1 && s[..k][i] == a && s[..k][i + 1] == b;
      assert s[i] == a && s[i + 1] == b;
    }
  }

  /** strings.LastIndex(s, [a, b]): the last position where [a, b] starts. */
  function LastIndexOfPair(s: string, a: char, b: char): (r: Option<nat>)
    ensures r.Some? ==> r.value < |s| - 1 && s[r.value] == a && s[r.value + 1] == b
    ensures r.Some? ==> !HasPair(s[r.value + 1..], a, b)
    ensures r.None? <==> !HasPair(s, a, b)
  {
    if |s| < 2 then None
    else if s[|s| - 2] == a && s[|s| - 1] == b then Some(|s| - 2)
    else
      var init := s[..|s| - 1];
      var r := LastIndexOfPair(init, a, b);
      HasPairSnoc(s, a, b);
      if r.Some? then
        var k := r.value + 1;
        SuffixInit(s, k);
        HasPairSnoc(s[k..], a, b);
        r
      else r
  }

  /** Dropping the last character commutes with dropping a prefix. */
  lemma SuffixInit(s: string, k: nat)
    requires k < |s|
    ensures s[k..][..|s[k..]| - 1] == s[..|s| - 1][k..]
  {
  }

  /** A text between two quote characters has nothing for TrimSpace to remove. */
  lemma TrimSpaceQuoted(q: char, w: string)
    requires IsQuote(q)
    ensures TrimSpace([q] + w + [q]) == [q] + w + [q]
  {
    var s := [q] + w + [q];
    assert s[0] == q && s[|s| - 1] == q;
  }

  /** A pair in `s` is a pair in all but its last character, or the last two. */
  lemma HasPairSnoc(s: string, a: char, b: char)
    requires |s| >= 1
    ensures HasPair(s, a, b) <==>
      HasPair(s[..|s| - 1], a, b) || (|s| >= 2 && s[|s| - 2] == a && s[|s| - 1] == b)
  {
    var init := s[..|s| - 1];
    if HasPair(s, a, b) {
      var i :| 0 <= i < |s| - 1 && s[i] == a && s[i + 1] == b;
      if i < |s| - 2 {
        assert init[i] == a && init[i + 1] == b;
      }
    }
    if HasPair(init, a, b) {
      var i :| 0 <= i < |init| - 1 && init[i] == a && init[i + 1] == b;
      assert s[i] == a && s[i + 1] == b;
    }
  }

  predicate IsQuote(c: char) {
    c == '"' || c == '\''
  }

  /** strings.HasPrefix. */
  predicate HasPrefix(s: string, p: string) {
    |p| <= |s| && s[..|p|] == p
  }

  /** ASCII lower-casing of one character. */
  function ToLowerChar(c: char): char {
    if 'A' <= c <= 'Z' then (c as int + 32) as char else c
  }

  /** strings.ToLower restricted to ASCII letters; no other rune lowers to
      an ASCII letter of "true" or "false", the only texts it is compared with. */
  function ToLower(s: string): (r: string)
    ensures |r| == |s|
    ensures forall i :: 0 <= i < |s| ==> r[i] == ToLowerChar(s[i])
  {
    if |s| == 0 then [] else [ToLowerChar(s[0])] + ToLower(s[1..])
  }
}
