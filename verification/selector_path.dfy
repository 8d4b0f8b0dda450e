/** ParsePath from selector/helpers.go: a dotted path expression split into
    segment tokens, where a '.' inside `[...]` does not split. */
module SelectorPath {

  predicate NoBrackets(s: string) {
    '[' !in s && ']' !in s
  }

  /** A segment that survives a join/parse round trip unchanged. */
  predicate IsPlainSegment(t: string) {
    '.' !in t && NoBrackets(t)
  }

  /** The bracket depth after scanning `s`: '[' opens, ']' closes, and a ']'
      with nothing open leaves the depth at zero. An unclosed '[' keeps the
      depth above zero for the rest of the path. */
  function BracketDepth(s: string): nat {
    if |s| == 0 then 0
    else
      var d := BracketDepth(s[..|s| - 1]);
      var c := s[|s| - 1];
      if c == '[' then d + 1
      else if c == ']' then (if d > 0 then d - 1 else 0)
      else d
  }

  /** The tokens with a '.' between neighbours (strings.Join(ts, ".")). */
  function JoinDots(ts: seq<string>): string
    requires |ts| > 0
  {
    if |ts| == 1 then ts[0] else JoinDots(ts[..|ts| - 1]) + "." + ts[|ts| - 1]
  }

  /** `ts` with `t` appended to its last token. */
  function ExtendLast(ts: seq<string>, t: string): seq<string>
    requires |ts| > 0
  {
    ts[..|ts| - 1] + [ts[|ts| - 1] + t]
  }

  lemma ExtendLastTwice(ts: seq<string>, a: string, b: string)
    requires |ts| > 0
    ensures ExtendLast(ExtendLast(ts, a), b) == ExtendLast(ts, a + b)
  {
    var us := ExtendLast(ts, a);
    assert us[..|us| - 1] == ts[..|ts| - 1];
    assert us[|us| - 1] + b == ts[|ts| - 1] + (a + b);
  }

  lemma ExtendLastEmpty(ts: seq<string>)
    requires |ts| > 0
    ensures ExtendLast(ts, "") == ts
  {
    assert ts[|ts| - 1] + "" == ts[|ts| - 1];
  }

  lemma ExtendLastAfterSplit(ts: seq<string>, t: string)
    ensures ExtendLast(ts + [""], t) == ts + [t]
  {
    assert (ts + [""])[..|ts|] == ts;
    assert "" + t == t;
  }

  lemma JoinDotsExtendLast(ts: seq<string>, t: string)
    requires |ts| > 0
    ensures JoinDots(ExtendLast(ts, t)) == JoinDots(ts) + t
  {
    var us := ts[..|ts| - 1] + [ts[|ts| - 1] + t];
    if |ts| > 1 {
      assert us[..|us| - 1] == ts[..|ts| - 1];
    }
  }

  lemma JoinDotsSnoc(ts: seq<string>, t: string)
    requires |ts| > 0
    ensures JoinDots(ts + [t]) == JoinDots(ts) + "." + t
  {
    assert (ts + [t])[..|ts|] == ts;
  }

  lemma {:induction false} JoinDotsCons(t: string, ts: seq<string>)
    requires |ts| > 0
    ensures JoinDots([t] + ts) == t + "." + JoinDots(ts)
    decreases |ts|
  {
    var us := [t] + ts;
    if |ts| == 1 {
      assert us[..1] == [t];
    } else {
      assert us[..|us| - 1] == [t] + ts[..|ts| - 1];
      JoinDotsCons(t, ts[..|ts| - 1]);
    }
  }

  /** ParsePath: scans left to right, ending the current token at each '.'
      seen at bracket depth zero and keeping every other character in the
      current token. Total: never fails, never returns an empty list. */
  function ParsePath(s: string): (tokens: seq<string>)
    ensures |tokens| > 0
    ensures JoinDots(tokens) == s
    decreases |s|
  {
    if |s| == 0 then [""]
    else
      var init := s[..|s| - 1];
      var c := s[|s| - 1];
      var prev := ParsePath(init);
      assert s == init + [c];
      if c == '.' && BracketDepth(init) == 0 then
        JoinDotsSnoc(prev, "");
        prev + [""]
      else
        JoinDotsExtendLast(prev, [c]);
        ExtendLast(prev, [c])
  }

  /** One character more: a depth-zero '.' starts a new empty token, any
      other character (a '.' inside brackets included) extends the last one. */
  lemma ParsePathSnoc(s: string, c: char)
    ensures var prev := ParsePath(s);
      ParsePath(s + [c]) ==
        if c == '.' && BracketDepth(s) == 0 then prev + [""] else ExtendLast(prev, [c])
    ensures BracketDepth(s + [c]) ==
      if c == '[' then BracketDepth(s) + 1
      else if c == ']' then (if BracketDepth(s) > 0 then BracketDepth(s) - 1 else 0)
      else BracketDepth(s)
  {
    assert (s + [c])[..|s|] == s;
  }

  /** Text without brackets is appended to the last token whole, and leaves
      the depth alone, when it has no '.' or when a '[' is still open: a '.'
      at depth above zero never splits. */
  lemma {:induction false} ParsePathExtend(s: string, t: string)
    requires NoBrackets(t)
    requires BracketDepth(s) > 0 || '.' !in t
    ensures ParsePath(s + t) == ExtendLast(ParsePath(s), t)
    ensures BracketDepth(s + t) == BracketDepth(s)
    decreases |t|
  {
    if |t| == 0 {
      assert s + t == s;
      ExtendLastEmpty(ParsePath(s));
    } else {
      var t' := t[..|t| - 1];
      var c := t[|t| - 1];
      assert t == t' + [c];
      assert NoBrackets(t') && (BracketDepth(s) > 0 || '.' !in t') by {
        assert forall x :: x in t' ==> x in t;
      }
      assert c != '[' && c != ']' && (c == '.' ==> BracketDepth(s) > 0);
      ParsePathExtend(s, t');
      assert s + t == (s + t') + [c];
      ParsePathSnoc(s + t', c);
      ExtendLastTwice(ParsePath(s), t', [c]);
    }
  }

  /** Parsing inverts joining for plain segments (no '.', '[' or ']'). */
  lemma {:induction false} ParsePathJoinDots(ts: seq<string>)
    requires |ts| > 0
    requires forall i :: 0 <= i < |ts| ==> IsPlainSegment(ts[i])
    ensures ParsePath(JoinDots(ts)) == ts
    ensures BracketDepth(JoinDots(ts)) == 0
    decreases |ts|
  {
    var t := ts[|ts| - 1];
    if |ts| == 1 {
      ParsePathExtend("", t);
      assert "" + t == t;
    } else {
      var init := ts[..|ts| - 1];
      assert ts == init + [t];
      ParsePathJoinDots(init);
      var j := JoinDots(init);
      var jd := j + ['.'];
      ParsePathSnoc(j, '.');
      assert ParsePath(jd) == init + [""] && BracketDepth(jd) == 0;
      ParsePathExtend(jd, t);
      assert JoinDots(ts) == jd + t;
      ExtendLastAfterSplit(init, t);
    }
  }

  /** strings.Split(s, "."): a reference definition of splitting on every dot. */
  function SplitOnDots(s: string): (r: seq<string>)
    ensures |r| > 0
    ensures JoinDots(r) == s
    ensures forall i :: 0 <= i < |r| ==> '.' !in r[i]
    ensures NoBrackets(s) ==> forall i :: 0 <= i < |r| ==> NoBrackets(r[i])
    decreases |s|
  {
    if |s| == 0 then [""]
    else
      var rest := SplitOnDots(s[1..]);
      assert s == [s[0]] + s[1..];
      if s[0] == '.' then
        JoinDotsCons("", rest);
        [""] + rest
      else
        var r := [[s[0]] + rest[0]] + rest[1..];
        JoinDotsPrependChar(s[0], rest);
        PrependCharParts(s[0], rest);
        assert NoBrackets(s) ==> NoBrackets([s[0]]) && NoBrackets(s[1..]);
        r
  }

  lemma JoinDotsPrependChar(c: char, ts: seq<string>)
    requires |ts| > 0
    ensures JoinDots([[c] + ts[0]] + ts[1..]) == [c] + JoinDots(ts)
  {
    var h := [c] + ts[0];
    var rest := ts[1..];
    if |ts| == 1 {
      assert [h] + rest == [h];
    } else {
      assert ts == [ts[0]] + rest;
      DotAssoc(c, ts[0], JoinDots(rest));
      JoinDotsCons(ts[0], rest);
      JoinDotsCons(h, rest);
    }
  }

  /** Prepending a character other than '.' keeps the tokens dot-free, and
      bracket-free when the character and the tokens are. */
  lemma PrependCharParts(c: char, ts: seq<string>)
    requires |ts| > 0 && c != '.'
    requires forall i :: 0 <= i < |ts| ==> '.' !in ts[i]
    ensures var r := [[c] + ts[0]] + ts[1..];
      forall i :: 0 <= i < |r| ==> '.' !in r[i]
    ensures var r := [[c] + ts[0]] + ts[1..];
      NoBrackets([c]) && (forall i :: 0 <= i < |ts| ==> NoBrackets(ts[i])) ==>
        forall i :: 0 <= i < |r| ==> NoBrackets(r[i])
  {
    var r := [[c] + ts[0]] + ts[1..];
    assert forall i :: 1 <= i < |r| ==> r[i] == ts[i];
  }

  /** Proof step of JoinDotsPrependChar: regroups a join with a character in front. */
  lemma DotAssoc(c: char, a: string, b: string)
    ensures [c] + a + "." + b == [c] + (a + "." + b)
  {
  }

  /** Without brackets, ParsePath is exactly a split on every '.'. */
  lemma ParsePathNoBrackets(s: string)
    requires NoBrackets(s)
    ensures ParsePath(s) == SplitOnDots(s)
  {
    var ts := SplitOnDots(s);
    ParsePathJoinDots(ts);
  }

  /** A bracketed segment keeps its dots: `a.[b].c` with a dotted `b`
      parses to three tokens. */
  lemma ParsePathFilterSegment(a: string, b: string, c: string)
    requires IsPlainSegment(a) && IsPlainSegment(c) && NoBrackets(b)
    ensures ParsePath(a + "." + "[" + b + "]" + "." + c) == [a, "[" + b + "]", c]
  {
    var s4 := a + "." + "[" + b + "]";
    var ts := [a, "[" + b + "]"];
    ParsePathClosedFilter(a, b);
    ParsePathSnoc(s4, '.');
    ParsePathExtend(s4 + ".", c);
    ExtendLastAfterSplit(ts, c);
    assert ts + [c] == [a, "[" + b + "]", c];
  }

  /** Text without '.', '[' or ']' is a single token. */
  lemma ParsePathPlain(a: string)
    requires IsPlainSegment(a)
    ensures ParsePath(a) == [a] && BracketDepth(a) == 0
  {
    ParsePathExtend("", a);
    assert "" + a == a;
  }

  lemma ParsePathOpenFilter(a: string, b: string)
    requires IsPlainSegment(a) && NoBrackets(b)
    ensures ParsePath(a + "." + "[" + b) == [a, "[" + b]
    ensures BracketDepth(a + "." + "[" + b) == 1
  {
    ParsePathPlain(a);
    ParsePathSnoc(a, '.');
    ParsePathSnoc(a + ".", '[');
    ExtendLastAfterSplit([a], "[");
    ParsePathExtend(a + "." + "[", b);
    ExtendLastOfPair(a, "[", b);
  }

  /** Proof step of ParsePathOpenFilter and ParsePathClosedFilter: extending the second of two tokens. */
  lemma ExtendLastOfPair(a: string, x: string, t: string)
    ensures ExtendLast([a, x], t) == [a, x + t]
  {
  }

  lemma ParsePathClosedFilter(a: string, b: string)
    requires IsPlainSegment(a) && NoBrackets(b)
    ensures ParsePath(a + "." + "[" + b + "]") == [a, "[" + b + "]"]
    ensures BracketDepth(a + "." + "[" + b + "]") == 0
  {
    ParsePathOpenFilter(a, b);
    ParsePathSnoc(a + "." + "[" + b, ']');
    ExtendLastOfPair(a, "[" + b, "]");
  }

  /** The plain example: a dotted path splits at every dot. */
  lemma ParsePathExampleDotted()
    ensures ParsePath("servers.0.host") == ["servers", "0", "host"]
  {
    var ts := ["servers", "0", "host"];
    assert ts[..2] == ["servers", "0"];
    assert ["servers", "0"][..1] == ["servers"];
    assert JoinDots(ts) == "servers.0.host";
    ParsePathJoinDots(ts);
  }

  /** A ']' with no '[' open is kept as an ordinary character and leaves the
      depth at zero, so the next dot still splits. */
  lemma ParsePathStrayClose(a: string, b: string)
    requires IsPlainSegment(a) && IsPlainSegment(b)
    ensures ParsePath(a + "]" + "." + b) == [a + "]", b]
  {
    StrayCloseToken(a);
    var s2 := a + "]";
    ParsePathSnoc(s2, '.');
    assert s2 + "." == s2 + ['.'];
    ParsePathExtend(s2 + ".", b);
    ExtendLastAfterSplit([s2], b);
  }

  /** Proof step of ParsePathStrayClose: the ']' joins the token and the
      depth stays zero. */
  lemma StrayCloseToken(a: string)
    requires IsPlainSegment(a)
    ensures ParsePath(a + "]") == [a + "]"] && BracketDepth(a + "]") == 0
  {
    ParsePathPlain(a);
    assert a + "]" == a + [']'];
    ParsePathSnoc(a, ']');
    assert ExtendLast([a], "]") == [a + "]"];
  }

  /** The stray ']' of `a].b` stays in the first token. */
  lemma ParsePathStrayCloseExample()
    ensures ParsePath("a].b") == ["a]", "b"]
  {
    ParsePathStrayClose("a", "b");
    assert "a" + "]" + "." + "b" == "a].b";
    assert "a" + "]" == "a]";
  }

  /** The filter example: the dot inside the brackets stays in its token. */
  lemma ParsePathExampleFilter()
    ensures ParsePath("servers.[name=example.org].ip") == ["servers", "[name=example.org]", "ip"]
  {
    var b := "name=example.org";
    assert NoBrackets(b);
    ParsePathFilterSegment("servers", b, "ip");
    assert "servers" + "." + "[" == "servers.[";
    assert "servers.[" + b + "]" == "servers.[name=example.org]";
    assert "servers.[name=example.org]" + "." + "ip" == "servers.[name=example.org].ip";
    assert "[" + b + "]" == "[name=example.org]";
  }
}
