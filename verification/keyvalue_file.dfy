/** The key/value file format of file.go: one `[export ]KEY = VALUE` per
    line, with optional quotes, escapes in double quotes and inline
    comments, searched for the first line defining a key. */
module KeyValueFile {
  import opened Wrappers
  import opened Strings
  import opened Errors

  /** U+FEFF, the byte order mark a UTF-8 file may start with. */
  const Bom: char := 0xFEFF as char

  /** stripBOM: strings.TrimPrefix with the mark; at most one is removed. */
  function StripBOM(s: string): (r: string)
    ensures |s| > 0 && s[0] == Bom ==> [Bom] + r == s
    ensures !(|s| > 0 && s[0] == Bom) ==> r == s
  {
    if |s| > 0 && s[0] == Bom then s[1..] else s
  }

  // ---------------------------------------------------------------------------
  // Inline comments

  /** The state cutInlineCommentUnquoted carries from rune to rune. */
  datatype ScanState = ScanState(inSingle: bool, inDouble: bool, seenSpace: bool)

  /** Before the first rune: no quote open, and a '#' in first place starts a comment. */
  const Start := ScanState(false, false, true)

  /** One rune: a quote toggles its own state unless the other kind is open;
      `seenSpace` records whether this rune was white space. */
  function Advance(st: ScanState, c: char): ScanState {
    ScanState(
      if c == '\'' && !st.inDouble then !st.inSingle else st.inSingle,
      if c == '"' && !st.inSingle then !st.inDouble else st.inDouble,
      IsSpace(c))
  }

  /** The state after scanning all of `s`. */
  function StateAfter(s: string): ScanState
    decreases |s|
  {
    if |s| == 0 then Start else Advance(StateAfter(s[..|s| - 1]), s[|s| - 1])
  }

  /** Position `i` of `s` starts an inline comment: a '#' outside both kinds
      of quotes, first in the text or right after white space. */
  predicate CommentAt(s: string, i: nat)
    requires i < |s|
  {
    s[i] == '#' && !StateAfter(s[..i]).inSingle && !StateAfter(s[..i]).inDouble
    && StateAfter(s[..i]).seenSpace
  }

  /** The scanning loop from position `i`, carrying the state of `s[..i]`. */
  function FindComment(s: string, i: nat, st: ScanState): (r: Option<nat>)
    requires i <= |s| && st == StateAfter(s[..i])
    ensures r.Some? ==> i <= r.value < |s| && CommentAt(s, r.value)
    ensures r.Some? ==> forall j :: i <= j < r.value ==> !CommentAt(s, j)
    ensures r.None? ==> forall j :: i <= j < |s| ==> !CommentAt(s, j)
    decreases |s| - i
  {
    if i == |s| then None
    else if s[i] == '#' && !st.inSingle && !st.inDouble && st.seenSpace then Some(i)
    else
      assert s[..i + 1][..i] == s[..i];
      FindComment(s, i + 1, Advance(st, s[i]))
  }

  /** Where the inline comment of `s` starts, if it has one: the first
      position satisfying CommentAt. Such a '#' is first or follows white space. */
  function CommentStart(s: string): (r: Option<nat>)
    ensures r.Some? ==> r.value < |s| && CommentAt(s, r.value)
    ensures r.Some? ==> forall j :: 0 <= j < r.value ==> !CommentAt(s, j)
    ensures r.Some? ==> r.value == 0 || IsSpace(s[r.value - 1])
    ensures r.None? <==> forall j :: 0 <= j < |s| ==> !CommentAt(s, j)
  {
    var r := FindComment(s, 0, Start);
    if r.Some? && r.value > 0 then
      assert s[..r.value][..r.value - 1] == s[..r.value - 1];
      r
    else r
  }

  /** cutInlineCommentUnquoted: the trimmed text before the comment, or the
      whole trimmed text when there is none. */
  function CutInlineCommentUnquoted(s: string): (r: string)
    ensures TrimmedBy(r, IsSpace) && |r| <= |s|
    ensures CommentStart(s).None? ==> r == TrimSpace(s)
    ensures CommentStart(s).Some? ==> r == TrimSpace(s[..CommentStart(s).value])
  {
    match CommentStart(s)
    case None => TrimSpace(s)
    case Some(i) => TrimSpace(s[..i])
  }

  /** Without quote characters the scan state only remembers white space. */
  lemma {:induction false} UnquotedState(s: string)
    requires '\'' !in s && '"' !in s
    ensures !StateAfter(s).inSingle && !StateAfter(s).inDouble
    decreases |s|
  {
    if |s| > 0 {
      assert forall x :: x in s[..|s| - 1] ==> x in s;
      UnquotedState(s[..|s| - 1]);
    }
  }

  /** In text without quotes a '#' starts a comment exactly when it is first
      or follows white space; a '#' glued to the text before it is kept. */
  lemma UnquotedComment(s: string, i: nat)
    requires '\'' !in s && '"' !in s && i < |s|
    ensures CommentAt(s, i) <==> s[i] == '#' && (i == 0 || IsSpace(s[i - 1]))
  {
    assert forall x :: x in s[..i] ==> x in s;
    UnquotedState(s[..i]);
    if i > 0 {
      assert s[..i][..i - 1] == s[..i - 1];
    }
  }

  /** Inside `q w` (the body of a quoted text, `q` its quote and `w` free of
      it) the quote of kind `q` stays open and the other kind stays closed. */
  lemma {:induction false} InsideQuotes(q: char, w: string, j: nat)
    requires IsQuote(q) && q !in w && j <= |w|
    ensures var st := StateAfter([q] + w[..j]);
      (if q == '"' then st.inDouble && !st.inSingle else st.inSingle && !st.inDouble)
    decreases j
  {
    var t := [q] + w[..j];
    if j == 0 {
      assert t[..0] == [];
    } else {
      assert t[..|t| - 1] == [q] + w[..j - 1];
      assert t[|t| - 1] == w[j - 1];
      InsideQuotes(q, w, j - 1);
    }
  }

  /** A '#' inside a quoted text never starts a comment. */
  lemma QuotedHasNoComment(q: char, w: string)
    requires IsQuote(q) && q !in w
    ensures CommentStart([q] + w + [q]).None?
  {
    var s := [q] + w + [q];
    forall j | 0 <= j < |s|
      ensures !CommentAt(s, j)
    {
      if 0 < j <= |w| {
        assert s[..j] == [q] + w[..j - 1];
        InsideQuotes(q, w, j - 1);
      }
    }
  }

  // ---------------------------------------------------------------------------
  // Quotes and escapes

  /** The character a backslash escape in double quotes stands for: `\n`,
      `\r` and `\t` are control characters; `\\`, `\"`, `\'` and every
      unknown escape stand for the escaped character itself. */
  function EscapedChar(c: char): char {
    if c == 'n' then '\n' else if c == 'r' then '\r' else if c == 't' then '\t' else c
  }

  /** unescapeDoubleQuoted: each backslash and the character after it become
      one character; a backslash at the very end is kept. */
  function UnescapeDoubleQuoted(s: string): (r: string)
    ensures |r| <= |s|
    ensures '\\' !in s ==> r == s
    decreases |s|
  {
    if |s| == 0 then ""
    else if s[0] != '\\' then [s[0]] + UnescapeDoubleQuoted(s[1..])
    else if |s| == 1 then "\\"
    else [EscapedChar(s[1])] + UnescapeDoubleQuoted(s[2..])
  }

  /** How one character is written inside double quotes. */
  function EscapeDoubleChar(c: char): (r: string)
    ensures 1 <= |r| <= 2
    ensures |r| == 2 <==> r[0] == '\\'
    ensures |r| == 1 ==> r[0] == c
    ensures |r| == 2 ==> EscapedChar(r[1]) == c
    ensures '"' in r ==> c == '"'
  {
    if c == '\\' then "\\\\"
    else if c == '"' then "\\\""
    else if c == '\n' then "\\n"
    else if c == '\r' then "\\r"
    else if c == '\t' then "\\t"
    else [c]
  }

  /** The double-quoted writing of a text, the inverse of UnescapeDoubleQuoted. */
  function EscapeDoubleQuoted(s: string): (r: string)
    ensures '"' !in s ==> '"' !in r
    decreases |s|
  {
    if |s| == 0 then ""
    else
      assert '"' !in s ==> '"' !in s[1..] by {
        assert forall x :: x in s[1..] ==> x in s;
      }
      EscapeDoubleChar(s[0]) + EscapeDoubleQuoted(s[1..])
  }

  /** Unescaping undoes escaping, for every text. */
  lemma {:induction false} UnescapeEscapeDouble(s: string)
    ensures UnescapeDoubleQuoted(EscapeDoubleQuoted(s)) == s
    decreases |s|
  {
    if |s| > 0 {
      var c := s[0];
      var rest := EscapeDoubleQuoted(s[1..]);
      var e := EscapeDoubleChar(c);
      assert s == [c] + s[1..];
      assert EscapeDoubleQuoted(s) == e + rest;
      UnescapeFront(e, rest);
      UnescapeEscapeDouble(s[1..]);
    }
  }

  /** Unescaping a text that starts with one written character. */
  lemma UnescapeFront(e: string, rest: string)
    requires 1 <= |e| <= 2 && (|e| == 2 <==> e[0] == '\\')
    ensures UnescapeDoubleQuoted(e + rest)
      == [if |e| == 1 then e[0] else EscapedChar(e[1])] + UnescapeDoubleQuoted(rest)
  {
    var t := e + rest;
    assert t[0] == e[0];
    if |e| == 1 {
      assert t[1..] == rest;
    } else {
      assert t[1] == e[1];
      assert t[2..] == rest;
    }
  }

  /** A backslash and the character after it become one character: a
      control character for `n`, `r` and `t`, and the character itself for
      every other one, so `\\'` and unknown escapes such as `\\q` keep it. */
  lemma UnescapePair(c: char, s: string)
    ensures UnescapeDoubleQuoted("\\" + [c] + s) == [EscapedChar(c)] + UnescapeDoubleQuoted(s)
    ensures c !in "nrt" ==> UnescapeDoubleQuoted("\\" + [c] + s) == [c] + UnescapeDoubleQuoted(s)
    ensures c == 'n' ==> UnescapeDoubleQuoted("\\" + [c] + s) == "\n" + UnescapeDoubleQuoted(s)
  {
    var t := "\\" + [c] + s;
    assert t[0] == '\\' && t[1] == c && t[2..] == s;
  }

  /** A lone backslash at the very end survives unescaping, after any text. */
  lemma {:induction false} UnescapeTrailingBackslash(s: string)
    ensures UnescapeDoubleQuoted(EscapeDoubleQuoted(s) + "\\") == s + "\\"
    decreases |s|
  {
    if |s| == 0 {
      assert EscapeDoubleQuoted(s) + "\\" == "\\";
    } else {
      var c := s[0];
      var rest := EscapeDoubleQuoted(s[1..]) + "\\";
      var e := EscapeDoubleChar(c);
      assert EscapeDoubleQuoted(s) + "\\" == e + rest;
      UnescapeFront(e, rest);
      UnescapeTrailingBackslash(s[1..]);
      ConsAppend(s, "\\");
    }
  }

  lemma ConsAppend(s: string, t: string)
    requires |s| > 0
    ensures s + t == [s[0]] + (s[1..] + t)
  {
    assert s == [s[0]] + s[1..];
  }

  /** strings.ReplaceAll(s, `\'`, `'`): the single-quoted unescape, scanning
      left to right without overlaps. */
  function UnescapeSingleQuoted(s: string): (r: string)
    ensures |r| <= |s|
    ensures !HasPair(s, '\\', '\'') ==> r == s
    decreases |s|
  {
    if |s| == 0 then ""
    else
      HasPairInfix(s, 1, '\\', '\'');
      if |s| >= 2 && s[0] == '\\' && s[1] == '\'' then
        "'" + UnescapeSingleQuoted(s[2..])
      else [s[0]] + UnescapeSingleQuoted(s[1..])
  }

  /** Writes every `'` as `\'`. */
  function EscapeSingleQuoted(s: string): (r: string)
    ensures |r| == 0 || r[0] != '\''
    decreases |s|
  {
    if |s| == 0 then ""
    else (if s[0] == '\'' then "\\'" else [s[0]]) + EscapeSingleQuoted(s[1..])
  }

  /** The single-quoted unescape undoes EscapeSingleQuoted for every text,
      backslashes included. */
  lemma {:induction false} UnescapeEscapeSingle(s: string)
    ensures UnescapeSingleQuoted(EscapeSingleQuoted(s)) == s
    decreases |s|
  {
    if |s| > 0 {
      var rest := EscapeSingleQuoted(s[1..]);
      UnescapeEscapeSingle(s[1..]);
      UnescapeSingleFront(s[0], rest);
      assert s == [s[0]] + s[1..];
    }
  }

  /** One escaped character in front of a text that does not start with `'`
      unescapes back to that character. */
  lemma UnescapeSingleFront(c: char, rest: string)
    requires |rest| == 0 || rest[0] != '\''
    ensures UnescapeSingleQuoted((if c == '\'' then "\\'" else [c]) + rest)
      == [c] + UnescapeSingleQuoted(rest)
  {
    if c == '\'' {
      assert ("\\'" + rest)[2..] == rest;
    } else {
      assert ([c] + rest)[1..] == rest;
    }
  }

  /** unquoteValue: a text quoted at both ends with the same quote loses the
      quotes and is unescaped by that quote's rules; anything else is kept.
      The flag is always true. */
  function UnquoteValue(s: string): (r: (string, bool))
    ensures r.1
    ensures |r.0| <= |s|
  {
    var n := |s|;
    if n >= 2 && s[0] == '"' && s[n - 1] == '"' then (UnescapeDoubleQuoted(s[1..n - 1]), true)
    else if n >= 2 && s[0] == '\'' && s[n - 1] == '\'' then (UnescapeSingleQuoted(s[1..n - 1]), true)
    else (s, true)
  }

  /** Quoting with either quote and then unquoting gives the text back. */
  lemma UnquoteRoundTrip(w: string)
    ensures UnquoteValue("\"" + EscapeDoubleQuoted(w) + "\"") == (w, true)
    ensures UnquoteValue("'" + EscapeSingleQuoted(w) + "'") == (w, true)
  {
    var d := "\"" + EscapeDoubleQuoted(w) + "\"";
    assert d[1..|d| - 1] == EscapeDoubleQuoted(w);
    UnescapeEscapeDouble(w);
    var q := "'" + EscapeSingleQuoted(w) + "'";
    assert q[1..|q| - 1] == EscapeSingleQuoted(w);
    UnescapeEscapeSingle(w);
  }

  /** A text not wrapped in a pair of the same quote is its own unquoting:
      an unmatched quote such as `"abc'`, `"abc` or a lone `"` stays. */
  lemma UnquoteUnquoted(s: string)
    requires !(|s| >= 2 && IsQuote(s[0]) && s[|s| - 1] == s[0])
    ensures UnquoteValue(s) == (s, true)
  {
  }

  /** A text between a pair of quotes, whatever it holds, loses the quotes
      and is unescaped by that quote's rules. */
  lemma UnquotePair(x: string)
    ensures UnquoteValue("\"" + x + "\"") == (UnescapeDoubleQuoted(x), true)
    ensures UnquoteValue("'" + x + "'") == (UnescapeSingleQuoted(x), true)
  {
    var d := "\"" + x + "\"";
    assert d[1..|d| - 1] == x;
    var q := "'" + x + "'";
    assert q[1..|q| - 1] == x;
  }

  // ---------------------------------------------------------------------------
  // Lines

  /** The value half of an assignment: trimmed, cut at its inline comment,
      unquoted, and trimmed again. */
  function CleanValue(raw: string): (r: string)
    ensures TrimmedBy(r, IsSpace)
  {
    var v := CutInlineCommentUnquoted(TrimSpace(raw));
    var u := UnquoteValue(v);
    TrimSpace(if u.1 then u.0 else v)
  }

  /** The part of parseKV after the blank, comment and export checks: split
      at the first '=', trim the key, and clean the value. */
  function ParseAssignment(line: string): (r: Option<(string, string)>)
    ensures '=' !in line ==> r.None?
    ensures r.Some? ==> r.value.0 != "" && '=' !in r.value.0 && TrimmedBy(r.value.0, IsSpace)
    ensures r.Some? ==> TrimmedBy(r.value.1, IsSpace)
    ensures r.Some? ==> forall x :: x in r.value.0 ==> x in line
  {
    match IndexOf(line, '=')
    case None => None
    case Some(eq) =>
      var k := TrimSpace(line[..eq]);
      if k == "" then None
      else
        TrimSpaceChars(line[..eq]);
        assert forall x :: x in line[..eq] ==> x in line;
        Some((k, CleanValue(line[eq + 1..])))
  }

  /** parseKV: a blank line, a comment line or a line without '=' or with an
      empty key defines nothing. Otherwise an `export ` prefix is dropped and
      the line is read as an assignment. */
  function ParseKV(line: string): (r: Option<(string, string)>)
    ensures All(line, IsSpace) ==> r.None?
    ensures HasPrefix(TrimSpace(line), "#") ==> r.None?
    ensures '=' !in line ==> r.None?
    ensures r.Some? ==> r.value.0 != "" && '=' !in r.value.0 && TrimmedBy(r.value.0, IsSpace)
    ensures r.Some? ==> TrimmedBy(r.value.1, IsSpace)
    ensures r.Some? ==> forall x :: x in r.value.0 ==> x in line
  {
    var l := TrimSpace(line);
    if l == "" || HasPrefix(l, "#") then None
    else
      var body := if HasPrefix(l, "export ") then TrimSpace(l[7..]) else l;
      assert forall x :: x in body ==> x in line by {
        TrimSpaceChars(line);
        if HasPrefix(l, "export ") {
          TrimSpaceChars(l[7..]);
          assert forall x :: x in l[7..] ==> x in l;
        }
      }
      ParseAssignment(body)
  }

  /** A key parseKV returns as written. */
  predicate IsPlainKey(k: string) {
    k != "" && '=' !in k && TrimmedBy(k, IsSpace) && k[0] != '#'
  }

  /** A value parseKV returns as written: trimmed, without '#', not starting
      with a quote. It may hold '='. */
  predicate IsPlainValue(v: string) {
    TrimmedBy(v, IsSpace) && '#' !in v && (|v| == 0 || !IsQuote(v[0]))
  }

  /** For every text `k` without '=' and every `v`, `k=v` splits at the '='
      after `k`: a key that trims to nothing defines nothing, and otherwise
      the trimmed key gets the cleaned value. */
  lemma ParseAssignmentSplit(k: string, v: string)
    requires '=' !in k
    ensures ParseAssignment(k + "=" + v)
      == if TrimSpace(k) == "" then None else Some((TrimSpace(k), CleanValue(v)))
  {
    var line := k + "=" + v;
    IndexOfAfterPrefix(k, '=', v);
    assert line[..|k|] == k;
    assert line[|k| + 1..] == v;
  }

  /** A line whose key is only white space, such as ` = v`, defines nothing. */
  lemma ParseKVEmptyKey(ws: string, v: string)
    requires All(ws, IsSpace)
    ensures ParseKV(ws + "=" + v) == None
  {
    assert ws + "=" + v == ws + ("=" + v);
    TrimSpaceFirst(ws, "=" + v);
    LeadingEquals(ws + "=" + v);
  }

  /** A line whose trimmed text starts with '=' defines nothing. */
  lemma LeadingEquals(line: string)
    requires |TrimSpace(line)| > 0 && TrimSpace(line)[0] == '='
    ensures ParseKV(line) == None
  {
    var l := TrimSpace(line);
    assert !HasPrefix(l, "#") && !HasPrefix(l, "export ") by {
      assert l[..1][0] == '=';
      if |l| >= 7 {
        assert l[..7][0] == '=';
      }
    }
    assert l == "" + "=" + l[1..];
    ParseAssignmentSplit("", l[1..]);
  }

  /** `k a = val`, with a plain key and white space `a`, assigns the
      cleaned `val` to `k`: the first '=' is the one after the key. */
  lemma AssignmentShape(k: string, a: string, val: string)
    requires IsPlainKey(k) && All(a, IsSpace)
    ensures ParseAssignment(k + a + "=" + val) == Some((k, CleanValue(val)))
  {
    var line := k + a + "=" + val;
    assert '=' !in k + a;
    assert line == (k + a) + ['='] + val;
    IndexOfAfterPrefix(k + a, '=', val);
    assert line[..|k + a|] == k + a;
    assert line[|k + a| + 1..] == val;
    TrimSpacePadded("", k, a);
    assert "" + k + a == k + a;
  }

  /** `k=val`: the same without white space before '='. */
  lemma KeyAssignment(k: string, val: string)
    requires IsPlainKey(k)
    ensures ParseAssignment(k + "=" + val) == Some((k, CleanValue(val)))
  {
    assert k + "" + "=" + val == k + "=" + val;
    AssignmentShape(k, "", val);
  }

  /** A plain value after white space is its own cleaned value. */
  lemma CleanPlain(b: string, v: string)
    requires All(b, IsSpace) && IsPlainValue(v)
    ensures CleanValue(b + v) == v
  {
    TrimSpacePadded(b, v, "");
    assert b + v + "" == b + v;
    assert CommentStart(v).None?;
    UnquoteUnquoted(v);
  }

  /** `k a = b v`, with white space `a` and `b` around '=', assigns `v` to `k`. */
  lemma AssignmentPlain(k: string, a: string, b: string, v: string)
    requires IsPlainKey(k) && All(a, IsSpace) && All(b, IsSpace) && IsPlainValue(v)
    ensures ParseAssignment(k + a + "=" + b + v) == Some((k, v))
  {
    assert k + a + "=" + b + v == k + a + "=" + (b + v);
    AssignmentShape(k, a, b + v);
    CleanPlain(b, v);
  }

  /** A trimmed line that is not a comment and does not begin with
      `export ` is read as an assignment. */
  lemma ParseKVNoExport(line: string)
    requires TrimmedBy(line, IsSpace) && line != "" && line[0] != '#'
    requires !HasPrefix(line, "export ")
    ensures ParseKV(line) == ParseAssignment(line)
  {
    assert TrimSpace(line) == line;
    assert !HasPrefix(line, "#") by {
      assert |line| >= 1 ==> line[..1][0] == line[0];
    }
  }

  /** A line `export rest` is read as the assignment `rest`, trimmed: white
      space after the prefix or at the end of the line is dropped. */
  lemma ParseKVExport(rest: string)
    ensures ParseKV("export " + rest) == ParseAssignment(TrimSpace(rest))
  {
    var w := TrimSpace(rest);
    if w == "" {
      ExportBlank(rest);
    } else {
      var a, c := SpacePadding(rest);
      ExportPadded(a, w, c);
    }
  }

  /** `export` followed by nothing but white space defines nothing: the line
      holds no '='. */
  lemma ExportBlank(rest: string)
    requires All(rest, IsSpace)
    ensures ParseKV("export " + rest) == None
  {
    var line := "export " + rest;
    assert forall i :: 7 <= i < |line| ==> line[i] == rest[i - 7];
    assert '=' !in line;
  }

  /** `export a w c`, with white space `a` and `c` around a non-blank trimmed
      `w`, is read as the assignment `w`. */
  lemma ExportPadded(a: string, w: string, c: string)
    requires All(a, IsSpace) && All(c, IsSpace) && w != "" && TrimmedBy(w, IsSpace)
    ensures ParseKV("export " + (a + w + c)) == ParseAssignment(w)
  {
    ExportTail(a, w, c);
    ParseKVTrimmedExport("export " + (a + w + c), a + w);
    LeadingSpace(a, w);
  }

  /** Trimming `export a w c` drops only the trailing white space `c`. */
  lemma ExportTail(a: string, w: string, c: string)
    requires All(c, IsSpace) && w != "" && TrimmedBy(w, IsSpace)
    ensures TrimSpace("export " + (a + w + c)) == "export " + (a + w)
  {
    var h := "export " + (a + w);
    ExportHead(a, w);
    assert "export " + (a + w + c) == "" + h + c;
    TrimSpacePadded("", h, c);
  }

  /** Leading white space `a` before a trimmed `w` is trimmed away. */
  lemma LeadingSpace(a: string, w: string)
    requires All(a, IsSpace) && TrimmedBy(w, IsSpace)
    ensures TrimSpace(a + w) == w
  {
    assert a + w + "" == a + w;
    TrimSpacePadded(a, w, "");
  }

  /** `export a w`, with `w` non-blank and trimmed, is trimmed itself. */
  lemma ExportHead(a: string, w: string)
    requires w != "" && TrimmedBy(w, IsSpace)
    ensures TrimmedBy("export " + (a + w), IsSpace)
  {
    var h := "export " + (a + w);
    assert h == ("export " + a) + w;
    assert h[|h| - 1] == w[|w| - 1];
    assert h[0] == 'e';
  }

  /** A line whose trimmed text is `export rest` is read as the assignment
      `rest`, trimmed. */
  lemma ParseKVTrimmedExport(line: string, rest: string)
    requires TrimSpace(line) == "export " + rest
    ensures ParseKV(line) == ParseAssignment(TrimSpace(rest))
  {
    var l := "export " + rest;
    assert l[..7] == "export " && l[7..] == rest;
    assert !HasPrefix(l, "#") by {
      assert l[..1][0] == 'e';
    }
  }

  /** `export rest` is already trimmed, is no comment, and sheds the prefix to
      leave `rest`. */
  lemma ExportLine(rest: string)
    requires TrimmedBy(rest, IsSpace) && rest != ""
    ensures var line := "export " + rest;
      TrimSpace(line) == line && !HasPrefix(line, "#") && HasPrefix(line, "export ") && line[7..] == rest
  {
    var line := "export " + rest;
    assert line[..7] == "export " && line[7..] == rest;
    assert line[0] == 'e' && line[|line| - 1] == rest[|rest| - 1];
    assert !HasPrefix(line, "#") by {
      assert line[..1][0] == 'e';
    }
  }

  /** parseKV trims the line first, so trimming it beforehand changes nothing. */
  lemma ParseKVTrim(line: string)
    ensures ParseKV(TrimSpace(line)) == ParseKV(line)
  {
    assert TrimSpace(TrimSpace(line)) == TrimSpace(line);
  }

  /** Trimming `h b v`, with `h` trimmed and non-empty, `b` white space and
      `v` trimmed: only `b` can be lost, and only when `v` is empty. */
  lemma TrimTail(h: string, b: string, v: string)
    requires h != "" && TrimmedBy(h, IsSpace) && All(b, IsSpace) && TrimmedBy(v, IsSpace)
    ensures TrimSpace(h + b + v) == h + (if v == "" then "" else b) + v
  {
    if v == "" {
      assert h + b + v == "" + h + b && h + "" + v == h;
      TrimSpacePadded("", h, b);
    } else {
      var line := h + b + v;
      assert line[0] == h[0] && line[|line| - 1] == v[|v| - 1];
      assert TrimmedBy(line, IsSpace);
    }
  }

  /** The head `pre k a =` of an assignment line is trimmed. */
  lemma HeadTrimmed(pre: string, k: string, a: string)
    requires pre == "" || pre == "export "
    requires IsPlainKey(k)
    ensures pre + k + a + "=" != "" && TrimmedBy(pre + k + a + "=", IsSpace)
  {
    var h := pre + k + a + "=";
    assert h[0] == (if pre == "" then k[0] else 'e');
    assert h[|h| - 1] == '=';
  }

  /** `k a = b v` read as a line, when `k a` does not itself begin with `export `. */
  lemma ParseKVPlain(k: string, a: string, b: string, v: string)
    requires IsPlainKey(k) && All(a, IsSpace) && All(b, IsSpace) && IsPlainValue(v)
    requires !HasPrefix(k + a, "export ")
    ensures ParseKV(k + a + "=" + b + v) == Some((k, v))
  {
    var b' := if v == "" then "" else b;
    var t := k + a + "=" + b' + v;
    HeadTrimmed("", k, a);
    assert "" + k + a + "=" == k + a + "=";
    TrimTail(k + a + "=", b, v);
    NotExportAssignment(k, a, b', v);
    ParseKVNoExport(t);
    AssignmentPlain(k, a, b', v);
    ParseKVTrim(k + a + "=" + b + v);
  }

  lemma NotExportAssignment(k: string, a: string, b: string, v: string)
    requires !HasPrefix(k + a, "export ")
    ensures !HasPrefix(k + a + "=" + b + v, "export ")
  {
    assert k + a + "=" + b + v == (k + a) + ("=" + b + v);
    NotExportPrefix(k + a, "=" + b + v);
  }

  /** A text that starts with `p =`, for a `p` not beginning with `export `,
      does not begin with `export ` either. */
  lemma NotExportPrefix(p: string, rest: string)
    requires |rest| > 0 && rest[0] == '=' && !HasPrefix(p, "export ")
    ensures !HasPrefix(p + rest, "export ")
  {
    var s := p + rest;
    if |p| < 7 && |s| >= 7 {
      assert s[|p|] == '=' && "export "[|p|] != '=';
    } else if |p| >= 7 {
      assert s[..7] == p[..7];
    }
  }

  /** `export k a = b v` assigns `v` to `k`, whatever `k` is. */
  lemma ParseKVExportPlain(k: string, a: string, b: string, v: string)
    requires IsPlainKey(k) && All(a, IsSpace) && All(b, IsSpace) && IsPlainValue(v)
    ensures ParseKV("export " + k + a + "=" + b + v) == Some((k, v))
  {
    var b' := if v == "" then "" else b;
    var rest := k + a + "=" + b' + v;
    TrimExportLine(k, a, b, v);
    ParseKVExport(rest);
    AssignmentPlain(k, a, b', v);
    ParseKVTrim("export " + k + a + "=" + b + v);
  }

  lemma TrimExportLine(k: string, a: string, b: string, v: string)
    requires IsPlainKey(k) && All(a, IsSpace) && All(b, IsSpace) && IsPlainValue(v)
    ensures var rest := k + a + "=" + (if v == "" then "" else b) + v;
      TrimSpace("export " + k + a + "=" + b + v) == "export " + rest
      && TrimmedBy(rest, IsSpace) && rest != ""
  {
    HeadTrimmed("", k, a);
    assert "" + k + a + "=" == k + a + "=";
    ExportTrim(k + a + "=", b, v);
    ExportAssoc(k, a, b, v);
  }

  lemma ExportAssoc(k: string, a: string, b: string, v: string)
    ensures "export " + k + a + "=" + b + v == "export " + (k + a + "=") + b + v
  {
  }

  lemma ExportRest(h: string, b: string, v: string)
    ensures "export " + h + b + v == "export " + (h + b + v)
  {
  }

  /** Trimming `export h b v`, with a trimmed non-empty head `h`. */
  lemma ExportTrim(h: string, b: string, v: string)
    requires h != "" && TrimmedBy(h, IsSpace) && All(b, IsSpace) && TrimmedBy(v, IsSpace)
    ensures TrimSpace("export " + h + b + v) == "export " + (h + (if v == "" then "" else b) + v)
    ensures TrimmedBy(h + (if v == "" then "" else b) + v, IsSpace)
  {
    var e := "export " + h;
    assert e[0] == 'e' && e[|e| - 1] == h[|h| - 1];
    TrimTail(e, b, v);
    TrimTail(h, b, v);
    ExportRest(h, if v == "" then "" else b, v);
  }

  /** A double-quoted value comes back unescaped and trimmed; a '#' inside
      the quotes is part of the value. */
  lemma ParseKVDoubleQuoted(k: string, w: string)
    requires IsPlainKey(k) && !HasPrefix(k, "export ") && '"' !in w
    ensures ParseKV(k + "=" + ("\"" + EscapeDoubleQuoted(w) + "\"")) == Some((k, TrimSpace(w)))
  {
    var e := EscapeDoubleQuoted(w);
    var q := "\"" + e + "\"";
    QuotedHasNoComment('"', e);
    TrimSpaceQuoted('"', e);
    assert UnquoteValue(q) == (w, true) by {
      UnquoteRoundTrip(w);
    }
    QuotedValue(k, q, TrimSpace(w));
  }

  /** A single-quoted value without quotes inside comes back trimmed; a '#'
      or '"' inside the quotes is part of the value. */
  lemma ParseKVSingleQuoted(k: string, w: string)
    requires IsPlainKey(k) && !HasPrefix(k, "export ") && '\'' !in w
    ensures ParseKV(k + "=" + ("'" + w + "'")) == Some((k, TrimSpace(w)))
  {
    var q := "'" + w + "'";
    QuotedHasNoComment('\'', w);
    TrimSpaceQuoted('\'', w);
    assert !HasPair(w, '\\', '\'');
    assert q[1..|q| - 1] == w;
    assert UnquoteValue(q) == (w, true);
    QuotedValue(k, q, TrimSpace(w));
  }

  /** The line `k=rest`, with `rest` trimmed and non-empty, is read as an
      assignment. */
  lemma ParseKVKeyFirst(k: string, rest: string)
    requires IsPlainKey(k) && !HasPrefix(k, "export ") && rest != "" && TrimmedBy(rest, IsSpace)
    ensures ParseKV(k + "=" + rest) == ParseAssignment(k + "=" + rest)
  {
    var line := k + "=" + rest;
    assert line[0] == k[0] && line[|line| - 1] == rest[|rest| - 1];
    assert line == k + ("=" + rest);
    NotExportPrefix(k, "=" + rest);
    ParseKVNoExport(line);
  }

  /** The common tail of the two quoted cases: a value text `q` that is
      quoted at both ends, has no comment and unquotes to text trimming to `v`. */
  lemma QuotedValue(k: string, q: string, v: string)
    requires IsPlainKey(k) && !HasPrefix(k, "export ")
    requires |q| >= 2 && IsQuote(q[0]) && q[|q| - 1] == q[0] && CommentStart(q).None?
    requires TrimSpace(UnquoteValue(q).0) == v
    ensures ParseKV(k + "=" + q) == Some((k, v))
  {
    assert TrimmedBy(q, IsSpace);
    assert CleanValue(q) == v;
    ParseKVKeyFirst(k, q);
    KeyAssignment(k, q);
  }

  /** Cutting `v #c` at its comment leaves `v`, when `v` has no quotes. */
  lemma CutAtComment(v: string, c: string)
    requires IsPlainValue(v) && '\'' !in v && '"' !in v
    ensures CutInlineCommentUnquoted(v + " #" + c) == v
  {
    CommentAfterPlain(v, c);
    assert (v + " #" + c)[..|v| + 1] == v + " ";
    assert TrimSpace(v + " ") == v by {
      TrimSpacePadded("", v, " ");
      assert "" + v + " " == v + " ";
    }
  }

  /** In a plain value followed by " #", the comment starts at that '#'. */
  lemma CommentAfterPlain(v: string, c: string)
    requires IsPlainValue(v) && '\'' !in v && '"' !in v
    ensures CommentStart(v + " #" + c) == Some(|v| + 1)
  {
    var val := v + " #" + c;
    var i := |v| + 1;
    assert val[i] == '#' && val[..i] == v + " ";
    assert CommentAt(val, i) by {
      assert forall x :: x in v + " " ==> x in v || x == ' ';
      UnquotedState(v + " ");
    }
    forall j | 0 <= j < i
      ensures !CommentAt(val, j)
    {
      assert val[j] != '#';
    }
  }

  /** An inline comment after white space is cut off the value. */
  lemma ParseKVInlineComment(k: string, v: string, c: string)
    requires IsPlainKey(k) && !HasPrefix(k, "export ") && IsPlainValue(v) && v != ""
    requires '\'' !in v && '"' !in v && TrimmedBy(c, IsSpace)
    ensures ParseKV(k + "=" + (v + " #" + c)) == Some((k, v))
  {
    var val := v + " #" + c;
    assert val[0] == v[0] && val[|val| - 1] == (if c == "" then '#' else c[|c| - 1]);
    assert TrimmedBy(val, IsSpace);
    assert CleanValue(val) == v by {
      CutAtComment(v, c);
      UnquoteUnquoted(v);
    }
    ParseKVKeyFirst(k, val);
    KeyAssignment(k, val);
  }

  // ---------------------------------------------------------------------------
  // Searching a file

  /** What searchKeyInFile reads from one line of the file. */
  function Entry(line: string): Option<(string, string)> {
    ParseKV(TrimSpace(line))
  }

  /** An entry read from a line assigns to `key`. */
  predicate Binds(e: Option<(string, string)>, key: string) {
    e.Some? && e.value.0 == key
  }

  predicate Defines(line: string, key: string) {
    Binds(Entry(line), key)
  }

  /** The entries of all lines, in order. */
  function Entries(lines: seq<string>): (es: seq<Option<(string, string)>>)
    ensures |es| == |lines|
    decreases |lines|
  {
    if |lines| == 0 then [] else [Entry(lines[0])] + Entries(lines[1..])
  }

  lemma {:induction false} EntriesAt(lines: seq<string>, i: nat)
    requires i < |lines|
    ensures Entries(lines)[i] == Entry(lines[i])
    decreases i
  {
    assert Entries(lines) == [Entry(lines[0])] + Entries(lines[1..]);
    if i > 0 {
      EntriesAt(lines[1..], i - 1);
      assert lines[1..][i - 1] == lines[i];
    }
  }

  /** The value of the first entry assigning to `key`. */
  function Lookup(es: seq<Option<(string, string)>>, key: string): (r: Result<string, Err>)
    ensures r.Failure? ==> r.error == NotFound && Is(r.error, NotFoundKind)
    decreases |es|
  {
    if |es| == 0 then Failure(NotFound)
    else if Binds(es[0], key) then Success(es[0].value.1)
    else Lookup(es[1..], key)
  }

  /** Lookup finds the first binding entry, and fails exactly when there is none. */
  lemma {:induction false} LookupSpec(es: seq<Option<(string, string)>>, key: string)
    ensures Lookup(es, key).Success? ==>
      exists i :: 0 <= i < |es| && es[i] == Some((key, Lookup(es, key).value))
        && (forall j :: 0 <= j < i ==> !Binds(es[j], key))
    ensures Lookup(es, key).Failure? <==> forall j :: 0 <= j < |es| ==> !Binds(es[j], key)
    decreases |es|
  {
    if |es| > 0 && !Binds(es[0], key) {
      var rest := es[1..];
      LookupSpec(rest, key);
      assert forall j :: 1 <= j < |es| ==> es[j] == rest[j - 1];
      if Lookup(rest, key).Success? {
        var i :| 0 <= i < |rest| && rest[i] == Some((key, Lookup(rest, key).value))
          && (forall j :: 0 <= j < i ==> !Binds(rest[j], key));
        assert es[i + 1] == rest[i];
      }
    }
  }

  /** searchKeyInFile over the lines of a file: the value of the first line
      defining `key`, or a not-found error. The empty key is never found. */
  function SearchKey(lines: seq<string>, key: string): (r: Result<string, Err>)
    ensures r.Failure? ==> r.error == NotFound && Is(r.error, NotFoundKind)
  {
    Lookup(Entries(lines), key)
  }

  /** What SearchKey finds: the value of the first line defining `key`, and
      a failure exactly when no line defines it. */
  lemma SearchKeySpec(lines: seq<string>, key: string)
    ensures SearchKey(lines, key).Success? ==>
      exists i :: 0 <= i < |lines| && Entry(lines[i]) == Some((key, SearchKey(lines, key).value))
        && (forall j :: 0 <= j < i ==> !Defines(lines[j], key))
    ensures SearchKey(lines, key).Failure? <==> forall j :: 0 <= j < |lines| ==> !Defines(lines[j], key)
  {
    var es := Entries(lines);
    LookupSpec(es, key);
    forall j | 0 <= j < |lines|
      ensures es[j] == Entry(lines[j])
    {
      EntriesAt(lines, j);
    }
  }

  /** No line defines the empty key, so it is never found. */
  lemma SearchEmptyKey(lines: seq<string>)
    ensures SearchKey(lines, "") == Failure(NotFound)
  {
    SearchKeySpec(lines, "");
  }

  /** A definition in an earlier block of lines hides every later one. */
  lemma SearchKeyAppend(a: seq<string>, b: seq<string>, key: string)
    ensures SearchKey(a, key).Success? ==> SearchKey(a + b, key) == SearchKey(a, key)
    ensures SearchKey(a, key).Failure? ==> SearchKey(a + b, key) == SearchKey(b, key)
  {
    EntriesAppend(a, b);
    LookupAppend(Entries(a), Entries(b), key);
  }

  lemma {:induction false} EntriesAppend(a: seq<string>, b: seq<string>)
    ensures Entries(a + b) == Entries(a) + Entries(b)
    decreases |a|
  {
    if |a| == 0 {
      assert a + b == b;
    } else {
      assert (a + b)[0] == a[0];
      assert (a + b)[1..] == a[1..] + b;
      EntriesAppend(a[1..], b);
    }
  }

  lemma {:induction false} LookupAppend(x: seq<Option<(string, string)>>, y: seq<Option<(string, string)>>, key: string)
    ensures Lookup(x, key).Success? ==> Lookup(x + y, key) == Lookup(x, key)
    ensures Lookup(x, key).Failure? ==> Lookup(x + y, key) == Lookup(y, key)
    decreases |x|
  {
    if |x| == 0 {
      assert x + y == y;
    } else {
      assert (x + y)[0] == x[0];
      assert (x + y)[1..] == x[1..] + y;
      LookupAppend(x[1..], y, key);
    }
  }
}
