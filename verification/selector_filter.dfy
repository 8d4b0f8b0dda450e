/** Filter segments `[field=value]`, the coercion of the raw filter value to a
    typed scalar, and the type-aware comparison used to match it
    (isFilterToken, parseFilterToken, coerce and equalCoerced in
    selector/helpers.go). */
module SelectorFilter {
  import opened Wrappers
  import opened Strings
  import opened Strconv
  import opened Values

  /** A `[field=value]` segment: starts with '[', ends with ']', holds a '='. */
  predicate IsFilterToken(tok: string) {
    |tok| > 0 && tok[0] == '[' && tok[|tok| - 1] == ']' && '=' in tok
  }

  datatype Filter = Filter(field: string, raw: string)

  datatype FilterError = NoEquals(token: string) | EmptyKey(token: string)

  /** The text between an optional leading '[' and an optional trailing ']'. */
  function Inner(tok: string): (r: string)
    ensures |r| <= |tok|
  {
    var t := if |tok| > 0 && tok[0] == '[' then tok[1..] else tok;
    if |t| > 0 && t[|t| - 1] == ']' then t[..|t| - 1] else t
  }

  /** A value both starting and ending with '"', or both with '\'', loses every
      quote character at either end (strings.Trim with the cutset `"'`), not
      just one matching pair. */
  function StripFilterQuotes(v: string): (r: string)
    ensures |r| <= |v|
    ensures |v| > 0 && IsQuote(v[0]) && v[0] == v[|v| - 1] ==> TrimmedBy(r, IsQuote)
    ensures !(|v| > 0 && IsQuote(v[0]) && v[0] == v[|v| - 1]) ==> r == v
  {
    if |v| > 0 && IsQuote(v[0]) && v[0] == v[|v| - 1] then Trim(v, IsQuote) else v
  }

  /** parseFilterToken: the field is the trimmed text before the first '=',
      the value the trimmed, quote-stripped text after it. */
  function ParseFilterToken(tok: string): (r: Result<Filter, FilterError>)
    ensures r.Success? ==> r.value.field != "" && '=' !in r.value.field && TrimmedBy(r.value.field, IsSpace)
    ensures r.Failure? && r.error.NoEquals? <==> '=' !in Inner(tok)
    ensures IsFilterToken(tok) && r.Failure? ==> r.error == EmptyKey(tok)
  {
    var inner := Inner(tok);
    assert IsFilterToken(tok) ==> '=' in inner by {
      if IsFilterToken(tok) {
        var i :| 0 <= i < |tok| && tok[i] == '=';
        assert inner == tok[1..|tok| - 1];
        assert inner[i - 1] == '=';
      }
    }
    match IndexOf(inner, '=')
    case None => Failure(NoEquals(tok))
    case Some(e) =>
      var key := TrimSpace(inner[..e]);
      var value := StripFilterQuotes(TrimSpace(inner[e + 1..]));
      if key == "" then Failure(EmptyKey(tok))
      else
        assert forall x :: x in key ==> x in inner[..e] by {
          TrimSpaceChars(inner[..e]);
        }
        Success(Filter(key, value))
  }

  /** A filter written out as `[field=value]` parses back to the same field and
      value when the field is trimmed and '='-free and the value is trimmed and
      does not start with a quote (the value may contain '=' itself). */
  lemma ParseFilterTokenRoundTrip(field: string, value: string)
    requires field != "" && '=' !in field && TrimmedBy(field, IsSpace)
    requires TrimmedBy(value, IsSpace) && (|value| == 0 || !IsQuote(value[0]))
    ensures IsFilterToken("[" + field + "=" + value + "]")
    ensures ParseFilterToken("[" + field + "=" + value + "]") == Success(Filter(field, value))
  {
    var tok := "[" + field + "=" + value + "]";
    var inner := field + "=" + value;
    assert tok[1..] == inner + "]";
    assert Inner(tok) == inner;
    assert tok[|field| + 1] == '=';
    IndexOfAfterPrefix(field, '=', value);
    assert inner[..|field|] == field;
    assert inner[|field| + 1..] == value;
  }

  /** A quoted value loses its quotes: `[field="w"]` and `[field='w']` yield `w`
      when `w` neither starts nor ends with a quote character. */
  lemma ParseFilterTokenQuoted(field: string, q: char, w: string)
    requires field != "" && '=' !in field && TrimmedBy(field, IsSpace)
    requires IsQuote(q) && TrimmedBy(w, IsQuote)
    ensures ParseFilterToken("[" + field + "=" + ([q] + w + [q]) + "]") == Success(Filter(field, w))
  {
    ParseFilterTokenShape(field, [q] + w + [q]);
    QuotedValueStrips(q, w);
  }

  /** A quoted value is already trimmed of spaces; its quotes are stripped. */
  lemma QuotedValueStrips(q: char, w: string)
    requires IsQuote(q) && TrimmedBy(w, IsQuote)
    ensures StripFilterQuotes(TrimSpace([q] + w + [q])) == w
  {
    var value := [q] + w + [q];
    assert value[0] == q && value[|value| - 1] == q;
    assert TrimSpace(value) == value;
    TrimQuotePair(q, w);
  }

  /** A filter with a trimmed key parses to that key and its cleaned value. */
  lemma ParseFilterTokenShape(field: string, value: string)
    requires field != "" && '=' !in field && TrimmedBy(field, IsSpace)
    ensures ParseFilterToken("[" + field + "=" + value + "]")
      == Success(Filter(field, StripFilterQuotes(TrimSpace(value))))
  {
    ParseFilterTokenSplit(field, value);
  }

  /** For every text `k` without '=' and every `v`, `[k=v]` splits at the '='
      after `k`: a key that trims to nothing is an error, and otherwise the
      filter holds the trimmed key and the trimmed, quote-stripped value. */
  lemma ParseFilterTokenSplit(k: string, v: string)
    requires '=' !in k
    ensures var tok := "[" + k + "=" + v + "]";
      ParseFilterToken(tok)
        == if TrimSpace(k) == "" then Failure(EmptyKey(tok))
           else Success(Filter(TrimSpace(k), StripFilterQuotes(TrimSpace(v))))
  {
    var tok := "[" + k + "=" + v + "]";
    var inner := k + "=" + v;
    assert tok[1..] == inner + "]";
    assert Inner(tok) == inner;
    IndexOfAfterPrefix(k, '=', v);
    assert inner[..|k|] == k;
    assert inner[|k| + 1..] == v;
  }

  /** Every quote character at either end goes, however the quotes are
      mixed, provided the outermost two are the same: `"'v'"` yields `v`. */
  lemma StripFilterQuotesPadded(a: string, w: string, b: string)
    requires |a| > 0 && |b| > 0 && All(a, IsQuote) && All(b, IsQuote) && a[0] == b[|b| - 1]
    requires TrimmedBy(w, IsQuote)
    ensures StripFilterQuotes(a + w + b) == w
  {
    var v := a + w + b;
    assert v[0] == a[0] && v[|v| - 1] == b[|b| - 1];
    TrimPadded(a, w, b, IsQuote);
  }

  /** The value `"'v'"` of the filter `[k="'v'"]` is stripped to `v`. */
  lemma StripFilterQuotesNested()
    ensures StripFilterQuotes("\"'v'\"") == "v"
  {
    StripFilterQuotesPadded("\"'", "v", "'\"");
    assert "\"'" + "v" + "'\"" == "\"'v'\"";
  }

  lemma TrimQuotePair(q: char, w: string)
    requires IsQuote(q) && TrimmedBy(w, IsQuote)
    ensures Trim([q] + w + [q], IsQuote) == w
  {
    var v := [q] + w + [q];
    var l := TrimLeft(v, IsQuote);
    if |w| == 0 {
      assert All(v, IsQuote);
    } else {
      assert l == v[1..] by {
        assert !IsQuote(v[1]);
      }
      assert v[1..] == w + [q];
      var r := TrimRight(l, IsQuote);
      assert r == l[..|l| - 1] by {
        assert !IsQuote(l[|l| - 2]);
      }
    }
  }

  /** coerce: strconv.Atoi first, then strconv.ParseFloat, then a
      case-insensitive "true"/"false" handed to strconv.ParseBool with its
      error ignored; anything else stays the original string. */
  function Coerce(val: string, host: Builtins): (r: Value)
    ensures IsScalar(r) && !r.VNull?
    ensures Atoi(val).Some? ==> r == VInt(Atoi(val).value)
    ensures r.VFloat? <==> Atoi(val).None? && host.parseFloat(val).Some?
    ensures r.VFloat? ==> host.parseFloat(val) == Some(r.f)
    ensures r.VBool? <==>
      Atoi(val).None? && host.parseFloat(val).None? && ToLower(val) in {"true", "false"}
    ensures r.VBool? ==> (r.b <==> val in {"TRUE", "true", "True"})
    ensures r.VStr? ==> r.s == val
    ensures r.VInt? ==> Atoi(val).Some?
    // What no parse accepts stays the original string.
    ensures Atoi(val).None? && host.parseFloat(val).None? && ToLower(val) !in {"true", "false"} ==>
      r == VStr(val)
  {
    match Atoi(val)
    case Some(i) => VInt(i)
    case None =>
      match host.parseFloat(val)
      case Some(f) => VFloat(f)
      case None =>
        var lower := ToLower(val);
        if lower == "true" || lower == "false" then
          VBool(match ParseBool(val) case Some(b) => b case None => false)
        else VStr(val)
  }

  /** The spellings ParseBool accepts as true are exactly the case variants of
      "true" it accepts at all; every other variant, such as "tRuE", becomes false. */
  lemma CoerceBoolQuirk(host: Builtins)
    requires host.parseFloat("tRuE").None? && host.parseFloat("True").None?
    ensures Coerce("tRuE", host) == VBool(false)
    ensures Coerce("True", host) == VBool(true)
  {
    assert ToLower("tRuE") == "true";
    assert ToLower("True") == "true";
  }

  /** A value such as `1a`, which Atoi rejects, is compared as the raw text
      when ParseFloat rejects it too. */
  lemma CoerceNotNumeral(host: Builtins)
    requires host.parseFloat("1a").None?
    ensures Coerce("1a", host) == VStr("1a")
  {
    AtoiRejects();
    assert ToLower("1a") !in {"true", "false"} by {
      assert |ToLower("1a")| == 2;
    }
  }

  /** Integers are tried first: "1" and "0" never become booleans. */
  lemma CoerceNumbersBeforeBools(host: Builtins)
    ensures Coerce("1", host) == VInt(1)
    ensures Coerce("0", host) == VInt(0)
    ensures Coerce("-7", host) == VInt(-7)
  {
    assert Atoi("1") == Some(1) by {
      assert DigitsValue("1") == 1 by { assert "1"[..0] == ""; }
    }
    assert Atoi("0") == Some(0) by {
      assert DigitsValue("0") == 0 by { assert "0"[..0] == ""; }
    }
    assert Atoi("-7") == Some(-7) by {
      assert "-7"[1..] == "7";
      assert DigitsValue("7") == 7 by { assert "7"[..0] == ""; }
    }
  }

  /** Go's int(f): conversion of a float toward zero. */
  function Trunc(f: real): int {
    if f >= 0.0 then f.Floor else -((-f).Floor)
  }

  /** equalCoerced: compares a tree value `v` with the coerced filter value
      `want`. Bool, string and float wants compare only with the same kind;
      an int want compares numerically with ints and integral floats; every
      other pairing compares fmt.Sprint renderings. */
  function EqualCoerced(v: Value, want: Value, host: Builtins): (r: bool)
    ensures want.VBool? && v.VBool? ==> (r <==> v.b == want.b)
    ensures want.VStr? && v.VStr? ==> (r <==> v.s == want.s)
    ensures want.VFloat? && v.VFloat? ==> (r <==> v.f == want.f)
    ensures want.VInt? && v.VInt? ==> (r <==> v.i == want.i)
    ensures want.VInt? && v.VFloat? ==> (r <==> v.f == want.i as real)
    ensures !SameKindPairing(v, want) ==> (r <==> host.sprint(v) == host.sprint(want))
  {
    var fallback := host.sprint(v) == host.sprint(want);
    match want
    case VBool(w) => if v.VBool? then v.b == w else fallback
    case VInt(w) =>
      (match v
       case VInt(x) => x == w
       case VFloat(f) => TruncMatches(f, w); Trunc(f) == w && Trunc(f) as real == f
       case _ => fallback)
    case VFloat(w) => if v.VFloat? then v.f == w else fallback
    case VStr(w) => if v.VStr? then v.s == w else fallback
    case _ => fallback
  }

  /** The pairings equalCoerced decides without the textual fallback. */
  predicate SameKindPairing(v: Value, want: Value) {
    || (want.VBool? && v.VBool?)
    || (want.VStr? && v.VStr?)
    || (want.VFloat? && v.VFloat?)
    || (want.VInt? && (v.VInt? || v.VFloat?))
  }

  /** `int(f) == w && float64(int(f)) == f` holds exactly when f is the integer w. */
  lemma TruncMatches(f: real, w: int)
    ensures (Trunc(f) == w && Trunc(f) as real == f) <==> f == w as real
  {
    if f == w as real {
      if w >= 0 {
        assert f.Floor == w;
      } else {
        assert (-f).Floor == -w;
      }
    }
  }
}
