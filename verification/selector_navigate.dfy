/** Navigate from selector/navigate.go: walks a value tree one path segment at
    a time. A map looks the segment up as a key; a sequence takes a
    `[field=value]` filter or a decimal index; a scalar cannot be descended. */
module SelectorNavigate {
  import opened Wrappers
  import opened Strings
  import opened Strconv
  import opened Values
  import opened SelectorPath
  import opened SelectorFilter
  import opened Seqs

  /** One case per error return of Navigate. The source builds each with
      fmt.Errorf and wraps none of ErrNotFound or ErrBadPath, so they carry
      no error kind. */
  datatype NavError =
    | KeyNotFound(key: string)
    | BadFilter(cause: FilterError)
    | NoMatch(field: string, want: Value)
    | InvalidIndex(segment: string)
    | IndexOutOfBounds(index: int)
    | NotAContainer(segment: string)

  /** An element a filter selects: a map that holds the field with a value
      equalCoerced accepts. */
  predicate Matches(e: Value, field: string, want: Value, host: Builtins) {
    e.VMap? && field in e.m && EqualCoerced(e.m[field], want, host)
  }

  /** The position of the first element the filter selects. */
  function FirstMatch(xs: seq<Value>, field: string, want: Value, host: Builtins): (r: Option<nat>)
    ensures r.Some? ==> r.value < |xs| && Matches(xs[r.value], field, want, host)
    ensures r.Some? ==> forall j :: 0 <= j < r.value ==> !Matches(xs[j], field, want, host)
    ensures r.None? <==> forall j :: 0 <= j < |xs| ==> !Matches(xs[j], field, want, host)
  {
    FirstIndex(xs, e => Matches(e, field, want, host))
  }

  /** One iteration of Navigate's loop: the value `k` leads to from `current`. */
  function Step(current: Value, k: string, host: Builtins): (r: Result<Value, NavError>)
    // A map is looked up even when the segment has the shape of a filter.
    ensures current.VMap? ==> (r.Success? <==> k in current.m)
    ensures current.VMap? && k in current.m ==> r.value == current.m[k]
    ensures current.VMap? && k !in current.m ==> r.error == KeyNotFound(k)
    // A sequence takes a filter when the segment has that shape, else an index.
    ensures current.VSeq? && IsFilterToken(k) ==> r == SelectFirst(current.items, k, host)
    ensures current.VSeq? && !IsFilterToken(k) ==> r == SelectIndex(current.items, k)
    // A scalar has nothing below it.
    ensures IsScalar(current) ==> r == Failure(NotAContainer(k))
  {
    match current
    case VMap(m) => if k in m then Success(m[k]) else Failure(KeyNotFound(k))
    case VSeq(xs) => if IsFilterToken(k) then SelectFirst(xs, k, host) else SelectIndex(xs, k)
    case _ => Failure(NotAContainer(k))
  }

  /** The filter branch of Step: the first element whose field equals the
      coerced filter value; a malformed filter is reported as such. */
  function SelectFirst(xs: seq<Value>, k: string, host: Builtins): (r: Result<Value, NavError>)
    ensures ParseFilterToken(k).Failure? ==> r.Failure? && r.error.BadFilter?
    ensures r.Success? ==> (
      ParseFilterToken(k).Success? &&
      var f := ParseFilterToken(k).value;
      exists i :: 0 <= i < |xs| && r.value == xs[i] && Matches(xs[i], f.field, Coerce(f.raw, host), host)
        && (forall j :: 0 <= j < i ==> !Matches(xs[j], f.field, Coerce(f.raw, host), host)))
    ensures ParseFilterToken(k).Success? ==>
      var f := ParseFilterToken(k).value;
      r.Failure? <==> forall j :: 0 <= j < |xs| ==> !Matches(xs[j], f.field, Coerce(f.raw, host), host)
  {
    match ParseFilterToken(k)
    case Failure(e) => Failure(BadFilter(e))
    case Success(f) => SelectMatching(xs, f.field, Coerce(f.raw, host), host)
  }

  /** The first element the filter `field`=`want` selects, by position. */
  function SelectMatching(xs: seq<Value>, field: string, want: Value, host: Builtins): (r: Result<Value, NavError>)
    ensures r.Success? ==>
      exists i :: 0 <= i < |xs| && r.value == xs[i] && Matches(xs[i], field, want, host)
        && (forall j :: 0 <= j < i ==> !Matches(xs[j], field, want, host))
    ensures r.Failure? <==> forall j :: 0 <= j < |xs| ==> !Matches(xs[j], field, want, host)
    ensures r.Failure? ==> r.error == NoMatch(field, want)
  {
    match FirstMatch(xs, field, want, host)
    case None => Failure(NoMatch(field, want))
    case Some(i) => Success(xs[i])
  }

  /** The index branch of Step. */
  function SelectIndex(xs: seq<Value>, k: string): (r: Result<Value, NavError>)
    ensures Atoi(k).None? ==> r == Failure(InvalidIndex(k))
    ensures Atoi(k).Some? ==>
      var idx := Atoi(k).value;
      if 0 <= idx < |xs| then r == Success(xs[idx])
      else r == Failure(IndexOutOfBounds(idx))
  {
    match Atoi(k)
    case None => Failure(InvalidIndex(k))
    case Some(idx) =>
      if idx < 0 || idx >= |xs| then Failure(IndexOutOfBounds(idx)) else Success(xs[idx])
  }

  /** A segment that is not a whole decimal numeral, such as `1a`, `+` or
      ` 1`, is an invalid index whatever the sequence holds. */
  lemma SelectIndexNotNumeral(xs: seq<Value>)
    ensures SelectIndex(xs, "1a") == Failure(InvalidIndex("1a"))
    ensures SelectIndex(xs, "+") == Failure(InvalidIndex("+"))
    ensures SelectIndex(xs, " 1") == Failure(InvalidIndex(" 1"))
  {
    AtoiRejects();
  }

  /** Navigate: folds Step over the segments, stopping at the first error. */
  function Navigate(root: Value, keys: seq<string>, host: Builtins): (r: Result<Value, NavError>)
    ensures |keys| == 0 ==> r == Success(root)
    ensures |keys| > 0 && Step(root, keys[0], host).Failure? ==> r == Failure(Step(root, keys[0], host).error)
    decreases |keys|
  {
    if |keys| == 0 then Success(root)
    else
      match Step(root, keys[0], host)
      case Failure(e) => Failure(e)
      case Success(v) => Navigate(v, keys[1..], host)
  }

  /** Navigating along `a + b` is navigating along `a`, then along `b` from
      where `a` ended; a failure on `a` is the whole result, whatever `b` is. */
  lemma {:induction false} NavigateAppend(root: Value, a: seq<string>, b: seq<string>, host: Builtins)
    ensures Navigate(root, a, host).Failure? ==> Navigate(root, a + b, host) == Navigate(root, a, host)
    ensures Navigate(root, a, host).Success? ==>
      Navigate(root, a + b, host) == Navigate(Navigate(root, a, host).value, b, host)
    decreases |a|
  {
    if |a| == 0 {
      assert a + b == b;
    } else {
      assert (a + b)[0] == a[0];
      assert (a + b)[1..] == a[1..] + b;
      match Step(root, a[0], host)
      case Failure(e) =>
      case Success(v) => NavigateAppend(v, a[1..], b, host);
    }
  }

  /** A path written with the keys and indices that built a tree. */
  datatype Seg = Key(name: string) | Index(pos: nat)

  /** The subtree at `path`, by structure: keys into maps, indices into sequences. */
  function At(v: Value, path: seq<Seg>): Option<Value>
    decreases |path|
  {
    if |path| == 0 then Some(v)
    else
      match (v, path[0])
      case (VMap(m), Key(k)) => if k in m then At(m[k], path[1..]) else None
      case (VSeq(xs), Index(i)) => if i < |xs| then At(xs[i], path[1..]) else None
      case _ => None
  }

  /** The segment tokens of a path: keys verbatim, indices in decimal. */
  function Encode(path: seq<Seg>): (r: seq<string>)
    ensures |r| == |path|
    ensures forall i :: 0 <= i < |path| && path[i].Index? ==> AllDigits(r[i]) && |r[i]| > 0
    ensures forall i :: 0 <= i < |path| && path[i].Key? ==> r[i] == path[i].name
  {
    if |path| == 0 then []
    else
      var s := match path[0] case Key(k) => k case Index(i) => NatToDecimal(i);
      [s] + Encode(path[1..])
  }

  /** Navigating a tree along the keys and indices that reach a leaf returns
      that leaf unchanged. */
  lemma {:induction false} NavigateAt(v: Value, path: seq<Seg>, leaf: Value, host: Builtins)
    requires At(v, path) == Some(leaf)
    ensures Navigate(v, Encode(path), host) == Success(leaf)
    decreases |path|
  {
    if |path| > 0 {
      var keys := Encode(path);
      assert keys[1..] == Encode(path[1..]);
      match path[0]
      case Key(k) =>
        NavigateAt(v.m[k], path[1..], leaf, host);
      case Index(i) =>
        AtoiRoundTrip(i);
        NavigateAt(v.items[i], path[1..], leaf, host);
    }
  }

  /** The same, starting from the dotted path text: a path whose keys hold no
      '.', '[' or ']' survives ParsePath and reaches the leaf. */
  lemma NavigateParsedPath(v: Value, path: seq<Seg>, leaf: Value, host: Builtins)
    requires |path| > 0
    requires forall i :: 0 <= i < |path| && path[i].Key? ==> IsPlainSegment(path[i].name)
    requires At(v, path) == Some(leaf)
    ensures Navigate(v, ParsePath(JoinDots(Encode(path))), host) == Success(leaf)
  {
    var keys := Encode(path);
    forall i | 0 <= i < |keys|
      ensures IsPlainSegment(keys[i])
    {
      if path[i].Index? {
        assert forall x :: x in keys[i] ==> IsDigit(x);
      }
    }
    ParsePathJoinDots(keys);
    NavigateAt(v, path, leaf, host);
  }

  /** A filter on an integer matches a field the adapter stored as an integral
      float: `[id=1]` selects a map whose `id` is 1.0. */
  lemma FilterIntMatchesIntegralFloat(field: string, n: int, rest: map<string, Value>, host: Builtins)
    requires field != "" && '=' !in field && TrimmedBy(field, IsSpace)
    ensures var elem := VMap(rest[field := VFloat(n as real)]);
      Step(VSeq([elem]), "[" + field + "=" + IntToDecimal(n) + "]", host) == Success(elem)
  {
    var tok := "[" + field + "=" + IntToDecimal(n) + "]";
    IntFilterParses(field, n);
    IntFilterMatches(field, n, rest, host);
    FilterSelectsSingle(VMap(rest[field := VFloat(n as real)]), tok, host);
  }

  lemma IntFilterParses(field: string, n: int)
    requires field != "" && '=' !in field && TrimmedBy(field, IsSpace)
    ensures var tok := "[" + field + "=" + IntToDecimal(n) + "]";
      IsFilterToken(tok) && ParseFilterToken(tok) == Success(Filter(field, IntToDecimal(n)))
  {
    DecimalIsTrimmed(n);
    ParseFilterTokenRoundTrip(field, IntToDecimal(n));
  }

  lemma IntFilterMatches(field: string, n: int, rest: map<string, Value>, host: Builtins)
    ensures Matches(VMap(rest[field := VFloat(n as real)]), field, Coerce(IntToDecimal(n), host), host)
  {
    AtoiRoundTrip(n);
    assert Coerce(IntToDecimal(n), host) == VInt(n);
  }

  /** A filter that a sequence's only element matches selects that element. */
  lemma FilterSelectsSingle(elem: Value, tok: string, host: Builtins)
    requires IsFilterToken(tok) && ParseFilterToken(tok).Success?
    requires var f := ParseFilterToken(tok).value; Matches(elem, f.field, Coerce(f.raw, host), host)
    ensures Step(VSeq([elem]), tok, host) == Success(elem)
  {
    var f := ParseFilterToken(tok).value;
    assert FirstMatch([elem], f.field, Coerce(f.raw, host), host) == Some(0);
  }

  /** A decimal numeral starts with '-' or a digit and ends with a digit. */
  lemma DecimalIsTrimmed(n: int)
    ensures var d := IntToDecimal(n);
      TrimmedBy(d, IsSpace) && !IsQuote(d[0])
  {
    var m := if n < 0 then -n else n;
    var ds := NatToDecimal(m);
    assert IsDigit(ds[0]) && IsDigit(ds[|ds| - 1]);
    if n < 0 {
      assert IntToDecimal(n)[|IntToDecimal(n)| - 1] == ds[|ds| - 1];
    }
  }
}
