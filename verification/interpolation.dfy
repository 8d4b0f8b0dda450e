/** The `${...}` interpolation engine of interpolation.go: repeated
    left-to-right passes, each replacing every token it meets with what the
    resolver returns, until a pass expands nothing or the pass budget runs out. */
module Interpolation {
  import opened Wrappers
  import opened Strings
  import opened Errors

  /** The registry's ResolveVariable, seen from the engine: a token's text in,
      its value or an error out. The registry is not part of this model. */
  type Resolver = string -> Result<string, Err>

  /** The text one pass built, and whether it expanded at least one token. */
  datatype Scanned = Scanned(text: string, expanded: bool)

  /** `p` written before what the rest of the pass builds; errors pass through. */
  function Emit(p: string, r: Result<Scanned, Err>, expanded: bool): Result<Scanned, Err> {
    match r
    case Failure(e) => Failure(e)
    case Success(sc) => Success(Scanned(p + sc.text, sc.expanded || expanded))
  }

  /** isEscapedDollarBrace: a '\' right before the '$' at `d`, inside the
      unscanned text, and a '{' right after it. */
  predicate IsEscapedDollarBrace(t: string, d: nat)
    requires d < |t|
  {
    d > 0 && t[d - 1] == '\\' && d + 1 < |t| && t[d + 1] == '{'
  }

  /** isTokenStart: the '$' at `d` is followed by '{'. */
  predicate IsTokenStart(t: string, d: nat)
    requires d < |t|
  {
    d + 1 < |t| && t[d + 1] == '{'
  }

  /** tokenBounds, given the text after a "${": the token runs up to the
      first '}', which must exist, and must not be blank. Yields the token and
      the text after its '}'. */
  function TokenBounds(body: string): (r: Result<(string, string), Err>)
    ensures r.Success? ==> var n := |r.value.0|;
      n < |body| && r.value.0 == body[..n] && body[n] == '}' && r.value.1 == body[n + 1..]
    ensures r.Success? ==> '}' !in r.value.0 && !All(r.value.0, IsSpace)
    ensures '}' !in body <==> r == Failure(BadPath(MissingClosingBrace))
    ensures '}' in body && r.Failure? ==> r.error == BadPath(EmptyToken)
  {
    match IndexOf(body, '}')
    case None => Failure(BadPath(MissingClosingBrace))
    case Some(e) =>
      var tok := body[..e];
      if TrimSpace(tok) == "" then Failure(BadPath(EmptyToken))
      else
        Success((tok, body[e + 1..]))
  }

  /** A token's bounds, then its value from the resolver; a resolver error
      comes back wrapped with the token (`resolve ${token}: cause`). Yields
      the value and the text after the token's '}'. */
  function ExpandToken(body: string, resolve: Resolver): (r: Result<(string, string), Err>)
    ensures r.Success? ==> |r.value.1| < |body|
    ensures TokenBounds(body).Failure? ==> r == Failure(TokenBounds(body).error)
    // Success means the resolver succeeded on the bounded token; its value
    // replaces the token and scanning resumes after the closing brace.
    ensures r.Success? <==> TokenBounds(body).Success? && resolve(TokenBounds(body).value.0).Success?
    ensures r.Success? ==>
      resolve(TokenBounds(body).value.0) == Success(r.value.0) && r.value.1 == TokenBounds(body).value.1
    // A resolver failure is reported wrapped with the token it was asked for.
    ensures TokenBounds(body).Success? && resolve(TokenBounds(body).value.0).Failure? ==>
      r.error == Wrapped(TokenBounds(body).value.0, resolve(TokenBounds(body).value.0).error)
  {
    var bounds :- TokenBounds(body);
    var (tok, rest) := bounds;
    match resolve(tok)
    case Failure(e) => Failure(Wrapped(tok, e))
    case Success(v) => Success((v, rest))
  }

  /** What one iteration of the pass loop does with the text it has not
      scanned yet: the text it writes, the text left to scan, and whether it
      expanded a token. */
  datatype Chunk = Chunk(written: string, rest: string, expanded: bool)

  /** One iteration at the '$' at `d`: an escaped `\${` is written as `${`
      (backslash dropped), a '$' without '{' is written as is, and `${`
      starts a token that is replaced by its value. Only a token expands. */
  function StepAt(t: string, d: nat, resolve: Resolver): (r: Result<Chunk, Err>)
    requires d < |t| && t[d] == '$'
    ensures r.Success? ==> |r.value.rest| < |t|
    ensures r.Success? && r.value.expanded ==> IsTokenStart(t, d)
  {
    if IsEscapedDollarBrace(t, d) then Success(Chunk(t[..d - 1] + "${", t[d + 2..], false))
    else if !IsTokenStart(t, d) then Success(Chunk(t[..d] + "$", t[d + 1..], false))
    else
      match ExpandToken(t[d + 2..], resolve)
      case Failure(e) => Failure(e)
      case Success(vr) => Success(Chunk(t[..d] + vr.0, vr.1, true))
  }

  /** One pass of resolveStringDepth over the text not yet scanned: jumps to
      the next '$' and takes one step there, until no '$' is left. */
  function Pass(t: string, resolve: Resolver): Result<Scanned, Err>
    decreases |t|
  {
    match IndexOf(t, '$')
    case None => Success(Scanned(t, false))
    case Some(d) =>
      match StepAt(t, d, resolve)
      case Failure(e) => Failure(e)
      case Success(c) => Emit(c.written, Pass(c.rest, resolve), c.expanded)
  }

  /** A pass changes nothing in text without "${", and expands a token only
      when the text has one. */
  lemma {:induction false} PassUnchanged(t: string, resolve: Resolver)
    ensures !HasPair(t, '$', '{') ==> Pass(t, resolve) == Success(Scanned(t, false))
    ensures Pass(t, resolve).Success? && Pass(t, resolve).value.expanded ==> HasPair(t, '$', '{')
    decreases |t|
  {
    match IndexOf(t, '$')
    case None =>
    case Some(d) =>
      if IsEscapedDollarBrace(t, d) || IsTokenStart(t, d) {
        assert t[d] == '$' && t[d + 1] == '{';
      } else {
        assert StepAt(t, d, resolve) == Success(Chunk(t[..d] + "$", t[d + 1..], false));
        PassUnchanged(t[d + 1..], resolve);
        HasPairInfix(t, d + 1, '$', '{');
        LiteralDollarSplit(t, d);
      }
  }

  /** Proof step of PassUnchanged: the text around a lone '$'. */
  lemma LiteralDollarSplit(t: string, d: nat)
    requires d < |t| && t[d] == '$'
    ensures t[..d] + "$" + t[d + 1..] == t
  {
  }

  /** The pass loop: stops with the text as soon as a pass expands nothing;
      with the budget spent, any "${" left over means depth exceeded. */
  function Passes(out: string, n: nat, resolve: Resolver): (r: Result<string, Err>)
    ensures !HasPair(out, '$', '{') ==> r == Success(out)
    ensures n == 0 ==> (r.Success? <==> !HasPair(out, '$', '{'))
    decreases n
  {
    if n == 0 then
      if HasPair(out, '$', '{') then Failure(BadPath(DepthExceeded)) else Success(out)
    else
      PassUnchanged(out, resolve);
      match Pass(out, resolve)
      case Failure(e) => Failure(e)
      case Success(sc) => if !sc.expanded then Success(sc.text) else Passes(sc.text, n - 1, resolve)
  }

  /** resolveStringDepth: at most `maxDepth` passes; `for range maxDepth`
      runs no pass at all when maxDepth is zero or negative. */
  function ResolveStringDepth(s: string, maxDepth: int, resolve: Resolver): (r: Result<string, Err>)
    ensures !HasPair(s, '$', '{') ==> r == Success(s)
    ensures maxDepth <= 0 ==> (r.Success? <==> !HasPair(s, '$', '{'))
  {
    Passes(s, if maxDepth > 0 then maxDepth else 0, resolve)
  }

  /** ResolveString: eight passes. */
  function ResolveString(s: string, resolve: Resolver): (r: Result<string, Err>)
    ensures !HasPair(s, '$', '{') ==> r == Success(s)
  {
    ResolveStringDepth(s, 8, resolve)
  }

  /** A pass fails only with a token's own error, never with depth exceeded. */
  lemma {:induction false} PassNotDepth(t: string, resolve: Resolver)
    ensures Pass(t, resolve).Failure? ==> Pass(t, resolve).error != BadPath(DepthExceeded)
    decreases |t|
  {
    match IndexOf(t, '$')
    case None =>
    case Some(d) =>
      if StepAt(t, d, resolve).Success? {
        PassNotDepth(StepAt(t, d, resolve).value.rest, resolve);
      }
  }

  /** What the loop reports once its budget is spent on text `t`. */
  function Finish(t: string): Result<string, Err> {
    if HasPair(t, '$', '{') then Failure(BadPath(DepthExceeded)) else Success(t)
  }

  /** The text after `k` passes that all succeeded and all expanded a token,
      or None when one of them failed or expanded nothing. In the first case
      the loop, given `k` passes, ends on that text as its spent budget
      dictates; in the second it stops early, and not with depth exceeded. */
  function After(s: string, k: nat, resolve: Resolver): (a: Option<string>)
    ensures a.Some? ==> Passes(s, k, resolve) == Finish(a.value)
    ensures a.None? ==> Passes(s, k, resolve) != Failure(BadPath(DepthExceeded))
    decreases k
  {
    if k == 0 then Some(s)
    else
      match Pass(s, resolve)
      case Failure(_) => PassNotDepth(s, resolve); None
      case Success(sc) => if sc.expanded then After(sc.text, k - 1, resolve) else None
  }

  /** resolveStringDepth reports depth exceeded exactly when its budget of
      passes is spent, each of them having expanded a token, and "${" is
      still left; a budget of zero or less runs no pass. */
  lemma ResolveStringDepthExceeded(s: string, maxDepth: int, resolve: Resolver)
    ensures var n := if maxDepth > 0 then maxDepth else 0;
      (ResolveStringDepth(s, maxDepth, resolve) == Failure(BadPath(DepthExceeded)))
      <==> (After(s, n, resolve).Some? && HasPair(After(s, n, resolve).value, '$', '{'))
    ensures var n := if maxDepth > 0 then maxDepth else 0;
      (After(s, n, resolve).Some? && !HasPair(After(s, n, resolve).value, '$', '{'))
      ==> ResolveStringDepth(s, maxDepth, resolve) == Success(After(s, n, resolve).value)
  {
  }

  // ---------------------------------------------------------------------
  // A character-by-character reference scanner, and its agreement with Pass.

  /** One pass written one character at a time: `\${` becomes `${`, `${`
      starts a token, any other character is copied. */
  function RefPass(t: string, resolve: Resolver): Result<Scanned, Err>
    decreases |t|
  {
    if |t| == 0 then Success(Scanned("", false))
    else if |t| >= 3 && t[0] == '\\' && t[1] == '$' && t[2] == '{' then
      Emit("${", RefPass(t[3..], resolve), false)
    else if |t| >= 2 && t[0] == '$' && t[1] == '{' then
      match ExpandToken(t[2..], resolve)
      case Failure(e) => Failure(e)
      case Success(vr) => Emit(vr.0, RefPass(vr.1, resolve), true)
    else
      Emit([t[0]], RefPass(t[1..], resolve), false)
  }

  lemma EmitEmit(a: string, b: string, r: Result<Scanned, Err>, x: bool)
    ensures Emit(a, Emit(b, r, x), false) == Emit(a + b, r, x)
  {
    if r.Success? {
      assert a + (b + r.value.text) == (a + b) + r.value.text;
    }
  }

  lemma PrefixCons(t: string, k: nat, x: string)
    requires 1 <= k <= |t|
    ensures t[..k] + x == [t[0]] + (t[1..][..k - 1] + x)
  {
    assert t[..k] == [t[0]] + t[1..][..k - 1];
  }

  /** Pass on text whose first character is copied literally: the character,
      then the pass over the rest. */
  lemma PassCons(t: string, resolve: Resolver)
    requires |t| > 0 && t[0] != '$'
    requires !(|t| >= 3 && t[0] == '\\' && t[1] == '$' && t[2] == '{')
    ensures Pass(t, resolve) == Emit([t[0]], Pass(t[1..], resolve), false)
  {
    var u := t[1..];
    assert t == [t[0]] + u;
    match IndexOf(u, '$')
    case None =>
    case Some(d) =>
      assert IndexOf(t, '$') == Some(d + 1);
      StepAtCons(t, d, resolve);
      match StepAt(u, d, resolve)
      case Failure(_) =>
      case Success(c) =>
        EmitEmit([t[0]], c.written, Pass(c.rest, resolve), c.expanded);
  }

  /** A step one character further into the text writes that character
      first and leaves the same rest. */
  lemma StepAtCons(t: string, d: nat, resolve: Resolver)
    requires d + 1 < |t| && t[d + 1] == '$'
    requires !(|t| >= 3 && t[0] == '\\' && t[1] == '$' && t[2] == '{')
    ensures StepAt(t[1..], d, resolve).Failure? ==>
      StepAt(t, d + 1, resolve) == StepAt(t[1..], d, resolve)
    ensures StepAt(t[1..], d, resolve).Success? ==>
      var c := StepAt(t[1..], d, resolve).value;
      StepAt(t, d + 1, resolve) == Success(Chunk([t[0]] + c.written, c.rest, c.expanded))
  {
    var u := t[1..];
    assert IsEscapedDollarBrace(t, d + 1) == IsEscapedDollarBrace(u, d);
    assert IsTokenStart(t, d + 1) == IsTokenStart(u, d);
    if IsEscapedDollarBrace(u, d) {
      assert t[d + 3..] == u[d + 2..];
      PrefixCons(t, d, "${");
    } else if !IsTokenStart(u, d) {
      assert t[d + 2..] == u[d + 1..];
      PrefixCons(t, d + 1, "$");
    } else {
      assert t[d + 1 + 2..] == u[d + 2..];
      if ExpandToken(u[d + 2..], resolve).Success? {
        PrefixCons(t, d + 1, ExpandToken(u[d + 2..], resolve).value.0);
      }
    }
  }

  lemma PassEscapeFirst(t: string, resolve: Resolver)
    requires |t| >= 3 && t[0] == '\\' && t[1] == '$' && t[2] == '{'
    ensures Pass(t, resolve) == Emit("${", Pass(t[3..], resolve), false)
  {
    assert IndexOf(t, '$') == Some(1);
    assert StepAt(t, 1, resolve) == Success(Chunk("${", t[3..], false)) by {
      assert t[..0] + "${" == "${";
    }
  }

  lemma PassLiteralDollarFirst(t: string, resolve: Resolver)
    requires |t| > 0 && t[0] == '$' && !(|t| >= 2 && t[1] == '{')
    ensures Pass(t, resolve) == Emit("$", Pass(t[1..], resolve), false)
  {
    assert IndexOf(t, '$') == Some(0);
    assert StepAt(t, 0, resolve) == Success(Chunk("$", t[1..], false)) by {
      assert t[..0] + "$" == "$";
    }
  }

  lemma PassTokenFirst(t: string, resolve: Resolver)
    requires |t| >= 2 && t[0] == '$' && t[1] == '{'
    ensures ExpandToken(t[2..], resolve).Failure? ==>
      Pass(t, resolve) == Failure(ExpandToken(t[2..], resolve).error)
    ensures ExpandToken(t[2..], resolve).Success? ==>
      var vr := ExpandToken(t[2..], resolve).value;
      Pass(t, resolve) == Emit(vr.0, Pass(vr.1, resolve), true)
  {
    assert IndexOf(t, '$') == Some(0);
    assert !IsEscapedDollarBrace(t, 0) && IsTokenStart(t, 0);
    var body := t[0 + 2..];
    assert body == t[2..];
    if ExpandToken(body, resolve).Success? {
      var vr := ExpandToken(body, resolve).value;
      assert t[..0] + vr.0 == vr.0;
      assert StepAt(t, 0, resolve) == Success(Chunk(vr.0, vr.1, true));
    }
  }

  /** The jump-to-next-'$' pass and the character-by-character scanner agree
      on every input and every resolver. */
  lemma {:induction false} PassIsRefPass(t: string, resolve: Resolver)
    ensures Pass(t, resolve) == RefPass(t, resolve)
    decreases |t|
  {
    if |t| == 0 {
    } else if |t| >= 3 && t[0] == '\\' && t[1] == '$' && t[2] == '{' {
      PassEscapeFirst(t, resolve);
      PassIsRefPass(t[3..], resolve);
    } else if |t| >= 2 && t[0] == '$' && t[1] == '{' {
      PassTokenFirst(t, resolve);
      match ExpandToken(t[2..], resolve)
      case Failure(e) =>
      case Success(vr) => PassIsRefPass(vr.1, resolve);
    } else if t[0] == '$' {
      PassLiteralDollarFirst(t, resolve);
      PassIsRefPass(t[1..], resolve);
    } else {
      PassCons(t, resolve);
      PassIsRefPass(t[1..], resolve);
    }
  }

  /** Text with no '$' and no '\' is copied through by the scanner. */
  lemma {:induction false} RefPassLiteralPrefix(pre: string, w: string, resolve: Resolver)
    requires '$' !in pre && '\\' !in pre
    ensures RefPass(pre + w, resolve) == Emit(pre, RefPass(w, resolve), false)
    decreases |pre|
  {
    if |pre| == 0 {
      assert pre + w == w;
      match RefPass(w, resolve)
      case Failure(_) =>
      case Success(sc) => assert pre + sc.text == sc.text;
    } else {
      var t := pre + w;
      assert t[1..] == pre[1..] + w;
      assert t[0] == pre[0];
      RefPassLiteralPrefix(pre[1..], w, resolve);
      EmitEmit([pre[0]], pre[1..], RefPass(w, resolve), false);
      assert [pre[0]] + pre[1..] == pre;
    }
  }

  // ---------------------------------------------------------------------
  // Properties of whole resolutions.

  lemma NoDollarNoPair(s: string)
    requires '$' !in s
    ensures !HasPair(s, '$', '{')
  {
  }

  /** The bounds of a token followed by '}' are that token and what follows. */
  lemma TokenBoundsOf(tok: string, post: string)
    requires '}' !in tok && !All(tok, IsSpace)
    ensures TokenBounds(tok + "}" + post) == Success((tok, post))
  {
    var body := tok + "}" + post;
    IndexOfAfterPrefix(tok, '}', post);
    assert body[..|tok|] == tok;
    assert body[|tok| + 1..] == post;
  }

  lemma RefPassTokenFirst(tok: string, post: string, resolve: Resolver)
    requires '}' !in tok && !All(tok, IsSpace)
    ensures resolve(tok).Failure? ==>
      RefPass("${" + tok + "}" + post, resolve) == Failure(Wrapped(tok, resolve(tok).error))
    ensures resolve(tok).Success? ==>
      RefPass("${" + tok + "}" + post, resolve) == Emit(resolve(tok).value, RefPass(post, resolve), true)
  {
    var w := "${" + tok + "}" + post;
    assert w[0] == '$' && w[1] == '{' && w[2..] == tok + "}" + post;
    TokenBoundsOf(tok, post);
    var x := ExpandToken(tok + "}" + post, resolve);
    assert x.Success? ==> x.value == (resolve(tok).value, post);
  }

  /** One token between plain text: a pass writes the text around it and the
      resolver's value in its place. */
  lemma PassSingleToken(pre: string, tok: string, post: string, v: string, resolve: Resolver)
    requires '$' !in pre && '\\' !in pre && '$' !in post
    requires '}' !in tok && !All(tok, IsSpace)
    requires resolve(tok) == Success(v)
    ensures Pass(pre + "${" + tok + "}" + post, resolve) == Success(Scanned(pre + v + post, true))
  {
    var w := "${" + tok + "}" + post;
    TokenTextAssoc(pre, tok, post, v);
    PassIsRefPass(pre + w, resolve);
    RefPassLiteralPrefix(pre, w, resolve);
    RefPassTokenFirst(tok, post, resolve);
    RefPassPlain(post, resolve);
  }

  /** Proof step of PassSingleToken: regroups the text around the token. */
  lemma TokenTextAssoc(pre: string, tok: string, post: string, v: string)
    ensures pre + "${" + tok + "}" + post == pre + ("${" + tok + "}" + post)
    ensures pre + (v + post) == pre + v + post
  {
  }

  /** A single token whose value, in place, leaves no "${" behind resolves in
      one pass at any budget of at least one. */
  lemma ResolveSingleToken(pre: string, tok: string, post: string, v: string, n: int, resolve: Resolver)
    requires '$' !in pre && '\\' !in pre && '$' !in post
    requires '}' !in tok && !All(tok, IsSpace)
    requires resolve(tok) == Success(v)
    requires !HasPair(pre + v + post, '$', '{')
    requires n >= 1
    ensures ResolveStringDepth(pre + "${" + tok + "}" + post, n, resolve) == Success(pre + v + post)
  {
    PassSingleToken(pre, tok, post, v, resolve);
  }

  /** A resolver's error ends the resolution, wrapped with its token; the
      wrapping keeps the error's kind for errors.Is. */
  lemma ResolverErrorWrapped(tok: string, e: Err, n: int, resolve: Resolver)
    requires '}' !in tok && !All(tok, IsSpace)
    requires resolve(tok) == Failure(e)
    requires n >= 1
    ensures ResolveStringDepth("${" + tok + "}", n, resolve) == Failure(Wrapped(tok, e))
    ensures forall k :: Is(Wrapped(tok, e), k) == Is(e, k)
  {
    var t := "${" + tok + "}";
    assert t == "${" + tok + "}" + "";
    RefPassTokenFirst(tok, "", resolve);
    PassIsRefPass(t, resolve);
  }

  /** "${" with no '}' after it is malformed at any budget of at least one;
      with no pass at all it is reported as depth exceeded instead. */
  lemma MissingClosingBraceIsBadPath(body: string, n: int, resolve: Resolver)
    requires '}' !in body
    ensures n >= 1 ==> ResolveStringDepth("${" + body, n, resolve) == Failure(BadPath(MissingClosingBrace))
    ensures n <= 0 ==> ResolveStringDepth("${" + body, n, resolve) == Failure(BadPath(DepthExceeded))
  {
    var t := "${" + body;
    assert IndexOf(t, '$') == Some(0);
    assert t[2..] == body;
    assert t[0] == '$' && t[1] == '{';
  }

  /** A blank `${ }` is malformed at any budget of at least one. */
  lemma BlankTokenIsBadPath(ws: string, rest: string, n: int, resolve: Resolver)
    requires All(ws, IsSpace)
    requires n >= 1
    ensures ResolveStringDepth("${" + ws + "}" + rest, n, resolve) == Failure(BadPath(EmptyToken))
  {
    var body := ws + "}" + rest;
    OpenThenBody(ws, rest);
    TokenBoundsBlank(ws, rest);
    PassOpen(body, resolve);
  }

  /** Proof step of BlankTokenIsBadPath: splits the text after the opening `${`. */
  lemma OpenThenBody(tok: string, rest: string)
    ensures "${" + tok + "}" + rest == "${" + (tok + "}" + rest)
  {
  }

  /** A pass over text that opens with "${": the first token's value, then
      the pass over what follows its '}'. */
  lemma PassOpen(body: string, resolve: Resolver)
    ensures ExpandToken(body, resolve).Failure? ==>
      Pass("${" + body, resolve) == Failure(ExpandToken(body, resolve).error)
    ensures ExpandToken(body, resolve).Success? ==>
      var vr := ExpandToken(body, resolve).value;
      Pass("${" + body, resolve) == Emit(vr.0, Pass(vr.1, resolve), true)
  {
    var t := "${" + body;
    assert t[2..] == body;
    PassTokenFirst(t, resolve);
  }

  /** A blank token's bounds are an empty-token error. */
  lemma TokenBoundsBlank(ws: string, rest: string)
    requires All(ws, IsSpace)
    ensures TokenBounds(ws + "}" + rest) == Failure(BadPath(EmptyToken))
  {
    assert '}' !in ws by {
      assert forall i :: 0 <= i < |ws| ==> IsSpace(ws[i]);
    }
    IndexOfAfterPrefix(ws, '}', rest);
    assert (ws + "}" + rest)[..|ws|] == ws;
  }

  /** A successful resolution is final: more passes give the same text. */
  lemma PassesMonotone(s: string, n: nat, resolve: Resolver)
    requires Passes(s, n, resolve).Success?
    ensures Passes(s, n + 1, resolve) == Passes(s, n, resolve)
  {
    var cur: string, k: nat := s, n;
    if k > 0 {
      PassesSucceeded(cur, k, resolve);
    }
    while k > 0 && Pass(cur, resolve).value.expanded
      invariant k > 0 ==> Pass(cur, resolve).Success?
      invariant Passes(cur, k, resolve).Success?
      invariant Passes(s, n, resolve) == Passes(cur, k, resolve)
      invariant Passes(s, n + 1, resolve) == Passes(cur, k + 1, resolve)
      decreases k
    {
      PassesExpanded(cur, k, resolve);
      PassesExpanded(cur, k + 1, resolve);
      cur, k := Pass(cur, resolve).value.text, k - 1;
      if k > 0 {
        PassesSucceeded(cur, k, resolve);
      }
    }
    if k == 0 {
      assert !HasPair(cur, '$', '{');
    } else {
      PassesSettled(cur, k, resolve);
      PassesSettled(cur, k + 1, resolve);
    }
  }

  lemma PassesSucceeded(s: string, n: nat, resolve: Resolver)
    requires n > 0 && Passes(s, n, resolve).Success?
    ensures Pass(s, resolve).Success?
  {
  }

  lemma PassesExpanded(s: string, n: nat, resolve: Resolver)
    requires n > 0 && Pass(s, resolve).Success? && Pass(s, resolve).value.expanded
    ensures Passes(s, n, resolve) == Passes(Pass(s, resolve).value.text, n - 1, resolve)
  {
  }

  lemma PassesSettled(s: string, n: nat, resolve: Resolver)
    requires n > 0 && Pass(s, resolve).Success? && !Pass(s, resolve).value.expanded
    ensures Passes(s, n, resolve) == Success(Pass(s, resolve).value.text)
  {
  }

  lemma ResolveStringDepthMonotone(s: string, n: int, m: int, resolve: Resolver)
    requires 0 <= n <= m
    requires ResolveStringDepth(s, n, resolve).Success?
    ensures ResolveStringDepth(s, m, resolve) == ResolveStringDepth(s, n, resolve)
  {
    PassesMonotoneFrom(s, n, m, resolve);
  }

  lemma {:induction false} PassesMonotoneFrom(s: string, n: nat, m: nat, resolve: Resolver)
    requires n <= m
    requires Passes(s, n, resolve).Success?
    ensures Passes(s, m, resolve) == Passes(s, n, resolve)
    decreases m - n
  {
    if n < m {
      PassesMonotone(s, n, resolve);
      PassesMonotoneFrom(s, n + 1, m, resolve);
    }
  }

  /** A pass that expands tokens yet reproduces its input (a value that
      reintroduces its own token) is reported as depth exceeded at every
      budget. */
  lemma FixedPointExceedsDepth(s: string, n: nat, resolve: Resolver)
    requires Pass(s, resolve) == Success(Scanned(s, true))
    ensures Passes(s, n, resolve) == Failure(BadPath(DepthExceeded))
  {
    FixedPointNoBudget(s, resolve);
    var k := 0;
    while k < n
      invariant k <= n
      invariant Passes(s, k, resolve) == Failure(BadPath(DepthExceeded))
    {
      k := k + 1;
      PassesRepeat(s, k, resolve);
    }
  }

  lemma PassesRepeat(s: string, n: nat, resolve: Resolver)
    requires n > 0
    requires Pass(s, resolve) == Success(Scanned(s, true))
    ensures Passes(s, n, resolve) == Passes(s, n - 1, resolve)
  {
  }

  lemma FixedPointNoBudget(s: string, resolve: Resolver)
    requires Pass(s, resolve) == Success(Scanned(s, true))
    ensures Passes(s, 0, resolve) == Failure(BadPath(DepthExceeded))
  {
    PassUnchanged(s, resolve);
  }

  lemma FixedPointExceedsEveryDepth(s: string, n: int, resolve: Resolver)
    requires Pass(s, resolve) == Success(Scanned(s, true))
    ensures ResolveStringDepth(s, n, resolve) == Failure(BadPath(DepthExceeded))
  {
    FixedPointExceedsDepth(s, if n > 0 then n else 0, resolve);
  }

  /** A token whose value is the token itself is reported as depth exceeded
      at every budget. */
  lemma SelfReferenceExceedsDepth(pre: string, tok: string, post: string, n: int, resolve: Resolver)
    requires '$' !in pre && '\\' !in pre && '$' !in post
    requires '}' !in tok && !All(tok, IsSpace)
    requires resolve(tok) == Success("${" + tok + "}")
    ensures ResolveStringDepth(pre + "${" + tok + "}" + post, n, resolve) == Failure(BadPath(DepthExceeded))
  {
    SelfReferenceIsFixedPoint(pre, tok, post, resolve);
    FixedPointExceedsEveryDepth(pre + "${" + tok + "}" + post, n, resolve);
  }

  lemma SelfReferenceIsFixedPoint(pre: string, tok: string, post: string, resolve: Resolver)
    requires '$' !in pre && '\\' !in pre && '$' !in post
    requires '}' !in tok && !All(tok, IsSpace)
    requires resolve(tok) == Success("${" + tok + "}")
    ensures var s := pre + "${" + tok + "}" + post;
      Pass(s, resolve) == Success(Scanned(s, true))
  {
    var s := pre + "${" + tok + "}" + post;
    assert pre + ("${" + tok + "}") + post == s;
    PassSingleToken(pre, tok, post, "${" + tok + "}", resolve);
  }

  // ---------------------------------------------------------------------
  // The behaviours the repository's own tests describe.

  lemma RefPassPlain(s: string, resolve: Resolver)
    requires '$' !in s
    ensures RefPass(s, resolve) == Success(Scanned(s, false))
  {
    NoDollarNoPair(s);
    PassUnchanged(s, resolve);
    PassIsRefPass(s, resolve);
  }

  lemma RefPassEscapeFirst(rest: string, resolve: Resolver)
    ensures RefPass("\\${" + rest, resolve) == Emit("${", RefPass(rest, resolve), false)
  {
    assert ("\\${" + rest)[3..] == rest;
  }

  /** A token whose value holds a second token needs two passes: one pass
      is reported as depth exceeded, two or more give the fully expanded text. */
  lemma TwoLevelExpansion(pre: string, t1: string, mid1: string, t2: string, mid2: string,
                          post: string, v2: string, n: int, resolve: Resolver)
    requires '$' !in pre && '\\' !in pre && '$' !in mid1 && '\\' !in mid1
    requires '$' !in mid2 && '$' !in post
    requires '}' !in t1 && !All(t1, IsSpace) && '}' !in t2 && !All(t2, IsSpace)
    requires resolve(t1) == Success(mid1 + "${" + t2 + "}" + mid2)
    requires resolve(t2) == Success(v2)
    requires !HasPair(pre + mid1 + v2 + mid2 + post, '$', '{')
    ensures n == 1 ==> ResolveStringDepth(pre + "${" + t1 + "}" + post, n, resolve) == Failure(BadPath(DepthExceeded))
    ensures n >= 2 ==> ResolveStringDepth(pre + "${" + t1 + "}" + post, n, resolve) == Success(pre + mid1 + v2 + mid2 + post)
  {
    var s0 := pre + "${" + t1 + "}" + post;
    var s1 := (pre + mid1) + "${" + t2 + "}" + (mid2 + post);
    FirstOfTwoLevels(pre, t1, mid1, t2, mid2, post, resolve);
    SecondOfTwoLevels(pre, mid1, t2, mid2, post, v2, resolve);
    if n == 1 {
      TokenHasPair(pre + mid1, t2, mid2 + post);
      PassesExpanded(s0, 1, resolve);
    } else if n >= 2 {
      PassesExpanded(s0, n, resolve);
      PassesExpanded(s1, n - 1, resolve);
    }
  }

  lemma SecondOfTwoLevels(pre: string, mid1: string, t2: string, mid2: string, post: string,
                          v2: string, resolve: Resolver)
    requires '$' !in pre && '\\' !in pre && '$' !in mid1 && '\\' !in mid1
    requires '$' !in mid2 && '$' !in post
    requires '}' !in t2 && !All(t2, IsSpace)
    requires resolve(t2) == Success(v2)
    ensures Pass((pre + mid1) + "${" + t2 + "}" + (mid2 + post), resolve)
      == Success(Scanned(pre + mid1 + v2 + mid2 + post, true))
  {
    FiveAssoc(pre, mid1, v2, mid2, post);
    PassSingleToken(pre + mid1, t2, mid2 + post, v2, resolve);
  }

  /** Proof step of SecondOfTwoLevels: regroups the text of the second pass. */
  lemma FiveAssoc(a: string, b: string, c: string, d: string, e: string)
    ensures (a + b) + c + (d + e) == a + b + c + d + e
  {
  }

  /** Text holding a written-out token holds "${". */
  lemma TokenHasPair(a: string, tok: string, b: string)
    ensures HasPair(a + "${" + tok + "}" + b, '$', '{')
  {
    var s := a + "${" + tok + "}" + b;
    assert s[|a|] == '$' && s[|a| + 1] == '{';
  }

  lemma FirstOfTwoLevels(pre: string, t1: string, mid1: string, t2: string, mid2: string,
                         post: string, resolve: Resolver)
    requires '$' !in pre && '\\' !in pre && '$' !in post
    requires '}' !in t1 && !All(t1, IsSpace)
    requires resolve(t1) == Success(mid1 + "${" + t2 + "}" + mid2)
    ensures Pass(pre + "${" + t1 + "}" + post, resolve)
      == Success(Scanned((pre + mid1) + "${" + t2 + "}" + (mid2 + post), true))
  {
    var v1 := mid1 + "${" + t2 + "}" + mid2;
    SecondTokenText(pre, mid1, t2, mid2, post);
    PassSingleToken(pre, t1, post, v1, resolve);
  }

  /** Proof step of FirstOfTwoLevels: the second token inside the first pass's output. */
  lemma SecondTokenText(pre: string, mid1: string, t2: string, mid2: string, post: string)
    ensures pre + (mid1 + "${" + t2 + "}" + mid2) + post == (pre + mid1) + "${" + t2 + "}" + (mid2 + post)
  {
  }

  /** `\${` outside any token is written as `${`, backslash dropped, when the
      pass expands nothing; with no pass at all the `${` counts as left over. */
  lemma EscapedTokenStaysLiteral(pre: string, rest: string, n: int, resolve: Resolver)
    requires '$' !in pre && '\\' !in pre && '$' !in rest
    ensures n >= 1 ==> ResolveStringDepth(pre + "\\${" + rest, n, resolve) == Success(pre + "${" + rest)
    ensures n <= 0 ==> ResolveStringDepth(pre + "\\${" + rest, n, resolve) == Failure(BadPath(DepthExceeded))
  {
    var s := pre + "\\${" + rest;
    PassEscaped(pre, rest, resolve);
    if n >= 1 {
      PassesSettled(s, n, resolve);
    } else {
      EscapedHasPair(pre, rest);
    }
  }

  lemma PassEscaped(pre: string, rest: string, resolve: Resolver)
    requires '$' !in pre && '\\' !in pre && '$' !in rest
    ensures Pass(pre + "\\${" + rest, resolve) == Success(Scanned(pre + "${" + rest, false))
  {
    EscapeTextAssoc(pre, rest);
    PassIsRefPass(pre + ("\\${" + rest), resolve);
    RefPassLiteralPrefix(pre, "\\${" + rest, resolve);
    RefPassEscapeFirst(rest, resolve);
    RefPassPlain(rest, resolve);
  }

  /** Proof step of PassEscaped: regroups the text around the escaped `\${`. */
  lemma EscapeTextAssoc(pre: string, rest: string)
    ensures pre + "\\${" + rest == pre + ("\\${" + rest)
    ensures pre + ("${" + rest) == pre + "${" + rest
  {
  }

  lemma EscapedHasPair(pre: string, rest: string)
    ensures HasPair(pre + "\\${" + rest, '$', '{')
  {
    var s := pre + "\\${" + rest;
    assert s[|pre| + 1] == '$' && s[|pre| + 2] == '{';
  }

  /** The escape is undone when another token in the same pass expands: the
      `${` it wrote is read as a token by the next pass, so `${a}\${b}`
      resolves both tokens. */
  lemma EscapeUndoneByExpansion(ta: string, va: string, tb: string, vb: string, n: int, resolve: Resolver)
    requires '}' !in ta && !All(ta, IsSpace) && resolve(ta) == Success(va)
    requires '$' !in va && '\\' !in va
    requires '}' !in tb && !All(tb, IsSpace) && '$' !in tb && resolve(tb) == Success(vb)
    requires !HasPair(va + vb, '$', '{')
    requires n >= 2
    ensures ResolveStringDepth("${" + ta + "}\\${" + tb + "}", n, resolve) == Success(va + vb)
  {
    var e := "\\${" + tb + "}";
    var s := "${" + ta + "}\\${" + tb + "}";
    var mid := va + "${" + tb + "}" + "";
    assert RefPass(e, resolve) == Success(Scanned("${" + tb + "}", false)) by {
      assert e == "\\${" + (tb + "}");
      assert "${" + (tb + "}") == "${" + tb + "}";
      RefPassEscapeFirst(tb + "}", resolve);
      RefPassPlain(tb + "}", resolve);
    }
    assert Pass(s, resolve) == Success(Scanned(mid, true)) by {
      assert s == "${" + ta + "}" + e;
      assert va + ("${" + tb + "}") == mid;
      RefPassTokenFirst(ta, e, resolve);
      PassIsRefPass(s, resolve);
    }
    assert Pass(mid, resolve) == Success(Scanned(va + vb, true)) by {
      assert va + vb + "" == va + vb;
      PassSingleToken(va, tb, "", vb, resolve);
    }
    PassesExpanded(s, n, resolve);
    PassesExpanded(mid, n - 1, resolve);
  }
}
