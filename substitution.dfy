/** Whole-text substitution: `injector` in src/createTemplateStructure/index.js,
    which replaces every match of the global placeholder pattern in a text
    by what the per-token resolver returns for it.
    The global replace is modelled in two steps: `Scan` cuts the text into
    tokens and single characters exactly as the regular expression's
    left-to-right search does, and `Render` replaces every token by its
    resolution, stopping at the first one that raises. */
module Substitution {
  import opened Wrappers
  import opened Placeholder
  import opened Resolver

  /** A piece of scanned text: a character copied as it is, or a matched token. */
  datatype Piece = Literal(c: char) | Token(text: string)

  /** The text a sequence of pieces was cut from. */
  function Unscan(ps: seq<Piece>): string
  {
    if |ps| == 0 then ""
    else (match ps[0] case Literal(c) => [c] case Token(t) => t) + Unscan(ps[1..])
  }

  /** How a global regular-expression search walks `text`: where the pattern
      matches, the match is one piece and the search resumes after it; where
      it does not, one character is passed over. This is the reference
      definition `Scan` is proved against. */
  predicate Lexed(ps: seq<Piece>, text: string)
    decreases |ps|
  {
    if |ps| == 0 then text == []
    else match ps[0]
      case Token(t) => IsToken(t) && t <= text && Lexed(ps[1..], text[|t|..])
      case Literal(c) => |text| > 0 && text[0] == c && NoTokenAt(text) && Lexed(ps[1..], text[1..])
  }

  /** The scanner. */
  function Scan(text: string): (ps: seq<Piece>)
    ensures Lexed(ps, text)
    decreases |text|
  {
    if |text| == 0 then []
    else match TokenLength(text)
      case Some(n) =>
        var ps := [Token(text[..n])] + Scan(text[n..]);
        assert ps[1..] == Scan(text[n..]);
        ps
      case None =>
        var ps := [Literal(text[0])] + Scan(text[1..]);
        assert ps[1..] == Scan(text[1..]);
        ps
  }

  /** The regular-expression walk has only one outcome, and it is `Scan`'s. */
  lemma {:induction false} LexedUnique(ps: seq<Piece>, text: string)
    requires Lexed(ps, text)
    ensures ps == Scan(text)
    decreases |ps|
  {
    if |ps| > 0 {
      assert ps == [ps[0]] + ps[1..];
      match ps[0]
      case Token(t) =>
        LexedUnique(ps[1..], text[|t|..]);
        ScanToken(text, t);
      case Literal(c) =>
        LexedUnique(ps[1..], text[1..]);
        ScanLiteral(text);
    }
  }

  /** Where a token starts, the scan takes it whole. */
  lemma ScanToken(text: string, t: string)
    requires IsToken(t) && t <= text
    ensures Scan(text) == [Token(t)] + Scan(text[|t|..])
  {
    assert text[..|t|] == t;
    assert TokenLength(text) == Some(|t|);
  }

  /** Where no token starts, the scan copies one character. */
  lemma ScanLiteral(text: string)
    requires |text| > 0 && NoTokenAt(text)
    ensures Scan(text) == [Literal(text[0])] + Scan(text[1..])
  {
    assert TokenLength(text).None?;
  }

  /** Scanning loses nothing: the pieces put back together are the text. */
  lemma {:induction false} LexedUnscan(ps: seq<Piece>, text: string)
    requires Lexed(ps, text)
    ensures Unscan(ps) == text
    decreases |ps|
  {
    if |ps| > 0 {
      match ps[0]
      case Token(t) =>
        LexedUnscan(ps[1..], text[|t|..]);
        assert text == t + text[|t|..];
      case Literal(c) =>
        LexedUnscan(ps[1..], text[1..]);
        assert text == [c] + text[1..];
    }
  }

  /** What one piece becomes: a character stays, a token is resolved. */
  function PieceValue<E>(p: Piece, resolve: string -> Result<string, E>): Result<string, E>
  {
    match p
    case Literal(c) => Success([c])
    case Token(t) => resolve(t)
  }

  /** The replacements concatenated in order; the first failing token's
      error aborts the whole text. */
  function Render<E>(ps: seq<Piece>, resolve: string -> Result<string, E>): Result<string, E>
  {
    if |ps| == 0 then Success("")
    else
      var head := PieceValue(ps[0], resolve);
      if head.Failure? then Failure(head.error)
      else
        var tail := Render(ps[1..], resolve);
        if tail.Failure? then Failure(tail.error) else Success(head.value + tail.value)
  }

  /** The global replace: every token found by the scan is resolved in place. */
  function Substitute<E>(text: string, resolve: string -> Result<string, E>): Result<string, E>
  {
    Render(Scan(text), resolve)
  }

  /** No token starts anywhere in `text`. */
  predicate NoTokenIn(text: string) {
    forall i :: 0 <= i <= |text| ==> NoTokenAt(text[i..])
  }

  /** Token `i` is the first token of `ps` whose resolution fails. */
  predicate FirstFailing<E>(ps: seq<Piece>, resolve: string -> Result<string, E>, i: int) {
    && 0 <= i < |ps| && ps[i].Token? && resolve(ps[i].text).Failure?
    && forall j :: 0 <= j < i && ps[j].Token? ==> resolve(ps[j].text).Success?
  }

  /** Rendering fails exactly when some token fails, and then with the error
      of the first token that fails. */
  lemma {:induction false} RenderFailsAtFirstFailure<E>(ps: seq<Piece>, resolve: string -> Result<string, E>)
    ensures Render(ps, resolve).Failure? <==> exists i :: 0 <= i < |ps| && ps[i].Token? && resolve(ps[i].text).Failure?
    ensures Render(ps, resolve).Failure? ==>
      exists i :: FirstFailing(ps, resolve, i) && resolve(ps[i].text).error == Render(ps, resolve).error
  {
    if |ps| > 0 {
      RenderFailsAtFirstFailure(ps[1..], resolve);
      var head := PieceValue(ps[0], resolve);
      if head.Failure? {
        assert FirstFailing(ps, resolve, 0);
      } else {
        if exists i :: 0 <= i < |ps| && ps[i].Token? && resolve(ps[i].text).Failure? {
          var i :| 0 <= i < |ps| && ps[i].Token? && resolve(ps[i].text).Failure?;
          assert i > 0 && ps[1..][i - 1] == ps[i];
        }
        if Render(ps[1..], resolve).Failure? {
          var i :| FirstFailing(ps[1..], resolve, i) && resolve(ps[1..][i].text).error == Render(ps[1..], resolve).error;
          assert FirstFailing(ps, resolve, i + 1);
        }
      }
    }
  }

  /** When every token resolves to itself, rendering gives back the text. */
  lemma {:induction false} RenderIdentity<E>(ps: seq<Piece>, resolve: string -> Result<string, E>)
    requires forall i :: 0 <= i < |ps| && ps[i].Token? ==> resolve(ps[i].text) == Success(ps[i].text)
    ensures Render(ps, resolve) == Success(Unscan(ps))
  {
    if |ps| > 0 {
      RenderIdentity(ps[1..], resolve);
    }
  }

  /** Text in which no token starts scans to characters only. */
  lemma {:induction false} ScanWithoutTokens(text: string)
    requires NoTokenIn(text)
    ensures forall i :: 0 <= i < |Scan(text)| ==> Scan(text)[i].Literal?
    decreases |text|
  {
    if |text| > 0 {
      assert NoTokenAt(text[0..]);
      assert text[0..] == text;
      assert NoTokenIn(text[1..]) by {
        forall i | 0 <= i <= |text| - 1 ensures NoTokenAt(text[1..][i..]) {
          assert text[1..][i..] == text[i + 1..];
        }
      }
      ScanWithoutTokens(text[1..]);
    }
  }

  /** A text that is a single placeholder scans to that one token. */
  lemma ScanSingleToken(t: string)
    requires IsToken(t)
    ensures Scan(t) == [Token(t)]
  {
    ScanToken(t, t);
    assert t[|t|..] == [];
  }

  /** A text that is one token is replaced by that token's resolution. */
  lemma SubstituteSingleToken<E>(t: string, resolve: string -> Result<string, E>)
    requires IsToken(t)
    ensures Substitute(t, resolve) == resolve(t)
  {
    ScanSingleToken(t);
    assert Render([Token(t)][1..], resolve) == Success("") by {
      assert [Token(t)][1..] == [];
    }
    match resolve(t)
    case Failure(e) =>
      assert Render([Token(t)], resolve) == Failure(e);
    case Success(v) =>
      assert Render([Token(t)], resolve) == Success(v + "");
      assert v + "" == v;
  }

  /** Text with no placeholder is returned unchanged, whatever the resolver. */
  lemma SubstituteIdentity<E>(text: string, resolve: string -> Result<string, E>)
    requires NoTokenIn(text)
    ensures Substitute(text, resolve) == Success(text)
  {
    ScanWithoutTokens(text);
    RenderIdentity(Scan(text), resolve);
    LexedUnscan(Scan(text), text);
  }

  /** Text without a `{{` holds no placeholder. */
  lemma NoOpeningBraces(text: string)
    requires forall i :: 0 <= i < |text| - 1 ==> !(text[i] == '{' && text[i + 1] == '{')
    ensures NoTokenIn(text)
  {
    forall i, n | 0 <= i <= |text| && 0 <= n <= |text[i..]| ensures !IsToken(text[i..][..n]) {
      if n >= 5 {
        assert text[i..][..n][0] == text[i] && text[i..][..n][1] == text[i + 1];
      }
    }
  }

  /** The `{...globalCtx, ...localCtx}` spread: every field of either, the
      local one winning when both have it. */
  function MergeCtx(globalCtx: Ctx, localCtx: Ctx): (ctx: Ctx)
    ensures ctx.Keys == globalCtx.Keys + localCtx.Keys
    ensures forall k :: k in localCtx ==> ctx[k] == localCtx[k]
    ensures forall k :: k in globalCtx && k !in localCtx ==> ctx[k] == globalCtx[k]
  {
    globalCtx + localCtx
  }

  /** The per-token replacer the injector hands to the global replace. */
  function TokenResolver(keyValuePairs: map<string, string>, config: Config, applyTransformers: ApplyTransformers, ctx: Ctx)
    : string -> Result<string, TemplateError>
  {
    m => ResolveToken(m, keyValuePairs, config.transformers, config.functions, applyTransformers, ctx)
  }

  /** `injector(keyValuePairs, config, globalCtx)(text, localCtx)`: substitute
      every placeholder of `text`, resolving each against the merged context. */
  function Inject(keyValuePairs: map<string, string>, config: Config, applyTransformers: ApplyTransformers,
                  globalCtx: Ctx, text: string, localCtx: Ctx): Result<string, TemplateError>
  {
    Substitute(text, TokenResolver(keyValuePairs, config, applyTransformers, MergeCtx(globalCtx, localCtx)))
  }

  /** The injector with its first three arguments fixed, as `templateTransformer` receives it. */
  function Injector(keyValuePairs: map<string, string>, config: Config, applyTransformers: ApplyTransformers, globalCtx: Ctx)
    : (string, Ctx) -> Result<string, TemplateError>
  {
    (text, localCtx) => Inject(keyValuePairs, config, applyTransformers, globalCtx, text, localCtx)
  }

  /** The global replace fails exactly when some scanned token fails to
      resolve, and then with the first such token's error. */
  lemma SubstituteFailure<E>(text: string, resolve: string -> Result<string, E>)
    ensures var r := Substitute(text, resolve);
      var ps := Scan(text);
      && (r.Failure? <==> exists i :: 0 <= i < |ps| && ps[i].Token? && resolve(ps[i].text).Failure?)
      && (r.Failure? ==> exists i :: FirstFailing(ps, resolve, i) && resolve(ps[i].text).error == r.error)
  {
    RenderFailsAtFirstFailure(Scan(text), resolve);
  }

  /** The injector's promises: text without placeholders comes back as it is;
      otherwise it fails exactly when some scanned token fails to resolve
      against the merged context, and with the first such token's error. */
  lemma InjectOutcome(keyValuePairs: map<string, string>, config: Config, applyTransformers: ApplyTransformers,
                      globalCtx: Ctx, text: string, localCtx: Ctx)
    ensures NoTokenIn(text) ==> Inject(keyValuePairs, config, applyTransformers, globalCtx, text, localCtx) == Success(text)
    ensures var r := Inject(keyValuePairs, config, applyTransformers, globalCtx, text, localCtx);
      var ps := Scan(text);
      var resolve := TokenResolver(keyValuePairs, config, applyTransformers, MergeCtx(globalCtx, localCtx));
      && (r.Failure? <==> exists i :: 0 <= i < |ps| && ps[i].Token? && resolve(ps[i].text).Failure?)
      && (r.Failure? ==> exists i :: FirstFailing(ps, resolve, i) && resolve(ps[i].text).error == r.error)
  {
    var resolve := TokenResolver(keyValuePairs, config, applyTransformers, MergeCtx(globalCtx, localCtx));
    if NoTokenIn(text) {
      SubstituteIdentity(text, resolve);
    }
    SubstituteFailure(text, resolve);
  }
}
