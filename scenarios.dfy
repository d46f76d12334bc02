/** End-to-end behaviour of the engine on the placeholder forms a template
    author writes: `{{ name() }}`, `{{key}}`, `{{key|t1|t2}}`, and of the path
    computations, stated for every name rather than for one example. */
module Scenarios {
  import opened Wrappers
  import opened Text
  import opened Placeholder
  import opened Resolver
  import opened Substitution
  import opened Tree
  import opened ConfigPath

  /** A name as template authors write them: letters, digits, `_` and `-`. */
  predicate IsWord(w: string) {
    |w| > 0 && forall i :: 0 <= i < |w| ==> IsTokenChar(w[i]) && w[i] !in {' ', '|', '(', ')'}
  }

  lemma WordFacts(w: string)
    requires IsWord(w)
    ensures !IsJsSpace(w[0]) && !IsJsSpace(w[|w| - 1])
    ensures forall i :: 0 <= i < |w| ==> w[i] !in {'{', '}', '(', ')', '|'}
  {
  }

  /** A body of class characters with no whitespace at its ends. */
  predicate IsTokenBody(core: string) {
    && |core| > 0 && !IsJsSpace(core[0]) && !IsJsSpace(core[|core| - 1])
    && forall i :: 0 <= i < |core| ==> IsTokenChar(core[i])
  }

  /** `{{ core }}` is a token whose extracted key is `core`. */
  lemma SpacedTokenKey(core: string)
    requires IsTokenBody(core)
    ensures IsToken("{{ " + core + " }}")
    ensures ExtractKey("{{ " + core + " }}") == core
  {
    SpacedTokenShape(core);
    SpacedTokenExtract(core);
    SpacedTokenSlice(core);
    SpacedBodyTrim(core);
  }

  lemma SpacedTokenShape(core: string)
    requires IsTokenBody(core)
    ensures IsToken("{{ " + core + " }}")
  {
    var t := "{{ " + core + " }}";
    assert forall i :: 3 <= i < 3 + |core| ==> t[i] == core[i - 3];
  }

  lemma SpacedTokenExtract(core: string)
    requires IsTokenBody(core)
    ensures var t := "{{ " + core + " }}"; ExtractKey(t) == Trim(t[2..|t| - 2])
  {
    var t := "{{ " + core + " }}";
    SpacedTokenShape(core);
    TokenExtractKey(t);
  }

  lemma SpacedTokenSlice(core: string)
    ensures var t := "{{ " + core + " }}"; t[2..|t| - 2] == " " + core + " "
  {
  }

  lemma SpacedBodyTrim(core: string)
    requires IsTokenBody(core)
    ensures Trim(" " + core + " ") == core
  {
    assert AllSpace(" ");
    TrimExact(" ", core, " ");
  }

  // ---------------------------------------------------------------- function tokens

  /** `{{ f() }}` is a token, a function token, and names `f`. */
  lemma FunctionTokenParses(f: string)
    requires IsWord(f)
    ensures var t := "{{ " + f + "() }}";
      IsToken(t) && IsAFunctionKey(t) && FunctionName(t) == f
  {
    var t := "{{ " + f + "() }}";
    CallKey(f);
    CallIsFunction(f);
    WordFacts(f);
    NameOfCall(t, f);
  }

  lemma CallKey(f: string)
    requires IsWord(f)
    ensures var t := "{{ " + f + "() }}";
      IsToken(t) && ExtractKey(t) == f + "()"
  {
    WordFacts(f);
    var core := f + "()";
    assert "{{ " + core + " }}" == "{{ " + f + "() }}";
    assert forall i :: 0 <= i < |core| ==> IsTokenChar(core[i]) by {
      assert forall i :: 0 <= i < |f| ==> core[i] == f[i];
    }
    SpacedTokenKey(core);
  }

  lemma CallIsFunction(f: string)
    requires IsWord(f)
    ensures IsAFunctionKey("{{ " + f + "() }}")
  {
    var t := "{{ " + f + "() }}";
    assert t[|f| + 3] == '(' && t[|f| + 4] == ')' && !IsLineTerminator(t[|f| + 2]);
  }

  /** A text that is exactly `{{ f() }}` becomes the value of function `f`
      applied to the merged context, or fails naming `f` when no such
      function is configured. */
  lemma FunctionTokenOutcome(f: string, keyValuePairs: map<string, string>, config: Config,
                             applyTransformers: ApplyTransformers, globalCtx: Ctx, localCtx: Ctx)
    requires IsWord(f)
    ensures var r := Inject(keyValuePairs, config, applyTransformers, globalCtx, "{{ " + f + "() }}", localCtx);
      && (f in config.functions ==> r == Success(config.functions[f](MergeCtx(globalCtx, localCtx))))
      && (f !in config.functions ==> r == Failure(MissingFunctionImplementation(f)))
  {
    FunctionTokenParses(f);
    InjectSingleToken("{{ " + f + "() }}", keyValuePairs, config, applyTransformers, globalCtx, localCtx);
  }

  /** `{{ f () }}`: the parentheses are deleted after trimming, so the name
      looked up keeps the space before them. */
  lemma SpacedFunctionTokenKeepsSpace(f: string)
    requires IsWord(f)
    ensures var t := "{{ " + f + " () }}";
      IsToken(t) && IsAFunctionKey(t) && FunctionName(t) == f + " "
  {
    SpacedCallKey(f);
    SpacedCallIsFunction(f);
    SpacedCallName(f);
  }

  lemma SpacedCallKey(f: string)
    requires IsWord(f)
    ensures var t := "{{ " + f + " () }}";
      IsToken(t) && ExtractKey(t) == (f + " ") + "()"
  {
    WordFacts(f);
    var core := (f + " ") + "()";
    assert "{{ " + core + " }}" == "{{ " + f + " () }}";
    assert forall i :: 0 <= i < |core| ==> IsTokenChar(core[i]) by {
      assert forall i :: 0 <= i < |f| ==> core[i] == f[i];
    }
    SpacedTokenKey(core);
  }

  lemma SpacedCallIsFunction(f: string)
    requires IsWord(f)
    ensures IsAFunctionKey("{{ " + f + " () }}")
  {
    var t := "{{ " + f + " () }}";
    assert t[|f| + 4] == '(' && t[|f| + 5] == ')' && !IsLineTerminator(t[|f| + 3]);
  }

  lemma SpacedCallName(f: string)
    requires IsWord(f)
    ensures Remove((f + " ") + "()", {'(', ')'}) == f + " "
  {
    WordFacts(f);
    DropCallParens(f + " ");
    assert forall i :: 0 <= i < |f + " "| ==> (f + " ")[i] !in {'(', ')'};
  }

  // ---------------------------------------------------------------- value tokens

  /** `{{ k|t1|...|tn }}` parses to the key `k` and the chain `t1, ..., tn`,
      in the order written. */
  lemma ValueTokenParses(names: seq<string>)
    requires |names| >= 1
    requires forall i :: 0 <= i < |names| ==> IsWord(names[i])
    ensures var t := "{{ " + Join(names, "|") + " }}";
      && IsToken(t) && !IsAFunctionKey(t)
      && KeyAndTransformers(t) == names
      && ValueKey(t) == names[0] && TransformerNames(t) == names[1..]
  {
    var body := Join(names, "|");
    JoinWordsChars(names);
    SpacedTokenKey(body);
    ValueTokenIsNoCall(body);
    SplitWords(names);
    SegmentsOfKey("{{ " + body + " }}", names);
  }

  /** A key that splits into pieces trimming to `names` yields `names`. */
  lemma SegmentsOfKey(t: string, names: seq<string>)
    requires var parts := Split(ExtractKey(t), "|");
      |parts| == |names| && forall i :: 0 <= i < |names| ==> Trim(parts[i]) == names[i]
    ensures KeyAndTransformers(t) == names
  {
    TrimEachGives(Split(ExtractKey(t), "|"), names);
  }

  lemma TrimEachGives(parts: seq<string>, names: seq<string>)
    requires |parts| == |names| && forall i :: 0 <= i < |names| ==> Trim(parts[i]) == names[i]
    ensures TrimEach(parts) == names
  {
  }

  /** A token whose body has no parenthesis is a value token. */
  lemma ValueTokenIsNoCall(body: string)
    requires IsTokenBody(body)
    requires forall i :: 0 <= i < |body| ==> body[i] != '(' && body[i] != ')'
    ensures !IsAFunctionKey("{{ " + body + " }}")
  {
    var t := "{{ " + body + " }}";
    SpacedTokenShape(body);
    TokenFunctionKey(t);
    assert forall j :: 3 <= j < 3 + |body| ==> t[j] == body[j - 3];
  }

  /** Splitting the joined names on `|` and trimming gives the names back. */
  lemma SplitWords(names: seq<string>)
    requires |names| >= 1
    requires forall i :: 0 <= i < |names| ==> IsWord(names[i])
    ensures var parts := Split(Join(names, "|"), "|");
      |parts| == |names| && forall i :: 0 <= i < |names| ==> Trim(parts[i]) == names[i]
  {
    forall i | 0 <= i < |names| ensures '|' !in names[i] {
      assert forall j :: 0 <= j < |names[i]| ==> names[i][j] != '|';
    }
    SplitJoin(names, '|');
    forall i | 0 <= i < |names| ensures Trim(names[i]) == names[i] {
      WordFacts(names[i]);
      TrimIdentity(names[i]);
    }
  }

  /** What the body of `{{k|t1|...|tn}}` is made of. */
  lemma {:induction false} JoinWordsChars(names: seq<string>)
    requires |names| >= 1
    requires forall i :: 0 <= i < |names| ==> IsWord(names[i])
    ensures var b := Join(names, "|");
      && IsTokenBody(b)
      && (forall i :: 0 <= i < |b| ==> b[i] != '(' && b[i] != ')')
  {
    WordFacts(names[0]);
    if |names| > 1 {
      JoinWordsChars(names[1..]);
      var rest := Join(names[1..], "|");
      var b := names[0] + "|" + rest;
      assert forall i :: 0 <= i < |names[0]| ==> b[i] == names[0][i];
      assert forall i :: |names[0]| < i < |b| ==> b[i] == rest[i - |names[0]| - 1];
    }
  }

  /** A text that is exactly `{{k|t1|...|tn}}` hands the value of `k` and the
      chain `t1, ..., tn` to the transformer pipeline, or fails carrying the
      whole token when `k` has no value. */
  lemma ValueTokenOutcome(names: seq<string>, keyValuePairs: map<string, string>, config: Config,
                          applyTransformers: ApplyTransformers, globalCtx: Ctx, localCtx: Ctx)
    requires |names| >= 1
    requires forall i :: 0 <= i < |names| ==> IsWord(names[i])
    ensures var t := "{{ " + Join(names, "|") + " }}";
      var r := Inject(keyValuePairs, config, applyTransformers, globalCtx, t, localCtx);
      var ctx := MergeCtx(globalCtx, localCtx);
      && (names[0] !in keyValuePairs ==> r == Failure(MissingKeyValuePairs(t)))
      && (names[0] in keyValuePairs ==>
            r == applyTransformers(keyValuePairs[names[0]], config.transformers, names[1..], ctx))
  {
    var t := "{{ " + Join(names, "|") + " }}";
    ValueTokenParses(names);
    InjectSingleToken(t, keyValuePairs, config, applyTransformers, globalCtx, localCtx);
  }

  /** A text that is one token is replaced by that token's resolution. */
  lemma InjectSingleToken(t: string, keyValuePairs: map<string, string>, config: Config,
                          applyTransformers: ApplyTransformers, globalCtx: Ctx, localCtx: Ctx)
    requires IsToken(t)
    ensures Inject(keyValuePairs, config, applyTransformers, globalCtx, t, localCtx)
      == ResolveToken(t, keyValuePairs, config.transformers, config.functions, applyTransformers, MergeCtx(globalCtx, localCtx))
  {
    var resolve := TokenResolver(keyValuePairs, config, applyTransformers, MergeCtx(globalCtx, localCtx));
    SubstituteSingleToken(t, resolve);
  }

  /** With an identity pipeline for the empty chain, `{{k}}` is replaced by
      the value of `k` verbatim. */
  lemma PlainKeyIsReplacedVerbatim(k: string, keyValuePairs: map<string, string>, config: Config,
                                   applyTransformers: ApplyTransformers, globalCtx: Ctx, localCtx: Ctx)
    requires IsWord(k) && k in keyValuePairs
    requires applyTransformers(keyValuePairs[k], config.transformers, [], MergeCtx(globalCtx, localCtx)) == Success(keyValuePairs[k])
    ensures Inject(keyValuePairs, config, applyTransformers, globalCtx, "{{ " + k + " }}", localCtx) == Success(keyValuePairs[k])
  {
    assert Join([k], "|") == k;
    ValueTokenOutcome([k], keyValuePairs, config, applyTransformers, globalCtx, localCtx);
  }

  // ---------------------------------------------------------------- tree

  /** A folder named `{{k}}` takes the value of `k` as its name (identity
      pipeline for the empty chain assumed); its children are transformed on
      their own, whatever the folder's new name. */
  lemma FolderNamedByKey(k: string, children: seq<Node>, origin: string, keyValuePairs: map<string, string>,
                         config: Config, applyTransformers: ApplyTransformers, globalCtx: Ctx)
    requires IsWord(k) && k in keyValuePairs
    requires forall ctx :: applyTransformers(keyValuePairs[k], config.transformers, [], ctx) == Success(keyValuePairs[k])
    ensures var inject := Injector(keyValuePairs, config, applyTransformers, globalCtx);
      var r := TransformNode(Folder("{{ " + k + " }}", children, origin), inject, globalCtx);
      var kids := TemplateTransformer(children, inject, globalCtx);
      && (kids.Success? ==> r == Success(OutFolder(keyValuePairs[k], kids.value)))
      && (kids.Failure? ==> r == Failure(kids.error))
  {
    var name := "{{ " + k + " }}";
    var localCtx := CreateLocalCtx(globalCtx, name, origin, FOLDER);
    PlainKeyIsReplacedVerbatim(k, keyValuePairs, config, applyTransformers, globalCtx, localCtx);
  }

  /** A file whose content is `{{ f() }}` gets the value of `f` on a context
      whose `fileName` is the file's raw name and whose `type` is
      FILE_CONTENT; a name without placeholders is kept. */
  lemma FileContentFromFunction(name: string, f: string, origin: string, keyValuePairs: map<string, string>,
                                config: Config, applyTransformers: ApplyTransformers, globalCtx: Ctx)
    requires IsWord(f) && f in config.functions && NoTokenIn(name)
    ensures var ctx := MergeCtx(globalCtx, CreateLocalCtx(globalCtx, name, origin, FILE_CONTENT));
      && ctx["fileName"] == Str(name) && ctx["type"] == Str("FILE_CONTENT")
      && TransformNode(File(name, "{{ " + f + "() }}", origin), Injector(keyValuePairs, config, applyTransformers, globalCtx), globalCtx)
         == Success(OutFile(name, config.functions[f](ctx)))
  {
    InjectOutcome(keyValuePairs, config, applyTransformers, globalCtx, name, CreateLocalCtx(globalCtx, name, origin, FILE_NAME));
    FunctionTokenOutcome(f, keyValuePairs, config, applyTransformers, globalCtx, CreateLocalCtx(globalCtx, name, origin, FILE_CONTENT));
  }

  // ---------------------------------------------------------------- paths

  /** A node read from `.../scaffolder/rest` is written under the target
      root at `rest`, when `rest` holds no further `scaffolder`. */
  lemma CurrentFilePathUnderTarget(prefix: string, rest: string, targetRoot: string, name: string,
                                   kind: NodeType, globalCtx: Ctx)
    requires !Contains(rest, Marker)
    requires "targetRoot" in globalCtx && globalCtx["targetRoot"] == Str(targetRoot)
    ensures CreateLocalCtx(globalCtx, name, prefix + Marker + rest, kind)["currentFilePath"] == Str(targetRoot + rest)
  {
    var origin := prefix + Marker + rest;
    var r := LocationSuffix(origin);
    assert origin[|prefix|..] == Marker + rest;
    NoMarkerAfter(origin, |prefix|, rest);
    assert Marker <= origin[|prefix|..];
    assert Contains(origin, Marker);
    var q := |origin| - |r| - |Marker|;
    assert Marker <= origin[q..];
    assert q == |prefix|;
    assert r == rest;
  }

  /** The config file of the template at `dir/last` is `dir/scaffolder.config.js`. */
  lemma ConfigBesideTemplate(dir: string, last: string)
    requires '/' !in last
    ensures GetConfigPath(dir + "/" + last) == dir + "/scaffolder.config.js"
  {
    var path := dir + "/" + last;
    assert path == dir + ['/'] + last;
    LastIndexOfSplitPoint(dir, '/', last);
    assert path[..|dir|] == dir;
    assert path[|dir|] == '/';
  }
}
