/** Per-token resolution (`replaceKeyWithValue` in
    src/createTemplateStructure/index.js), the context values handed to
    caller code, the engine's error kinds, and the configuration maps. */
module Resolver {
  import opened Wrappers
  import opened Placeholder

  /** A context field: a string, or an object of string values such as the
      global context's `parametersValues`. */
  datatype CtxValue = Str(text: string) | Pairs(pairs: map<string, string>)

  /** A context object: field name to value. */
  type Ctx = map<string, CtxValue>

  /** A named transformer, `(value, ctx) -> value`; caller code. */
  type Transformer = (string, Ctx) -> string

  /** A named template function, `ctx -> value`; caller code. */
  type TemplateFunction = Ctx -> string

  /** The errors resolution raises. `UnknownTransformer` is what the
      transformer pipeline raises for a name missing from the map; that
      pipeline is not part of this model. */
  datatype TemplateError =
    | MissingKeyValuePairs(token: string)
    | MissingFunctionImplementation(functionKey: string)
    | UnknownTransformer(name: string)

  /** `applyTransformers(value, transformersMap, chain, ctx)`, whose source is
      not part of this model: any function of this shape may stand for it. */
  type ApplyTransformers = (string, map<string, Transformer>, seq<string>, Ctx) -> Result<string, TemplateError>

  /** The parts of a template's configuration the engine consults. The
      validators (`parametersOptions`) and `templatesOptions` are read only
      by the command-line layer. */
  datatype Config = Config(transformers: map<string, Transformer>, functions: map<string, TemplateFunction>)

  /** `defaultConfig()`: the configuration used when a template has no config file. */
  function DefaultConfig(): (c: Config)
    ensures c.transformers == map[] && c.functions == map[]
  {
    Config(map[], map[])
  }

  /** `replaceKeyWithValue(keyValuePairs, transformersMap, functionsMap, ctx)(match)`.
      A function token calls the named function on the context; a value
      token looks its key up and hands the value and the transformer chain
      to the pipeline. */
  function ResolveToken(m: string, keyValuePairs: map<string, string>, transformers: map<string, Transformer>,
                        functions: map<string, TemplateFunction>, applyTransformers: ApplyTransformers, ctx: Ctx)
    : (r: Result<string, TemplateError>)
    ensures IsAFunctionKey(m) && FunctionName(m) !in functions ==> r == Failure(MissingFunctionImplementation(FunctionName(m)))
    ensures IsAFunctionKey(m) && FunctionName(m) in functions ==> r == Success(functions[FunctionName(m)](ctx))
    ensures !IsAFunctionKey(m) && ValueKey(m) !in keyValuePairs ==> r == Failure(MissingKeyValuePairs(m))
    ensures !IsAFunctionKey(m) && ValueKey(m) in keyValuePairs ==>
      r == applyTransformers(keyValuePairs[ValueKey(m)], transformers, TransformerNames(m), ctx)
  {
    if IsAFunctionKey(m) then
      var functionKey := FunctionName(m);
      if functionKey !in functions then Failure(MissingFunctionImplementation(functionKey))
      else Success(functions[functionKey](ctx))
    else
      var key := ValueKey(m);
      if key !in keyValuePairs then Failure(MissingKeyValuePairs(m))
      else applyTransformers(keyValuePairs[key], transformers, TransformerNames(m), ctx)
  }

  /** A function token never reads the key/value pairs, the transformers or
      the pipeline. */
  lemma FunctionTokenIgnoresValues(m: string, kv1: map<string, string>, kv2: map<string, string>,
                                   t1: map<string, Transformer>, t2: map<string, Transformer>,
                                   functions: map<string, TemplateFunction>,
                                   apply1: ApplyTransformers, apply2: ApplyTransformers, ctx: Ctx)
    requires IsAFunctionKey(m)
    ensures ResolveToken(m, kv1, t1, functions, apply1, ctx) == ResolveToken(m, kv2, t2, functions, apply2, ctx)
  {
  }

  /** A value token whose key is missing fails before any transformer is
      consulted: the outcome is the same whatever the transformers and the
      pipeline are, and it carries the raw match. */
  lemma MissingKeyConsultsNoTransformer(m: string, keyValuePairs: map<string, string>,
                                        t1: map<string, Transformer>, t2: map<string, Transformer>,
                                        functions: map<string, TemplateFunction>,
                                        apply1: ApplyTransformers, apply2: ApplyTransformers, ctx: Ctx)
    requires !IsAFunctionKey(m) && ValueKey(m) !in keyValuePairs
    ensures ResolveToken(m, keyValuePairs, t1, functions, apply1, ctx) == ResolveToken(m, keyValuePairs, t2, functions, apply2, ctx)
    ensures ResolveToken(m, keyValuePairs, t1, functions, apply1, ctx).Failure?
    ensures ResolveToken(m, keyValuePairs, t1, functions, apply1, ctx).error.token == m
  {
  }

  /** With the default configuration every function token fails with
      `MissingFunctionImplementation`. */
  lemma DefaultConfigHasNoFunctions(m: string, keyValuePairs: map<string, string>, applyTransformers: ApplyTransformers, ctx: Ctx)
    requires IsAFunctionKey(m)
    ensures ResolveToken(m, keyValuePairs, DefaultConfig().transformers, DefaultConfig().functions, applyTransformers, ctx)
      == Failure(MissingFunctionImplementation(FunctionName(m)))
  {
  }

  /** Every error resolution raises is one of the engine's two kinds, naming
      the function or carrying the token, or else it came from the pipeline. */
  lemma ResolveErrorKinds(m: string, keyValuePairs: map<string, string>, transformers: map<string, Transformer>,
                          functions: map<string, TemplateFunction>, applyTransformers: ApplyTransformers, ctx: Ctx)
    ensures var r := ResolveToken(m, keyValuePairs, transformers, functions, applyTransformers, ctx);
      r.Failure? ==>
      var e := r.error;
      || (IsAFunctionKey(m) && e == MissingFunctionImplementation(FunctionName(m)))
      || (!IsAFunctionKey(m) && e == MissingKeyValuePairs(m))
      || (!IsAFunctionKey(m) && ValueKey(m) in keyValuePairs &&
          applyTransformers(keyValuePairs[ValueKey(m)], transformers, TransformerNames(m), ctx) == Failure(e))
  {
  }
}
