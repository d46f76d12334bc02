# scaffolder template engine, modelled in Dafny

This project models the template engine of scaffolder
(`src/createTemplateStructure/index.js`). A template is a tree of folders
and files. Its names and contents hold placeholders written between double
braces. There are two kinds of placeholder:

- a **value token** `{{ key | t1 | t2 }}` takes the user's value for `key`
  and passes it through the named transformers;
- a **function token** `{{ name() }}` calls a function from the template's
  configuration on the current context.

The engine walks the tree and substitutes every placeholder in every name
and every file content. Each substitution sees a context in which the
node's local fields (`fileName`, `type`, `currentFilePath`) override the
global ones.

The core is a pure file, so the model is made of datatypes, functions and
lemmas. Thrown errors become `Result` values. A thrown error aborts the
whole walk, so no partial tree is returned.

Modules, one file each:

- `Wrappers`: `Option` and `Result`.
- `Text`: the JavaScript string operations the core relies on: `trim`
  (ECMAScript white space and line terminators), `split` on a non-empty
  separator, `join`, taking the last element, and deleting every occurrence
  of some characters.
- `Placeholder`: the placeholder grammar and the parsers `extractKey`,
  `isAFunctionKey` and `getKeyAndTransformers`.
- `Resolver`: the configuration, the errors, and the per-token resolver
  `replaceKeyWithValue`.
- `Substitution`: the global regular-expression replace and `injector`.
  The replace is a scanner that cuts the text the way the regular
  expression's left-to-right search does, followed by a renderer. The
  scanner is proved equal to the only walk the search can make.
- `Tree`: `templateTransformer` and `createLocalCtx`.
- `ConfigPath`: `getConfigPath`.
- `Scenarios`: concrete template forms and what the engine does with them.

Three consequences of the code are easy to miss:

- A token is a function token when `()` appears anywhere in it after at
  least one character that is not a line terminator. The test is not
  anchored at the end, so `{{ a() | b }}` is a function token
  (`Placeholder.TokenFunctionKey`).
- `currentFilePath` keeps what follows the *last* occurrence of
  `scaffolder` in the node's source directory, because the split pieces are
  popped from the end (`Tree.LocationSuffix`).
- The parentheses are deleted after trimming, and the name is not trimmed
  again. So `{{ f () }}` looks up the function `"f "`
  (`Scenarios.SpacedFunctionTokenKeepsSpace`).

## Model

| member | source | states |
|---|---|---|
| Text.Trim | src/createTemplateStructure/index.js:17 | the result is no longer than the input and neither starts nor ends with white space |
| Text.TrimIsSlice | src/createTemplateStructure/index.js:17 | the trimmed string is a slice of the input with only white space before and after it |
| Text.TrimEach | src/createTemplateStructure/index.js:24 | trimming every piece keeps the number and the order of the pieces, each trimmed on its own |
| Text.TrimExact | src/createTemplateStructure/index.js:24 | white space, then a part with no white space at its ends, then white space, trims to exactly that part |
| Text.TrimIdentity | src/createTemplateStructure/index.js:24 | trim leaves a string unchanged exactly when it does not start or end with white space |
| Text.Remove | src/createTemplateStructure/index.js:33 | no deleted character remains, the result is no longer than the input, and a string without such characters is unchanged |
| Text.RemoveAppend | src/createTemplateStructure/index.js:33 | deleting characters distributes over concatenation |
| Text.Split | src/createTemplateStructure/index.js:23 | splitting yields at least one piece, and the first piece is a prefix of the string |
| Text.SplitPiecesLackSeparator | src/createTemplateStructure/index.js:23 | no piece contains the separator |
| Text.JoinSplit | src/createTemplateStructure/index.js:23 | joining the pieces with the separator gives back the original string |
| Text.SplitJoin | src/createTemplateStructure/index.js:23 | splitting pieces joined by a character none of them contains gives back exactly those pieces |
| Text.Join | src/createTemplateStructure/index.js:74 | `join` has no contract of its own; `Text.JoinSplit`, `Text.SplitJoin` and `ConfigPath.DropLastSegment` state what joining gives |
| Text.SplitLast | src/createTemplateStructure/index.js:100-101 | the last piece of a split holds no separator, is the whole string when there is one piece, and otherwise follows the other pieces joined by the separator and one more separator |
| Text.LastIndexOf | src/createTemplateStructure/index.js:74 | the result is -1 when the character is absent, and otherwise an index holding the character with no later occurrence |
| Placeholder.IsToken | src/createTemplateStructure/index.js:133 | a whole match of the token pattern; a predicate with no contract, whose matches in a text are given by `Placeholder.TokenLength` and `Substitution.LexedUnique` |
| Placeholder.TokenLength | src/createTemplateStructure/index.js:133 | a token of the given length starts the text exactly when one is reported, and that length is the only possible one |
| Placeholder.ExtractKey | src/createTemplateStructure/index.js:17 | the key holds no brace and has no white space at its ends |
| Placeholder.TokenExtractKey | src/createTemplateStructure/index.js:17 | the key of a token is its body between the double braces, trimmed |
| Placeholder.TokenFunctionKey | src/createTemplateStructure/index.js:19 | a token is a function token exactly when `()` occurs in it |
| Placeholder.IsAFunctionKey | src/createTemplateStructure/index.js:19 | the function-token test; a predicate with no contract, which `Placeholder.TokenFunctionKey` shows holds on a token exactly when `()` occurs in it |
| Placeholder.FunctionName | src/createTemplateStructure/index.js:33 | the looked-up function name holds no brace and no parenthesis |
| Placeholder.NameOfCall | src/createTemplateStructure/index.js:33 | a token whose key is a parenthesis-free name followed by `()` looks up exactly that name |
| Placeholder.KeyAndTransformers | src/createTemplateStructure/index.js:21-24 | there is always at least one segment; `Placeholder.KeyAndTransformersSegments` and `Placeholder.SegmentsAreClean` give the segments |
| Placeholder.KeyAndTransformersSegments | src/createTemplateStructure/index.js:21-24 | the segments are the trimmed pipe-separated pieces of the key, one per piece and in order, and the pieces joined back give the key |
| Placeholder.SegmentsAreClean | src/createTemplateStructure/index.js:21-24 | no segment contains a pipe or a brace, and none starts or ends with white space |
| Placeholder.ValueKey | src/createTemplateStructure/index.js:42 | the key of a value token has no pipe or brace and no white space at its ends |
| Placeholder.TransformerNames | src/createTemplateStructure/index.js:42 | the chain is every segment after the key, and each name has no pipe or brace and no white space at its ends |
| Resolver.DefaultConfig | src/createTemplateStructure/index.js:10-15 | the default configuration has no transformers and no functions |
| Resolver.ResolveToken | src/createTemplateStructure/index.js:26-53 | a function token gives the named function's value on the context, or fails naming the missing function; a value token fails carrying the token when its key has no value, and otherwise gives the pipeline's result on the key's value and the transformer chain |
| Resolver.FunctionTokenIgnoresValues | src/createTemplateStructure/index.js:32-40 | a function token's outcome does not depend on the user's values, the transformers or the pipeline |
| Resolver.MissingKeyConsultsNoTransformer | src/createTemplateStructure/index.js:44-46 | a value token with a missing key fails with that token before any transformer is consulted |
| Resolver.DefaultConfigHasNoFunctions | src/createTemplateStructure/index.js:32-38 | under the default configuration every function token fails naming its function |
| Resolver.ResolveErrorKinds | src/createTemplateStructure/index.js:26-53 | every resolution error names the missing function, carries the token whose key is missing, or comes from the pipeline |
| Substitution.Scan | src/createTemplateStructure/index.js:158-165 | the scan is a walk of the global search: at each position it takes the token starting there, or else copies one character |
| Substitution.LexedUnique | src/createTemplateStructure/index.js:158-165 | the global search has only one walk over a text, and it is the scan's |
| Substitution.LexedUnscan | src/createTemplateStructure/index.js:165 | putting the scanned pieces back together gives the text |
| Substitution.ScanSingleToken | src/createTemplateStructure/index.js:133 | a text that is one token scans to that token alone |
| Substitution.ScanWithoutTokens | src/createTemplateStructure/index.js:133 | a text in which no token starts scans to single characters only |
| Substitution.NoOpeningBraces | src/createTemplateStructure/index.js:133 | a text without `{{` holds no token |
| Substitution.Render | src/createTemplateStructure/index.js:165 | joining the replacements in order; no contract of its own, its meaning is `Substitution.RenderFailsAtFirstFailure` and `Substitution.RenderIdentity` |
| Substitution.Substitute | src/createTemplateStructure/index.js:165 | the global replace; no contract of its own, its meaning is `Substitution.SubstituteFailure`, `Substitution.SubstituteSingleToken` and `Substitution.SubstituteIdentity` |
| Substitution.RenderFailsAtFirstFailure | src/createTemplateStructure/index.js:165 | rendering fails exactly when some token fails, and then with the first failing token's error |
| Substitution.RenderIdentity | src/createTemplateStructure/index.js:165 | when every token resolves to itself, rendering gives back the scanned text |
| Substitution.SubstituteSingleToken | src/createTemplateStructure/index.js:165 | a text that is one token is replaced by that token's resolution, success or failure |
| Substitution.SubstituteFailure | src/createTemplateStructure/index.js:165 | the replace fails exactly when some token's resolution fails, and then with the first failing token's error |
| Substitution.SubstituteIdentity | src/createTemplateStructure/index.js:165 | a text with no token is returned unchanged, whatever the resolver |
| Substitution.MergeCtx | src/createTemplateStructure/index.js:155-157 | the merged context has the fields of both contexts, with a local field winning over a global one |
| Substitution.Inject | src/createTemplateStructure/index.js:150-167 | the injector applied to a text and a local context; no contract of its own, its meaning is `Substitution.InjectOutcome` |
| Substitution.Injector | src/createTemplateStructure/index.js:150-154 | the injector with the values, configuration and global context fixed; no contract of its own, each call is an `Inject`, stated by `Substitution.InjectOutcome` |
| Substitution.InjectOutcome | src/createTemplateStructure/index.js:150-167 | the injector returns a text without tokens unchanged, and otherwise fails exactly when some token fails against the merged context, with the first failing token's error |
| Tree.LocationSuffix | src/createTemplateStructure/index.js:99-101 | the result is the suffix after the last `scaffolder` in the source directory, or the whole directory when there is none |
| Tree.CreateLocalCtx | src/createTemplateStructure/index.js:98-106 | the local context has exactly `fileName`, `type` and `currentFilePath`, and `currentFilePath` is the global `targetRoot` followed by the location suffix |
| Tree.TemplateTransformer | src/createTemplateStructure/index.js:107-129 | a successful walk returns one node per input node |
| Tree.TransformPointwise | src/createTemplateStructure/index.js:107-129 | after a successful walk, each output node is the successful transform of the input node at the same position |
| Tree.TransformNode | src/createTemplateStructure/index.js:108-128 | a folder stays a folder whose name is injected with type FOLDER and whose children are walked; a file stays a file whose name is injected with FILE_NAME and whose content is injected with FILE_CONTENT |
| Tree.TransformPreservesShape | src/createTemplateStructure/index.js:107-129 | a successful walk keeps the tree's shape: the same folders and files, nested the same way |
| Tree.TransformNodePreservesShape | src/createTemplateStructure/index.js:108-113 | a successfully transformed node has the input node's shape |
| Tree.TransformIdentity | src/createTemplateStructure/index.js:97-130 | a tree with no token in any name or content comes back unchanged |
| Tree.TransformNodeIdentity | src/createTemplateStructure/index.js:108-128 | a node with no token in its name or content comes back unchanged |
| Tree.TransformFailsAtFirstError | src/createTemplateStructure/index.js:107-129 | the walk fails exactly when some injector call, in pre-order (folder name, then children; file name, then content), fails, and then with the first such call's error |
| Tree.TransformNodeFailsAtFirstError | src/createTemplateStructure/index.js:108-128 | a node's transform fails exactly when one of its pre-order injector calls fails, with the first one's error |
| ConfigPath.GetConfigPath | src/createTemplateStructure/index.js:73-74 | the config path is the template path up to its last `/` followed by `/scaffolder.config.js`, or just `/scaffolder.config.js` when the path has no `/` |
| ConfigPath.DropLastSegment | src/createTemplateStructure/index.js:74 | joining all `/`-pieces but the last gives the path up to its last `/`, or nothing when there is no `/` |
| Scenarios.FunctionTokenParses | src/createTemplateStructure/index.js:32-33 | `{{ f() }}` is a token and a function token, and it names `f` |
| Scenarios.FunctionTokenOutcome | src/createTemplateStructure/index.js:31-39 | a text that is exactly `{{ f() }}` becomes `f`'s value on the merged context, or fails naming `f` |
| Scenarios.SpacedFunctionTokenKeepsSpace | src/createTemplateStructure/index.js:33 | `{{ f () }}` is a function token naming `f ` with its trailing space |
| Scenarios.ValueTokenParses | src/createTemplateStructure/index.js:21-24 | `{{ k, t1, ..., tn }}` (the names separated by pipes) is a value token with key `k` and the chain `t1, ..., tn` in written order |
| Scenarios.ValueTokenIsNoCall | src/createTemplateStructure/index.js:19 | a token whose body has no parenthesis is a value token |
| Scenarios.ValueTokenOutcome | src/createTemplateStructure/index.js:42-51 | a text that is exactly `{{ k, t1, ..., tn }}` (the names separated by pipes) fails carrying the token when `k` has no value, and otherwise gives the pipeline's result for `k`'s value and `t1, ..., tn` |
| Scenarios.InjectSingleToken | src/createTemplateStructure/index.js:165 | a text that is one token is replaced by that token's resolution against the merged context |
| Scenarios.PlainKeyIsReplacedVerbatim | src/createTemplateStructure/index.js:48-52 | with a pipeline that is the identity on an empty chain, `{{ k }}` becomes the value of `k` |
| Scenarios.FolderNamedByKey | src/createTemplateStructure/index.js:108-113 | a folder named `{{ k }}` is renamed to the value of `k`, and its children are walked whatever its new name |
| Scenarios.FileContentFromFunction | src/createTemplateStructure/index.js:115-128 | a file whose content is `{{ f() }}` gets `f`'s value on a context whose `fileName` is the raw name and whose `type` is FILE_CONTENT |
| Scenarios.CurrentFilePathUnderTarget | src/createTemplateStructure/index.js:99-102 | a node read from `.../scaffolder<rest>`, with no further marker in `rest`, gets `targetRoot + rest` as its `currentFilePath` |
| Scenarios.ConfigBesideTemplate | src/createTemplateStructure/index.js:73-74 | the config file of the template at `dir/last` is `dir/scaffolder.config.js` |

## Left out

- Reading the template from disk (`createTemplateStructure`) and loading its configuration (`templateReader`, including the `NoMatchingTemplate` error and the `require` cache reset) are file-system I/O. The model takes the raw tree as a `Node` value and the configuration as a `Config` value.
- `applyTransformers` is not part of this model. It is a parameter, and any function of its type may stand for it. How a chain of transformers composes, and the error raised for an unknown transformer name, belong to that code and are not stated here.
- Template functions and transformers are caller code. They are total functions of the context that return strings. A function that throws, or that returns something other than a string, is not modelled.
- User values and context fields are strings, or objects of strings for the parameter values. Numbers are not modelled separately, and neither is their conversion to text.
- `Resolver.DefaultConfig` keeps only `transformers` and `functions`. `parametersOptions` and `templatesOptions` are never read by the engine.
- `TYPES` comes from the files utilities, which are not part of this model. Its values are taken to be the strings `FOLDER`, `FILE_NAME` and `FILE_CONTENT`.
- Key and function lookup is map membership. A key such as `hasOwnProperty` that shadows an inherited object property is not modelled.
- The plain-value fallback of the conditional at line 52 is never reached, because the remaining segments always form an array, which is truthy. The model always calls the pipeline.
- `Resolver.ResolveToken`'s error for a missing key carries the raw token, as the code does. The error object's own message format is not part of this model.
- The `type = 'FILE'` default in `createLocalCtx` is never used, because every call passes a type. The model has no such type.
- The transformed folder's constant `type` field is implied by the `OutFolder` constructor, not stored.
- `Tree.TemplateTransformer`: its own contract gives only the length of a successful result. The nodes themselves are stated by `Tree.TransformPointwise`, and failure by `Tree.TransformFailsAtFirstError`.
- The command-line handlers are not part of this model. These are `src/cliCommandHandlers/index.js`, its asynchronous executor and the error classes.
