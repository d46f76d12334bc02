/** The structure-preserving walk `templateTransformer` of
    src/createTemplateStructure/index.js, with `createLocalCtx`. */
module Tree {
  import opened Wrappers
  import opened Text
  import opened Resolver
  import opened Substitution

  /** The local `type` values (`TYPES` of the files utilities). */
  datatype NodeType = FOLDER | FILE_NAME | FILE_CONTENT

  /** The string a `TYPES` constant holds, taken to be its own name. */
  function TypeName(t: NodeType): string
  {
    match t
    case FOLDER => "FOLDER"
    case FILE_NAME => "FILE_NAME"
    case FILE_CONTENT => "FILE_CONTENT"
  }

  /** A raw template node as the template reader builds it. `origin` is
      `scaffolderTargetRoot`, the directory the node was read from. */
  datatype Node =
    | Folder(name: string, children: seq<Node>, origin: string)
    | File(name: string, content: string, origin: string)

  /** A transformed node: folders keep their `type`, files carry none, and
      neither keeps `scaffolderTargetRoot`. */
  datatype OutNode =
    | OutFolder(name: string, children: seq<OutNode>)
    | OutFile(name: string, content: string)

  /** The path segment `createLocalCtx` splits the origin directory on. */
  const Marker: string := "scaffolder"

  /** How a template literal `${v}` prints a context field: a string as it
      is, an object as `[object Object]`, a missing field as `undefined`. */
  function TemplateText(v: Option<CtxValue>): string
  {
    match v
    case None => "undefined"
    case Some(Str(s)) => s
    case Some(Pairs(_)) => "[object Object]"
  }

  function Lookup(ctx: Ctx, k: string): Option<CtxValue>
  {
    if k in ctx then Some(ctx[k]) else None
  }

  /** The last piece of the node's source directory split on the marker:
      what follows the last occurrence of the marker, or the whole path when
      it has none. */
  function LocationSuffix(origin: string): (r: string)
    ensures |r| <= |origin| && r == origin[|origin| - |r|..]
    ensures !Contains(origin, Marker) ==> r == origin
    ensures Contains(origin, Marker) ==>
      |r| + |Marker| <= |origin| && origin[|origin| - |r| - |Marker|..] == Marker + r
    ensures forall i :: 0 <= i && |origin| - |r| - |Marker| < i <= |origin| ==> !(Marker <= origin[i..])
  {
    LastPieceAfterLastMarker(origin);
    Last(Split(origin, Marker))
  }

  lemma LastPieceAfterLastMarker(origin: string)
    ensures var r := Last(Split(origin, Marker));
      && |r| <= |origin| && r == origin[|origin| - |r|..]
      && (!Contains(origin, Marker) ==> r == origin)
      && (Contains(origin, Marker) ==>
           |r| + |Marker| <= |origin| && origin[|origin| - |r| - |Marker|..] == Marker + r)
      && forall i :: 0 <= i && |origin| - |r| - |Marker| < i <= |origin| ==> !(Marker <= origin[i..])
  {
    var parts := Split(origin, Marker);
    SplitLast(origin, Marker);
    if |parts| > 1 {
      SeveralPieces(origin, Join(parts[..|parts| - 1], Marker), Last(parts));
    } else {
      NoMarkerInside(origin);
    }
  }

  /** The case where the marker occurs: the origin is a prefix, the marker, and a marker-free tail. */
  lemma SeveralPieces(origin: string, p: string, r: string)
    requires origin == p + Marker + r && !Contains(r, Marker)
    ensures |r| <= |origin| && r == origin[|origin| - |r|..]
    ensures Contains(origin, Marker)
    ensures |r| + |Marker| <= |origin| && origin[|origin| - |r| - |Marker|..] == Marker + r
    ensures forall i :: 0 <= i && |origin| - |r| - |Marker| < i <= |origin| ==> !(Marker <= origin[i..])
  {
    assert origin[|p|..] == Marker + r;
    assert Marker <= origin[|p|..];
    NoMarkerAfter(origin, |p|, r);
  }

  /** No occurrence of the marker in a string means none at any index. */
  lemma NoMarkerInside(s: string)
    requires !Contains(s, Marker)
    ensures forall i :: 0 <= i <= |s| ==> !(Marker <= s[i..])
  {
  }

  /** The marker overlaps no shifted copy of itself. */
  lemma MarkerHasNoBorder(k: int)
    requires 0 < k < |Marker|
    ensures Marker[k..] != Marker[..|Marker| - k]
  {
    assert Marker[k..][0] != Marker[..|Marker| - k][0] by {
      assert Marker[0] == 's';
      assert forall j :: 0 < j < |Marker| ==> Marker[j] != 's';
    }
  }

  /** After a marker that ends where a marker-free tail starts, no other
      occurrence begins: an overlapping one would give the marker a border. */
  lemma NoMarkerAfter(s: string, p: nat, r: string)
    requires p + |Marker| + |r| == |s| && s[p..] == Marker + r && !Contains(r, Marker)
    ensures forall i :: p < i <= |s| ==> !(Marker <= s[i..])
  {
    forall i | p < i <= |s| ensures !(Marker <= s[i..]) {
      if i >= p + |Marker| {
        assert s[i..] == r[i - p - |Marker|..];
      } else {
        var k := i - p;
        MarkerHasNoBorder(k);
        assert s[i..][..|Marker| - k] == Marker[k..];
      }
    }
  }

  /** `createLocalCtx({ type, scaffolderTargetRoot, name })`. */
  function CreateLocalCtx(globalCtx: Ctx, name: string, origin: string, kind: NodeType): (ctx: Ctx)
    ensures ctx.Keys == {"fileName", "type", "currentFilePath"}
    ensures ctx["fileName"] == Str(name) && ctx["type"] == Str(TypeName(kind))
    ensures var root := TemplateText(Lookup(globalCtx, "targetRoot"));
      ctx["currentFilePath"] == Str(root + LocationSuffix(origin))
  {
    var currentFilePath := TemplateText(Lookup(globalCtx, "targetRoot")) + LocationSuffix(origin);
    map["fileName" := Str(name), "type" := Str(TypeName(kind)), "currentFilePath" := Str(currentFilePath)]
  }

  /** `templateTransformer(templateDescriptor, injector, globalCtx)`: the nodes
      transformed one by one, in order; the first error aborts the walk. */
  function TemplateTransformer(nodes: seq<Node>, inject: (string, Ctx) -> Result<string, TemplateError>, globalCtx: Ctx)
    : (r: Result<seq<OutNode>, TemplateError>)
    ensures r.Success? ==> |r.value| == |nodes|
  {
    if |nodes| == 0 then Success([])
    else
      var head := TransformNode(nodes[0], inject, globalCtx);
      if head.Failure? then Failure(head.error)
      else
        var tail := TemplateTransformer(nodes[1..], inject, globalCtx);
        if tail.Failure? then Failure(tail.error)
        else Success([head.value] + tail.value)
  }

  /** A successful walk maps every node to its own transform, position by position. */
  lemma {:induction false} TransformPointwise(nodes: seq<Node>, inject: (string, Ctx) -> Result<string, TemplateError>, globalCtx: Ctx)
    requires TemplateTransformer(nodes, inject, globalCtx).Success?
    ensures var out := TemplateTransformer(nodes, inject, globalCtx).value;
      forall i :: 0 <= i < |nodes| ==> TransformNode(nodes[i], inject, globalCtx) == Success(out[i])
  {
    if |nodes| > 0 {
      var out := TemplateTransformer(nodes, inject, globalCtx).value;
      TransformCons(nodes, inject, globalCtx);
      var rest := TemplateTransformer(nodes[1..], inject, globalCtx).value;
      TransformPointwise(nodes[1..], inject, globalCtx);
      forall i | 1 <= i < |nodes| ensures TransformNode(nodes[i], inject, globalCtx) == Success(out[i]) {
        assert out[i] == rest[i - 1];
        assert nodes[i] == nodes[1..][i - 1];
      }
    }
  }

  /** A successful walk of a non-empty forest: the first node's transform, then the rest's. */
  lemma TransformCons(nodes: seq<Node>, inject: (string, Ctx) -> Result<string, TemplateError>, globalCtx: Ctx)
    requires |nodes| > 0 && TemplateTransformer(nodes, inject, globalCtx).Success?
    ensures TransformNode(nodes[0], inject, globalCtx).Success?
    ensures TemplateTransformer(nodes[1..], inject, globalCtx).Success?
    ensures TemplateTransformer(nodes, inject, globalCtx).value
      == [TransformNode(nodes[0], inject, globalCtx).value] + TemplateTransformer(nodes[1..], inject, globalCtx).value
  {
  }

  /** One node: a folder's name is injected with local type FOLDER and its
      children are transformed; a file's name is injected with FILE_NAME and
      its content with FILE_CONTENT. */
  function TransformNode(n: Node, inject: (string, Ctx) -> Result<string, TemplateError>, globalCtx: Ctx)
    : (r: Result<OutNode, TemplateError>)
    ensures r.Success? ==> (n.Folder? <==> r.value.OutFolder?)
    ensures r.Success? && n.Folder? ==>
      && inject(n.name, CreateLocalCtx(globalCtx, n.name, n.origin, FOLDER)) == Success(r.value.name)
      && TemplateTransformer(n.children, inject, globalCtx) == Success(r.value.children)
    ensures r.Success? && n.File? ==>
      && inject(n.name, CreateLocalCtx(globalCtx, n.name, n.origin, FILE_NAME)) == Success(r.value.name)
      && inject(n.content, CreateLocalCtx(globalCtx, n.name, n.origin, FILE_CONTENT)) == Success(r.value.content)
  {
    match n
    case Folder(name, children, origin) =>
      var newName := inject(name, CreateLocalCtx(globalCtx, name, origin, FOLDER));
      if newName.Failure? then Failure(newName.error)
      else
        var newChildren := TemplateTransformer(children, inject, globalCtx);
        if newChildren.Failure? then Failure(newChildren.error)
        else Success(OutFolder(newName.value, newChildren.value))
    case File(name, content, origin) =>
      var newName := inject(name, CreateLocalCtx(globalCtx, name, origin, FILE_NAME));
      if newName.Failure? then Failure(newName.error)
      else
        var newContent := inject(content, CreateLocalCtx(globalCtx, name, origin, FILE_CONTENT));
        if newContent.Failure? then Failure(newContent.error)
        else Success(OutFile(newName.value, newContent.value))
  }

  // ---------------------------------------------------------------- shape

  /** A tree with every string erased. */
  datatype Shape = FolderShape(children: seq<Shape>) | FileShape

  function ShapeOf(n: Node): Shape
  {
    match n
    case Folder(_, children, _) => FolderShape(ShapesOf(children))
    case File(_, _, _) => FileShape
  }

  function ShapesOf(ns: seq<Node>): seq<Shape>
  {
    if |ns| == 0 then [] else [ShapeOf(ns[0])] + ShapesOf(ns[1..])
  }

  function OutShapeOf(o: OutNode): Shape
  {
    match o
    case OutFolder(_, children) => FolderShape(OutShapesOf(children))
    case OutFile(_, _) => FileShape
  }

  function OutShapesOf(os: seq<OutNode>): seq<Shape>
  {
    if |os| == 0 then [] else [OutShapeOf(os[0])] + OutShapesOf(os[1..])
  }

  /** The transformed tree has the input's shape: same number of nodes at
      every level, same order, folders where folders were, files where files were. */
  lemma {:induction false} TransformPreservesShape(ns: seq<Node>, inject: (string, Ctx) -> Result<string, TemplateError>, globalCtx: Ctx)
    requires TemplateTransformer(ns, inject, globalCtx).Success?
    ensures OutShapesOf(TemplateTransformer(ns, inject, globalCtx).value) == ShapesOf(ns)
    decreases ns
  {
    var out := TemplateTransformer(ns, inject, globalCtx).value;
    if |ns| > 0 {
      TransformNodePreservesShape(ns[0], inject, globalCtx);
      assert TemplateTransformer(ns[1..], inject, globalCtx) == Success(out[1..]);
      TransformPreservesShape(ns[1..], inject, globalCtx);
    }
  }

  lemma {:induction false} TransformNodePreservesShape(n: Node, inject: (string, Ctx) -> Result<string, TemplateError>, globalCtx: Ctx)
    requires TransformNode(n, inject, globalCtx).Success?
    ensures OutShapeOf(TransformNode(n, inject, globalCtx).value) == ShapeOf(n)
    decreases n
  {
    if n.Folder? {
      TransformPreservesShape(n.children, inject, globalCtx);
    }
  }

  // ---------------------------------------------------------------- identity

  /** The raw tree with the reader's bookkeeping dropped. */
  function Strip(ns: seq<Node>): seq<OutNode>
  {
    if |ns| == 0 then [] else [StripNode(ns[0])] + Strip(ns[1..])
  }

  function StripNode(n: Node): OutNode
  {
    match n
    case Folder(name, children, _) => OutFolder(name, Strip(children))
    case File(name, content, _) => OutFile(name, content)
  }

  /** No name and no content anywhere in the tree holds a placeholder. */
  predicate TreeHasNoToken(ns: seq<Node>)
  {
    forall i :: 0 <= i < |ns| ==> NodeHasNoToken(ns[i])
  }

  predicate NodeHasNoToken(n: Node)
  {
    match n
    case Folder(name, children, _) => NoTokenIn(name) && TreeHasNoToken(children)
    case File(name, content, _) => NoTokenIn(name) && NoTokenIn(content)
  }

  /** A tree without placeholders comes back as it was, whatever the values,
      functions, transformers and context. */
  lemma {:induction false} TransformIdentity(ns: seq<Node>, keyValuePairs: map<string, string>, config: Config,
                                             applyTransformers: ApplyTransformers, globalCtx: Ctx)
    requires TreeHasNoToken(ns)
    ensures TemplateTransformer(ns, Injector(keyValuePairs, config, applyTransformers, globalCtx), globalCtx) == Success(Strip(ns))
    decreases ns
  {
    if |ns| > 0 {
      TransformNodeIdentity(ns[0], keyValuePairs, config, applyTransformers, globalCtx);
      TransformIdentity(ns[1..], keyValuePairs, config, applyTransformers, globalCtx);
    }
  }

  lemma {:induction false} TransformNodeIdentity(n: Node, keyValuePairs: map<string, string>, config: Config,
                                                 applyTransformers: ApplyTransformers, globalCtx: Ctx)
    requires NodeHasNoToken(n)
    ensures TransformNode(n, Injector(keyValuePairs, config, applyTransformers, globalCtx), globalCtx) == Success(StripNode(n))
    decreases n
  {
    var inject := Injector(keyValuePairs, config, applyTransformers, globalCtx);
    match n
    case Folder(name, children, origin) =>
      InjectOutcome(keyValuePairs, config, applyTransformers, globalCtx, name, CreateLocalCtx(globalCtx, name, origin, FOLDER));
      TransformIdentity(children, keyValuePairs, config, applyTransformers, globalCtx);
    case File(name, content, origin) =>
      InjectOutcome(keyValuePairs, config, applyTransformers, globalCtx, name, CreateLocalCtx(globalCtx, name, origin, FILE_NAME));
      InjectOutcome(keyValuePairs, config, applyTransformers, globalCtx, content, CreateLocalCtx(globalCtx, name, origin, FILE_CONTENT));
  }

  // ---------------------------------------------------------------- fail fast

  /** One call of the injector: the text and the local context it gets. */
  datatype Call = Call(text: string, localCtx: Ctx)

  /** The injector calls of a walk, in the order they are made: a folder's
      name before its children, a file's name before its content, siblings
      left to right. */
  function Calls(ns: seq<Node>, globalCtx: Ctx): seq<Call>
  {
    if |ns| == 0 then [] else NodeCalls(ns[0], globalCtx) + Calls(ns[1..], globalCtx)
  }

  function NodeCalls(n: Node, globalCtx: Ctx): seq<Call>
  {
    match n
    case Folder(name, children, origin) =>
      [Call(name, CreateLocalCtx(globalCtx, name, origin, FOLDER))] + Calls(children, globalCtx)
    case File(name, content, origin) =>
      [Call(name, CreateLocalCtx(globalCtx, name, origin, FILE_NAME)),
       Call(content, CreateLocalCtx(globalCtx, name, origin, FILE_CONTENT))]
  }

  /** The error of the first call that fails, if any does. */
  function FirstError(cs: seq<Call>, inject: (string, Ctx) -> Result<string, TemplateError>): (r: Option<TemplateError>)
    ensures r.None? ==> forall i :: 0 <= i < |cs| ==> inject(cs[i].text, cs[i].localCtx).Success?
    ensures r.Some? ==>
      exists i :: (0 <= i < |cs| && inject(cs[i].text, cs[i].localCtx) == Failure(r.value)
                   && forall j :: 0 <= j < i ==> inject(cs[j].text, cs[j].localCtx).Success?)
  {
    if |cs| == 0 then None
    else
      var head := inject(cs[0].text, cs[0].localCtx);
      if head.Failure? then Some(head.error)
      else
        var r := FirstError(cs[1..], inject);
        assert forall i :: 1 <= i < |cs| ==> cs[i] == cs[1..][i - 1];
        if r.Some? then
          var i :| 0 <= i < |cs| - 1 && inject(cs[1..][i].text, cs[1..][i].localCtx) == Failure(r.value)
            && forall j :: 0 <= j < i ==> inject(cs[1..][j].text, cs[1..][j].localCtx).Success?;
          assert inject(cs[i + 1].text, cs[i + 1].localCtx) == Failure(r.value);
          r
        else r
  }

  lemma {:induction false} FirstErrorAppend(a: seq<Call>, b: seq<Call>, inject: (string, Ctx) -> Result<string, TemplateError>)
    ensures FirstError(a + b, inject) == if FirstError(a, inject).Some? then FirstError(a, inject) else FirstError(b, inject)
  {
    if |a| > 0 {
      assert (a + b)[1..] == a[1..] + b;
      FirstErrorAppend(a[1..], b, inject);
    } else {
      assert a + b == b;
    }
  }

  /** Fail fast: the walk fails exactly when one of its injector calls fails,
      and with the error of the first call that fails; it succeeds only when
      every call succeeds. No partial tree is ever returned. */
  lemma {:induction false} TransformFailsAtFirstError(ns: seq<Node>, inject: (string, Ctx) -> Result<string, TemplateError>, globalCtx: Ctx)
    ensures match TemplateTransformer(ns, inject, globalCtx)
      case Success(_) => FirstError(Calls(ns, globalCtx), inject) == None
      case Failure(e) => FirstError(Calls(ns, globalCtx), inject) == Some(e)
    decreases ns
  {
    if |ns| > 0 {
      TransformNodeFailsAtFirstError(ns[0], inject, globalCtx);
      TransformFailsAtFirstError(ns[1..], inject, globalCtx);
      FirstErrorAppend(NodeCalls(ns[0], globalCtx), Calls(ns[1..], globalCtx), inject);
    }
  }

  lemma {:induction false} TransformNodeFailsAtFirstError(n: Node, inject: (string, Ctx) -> Result<string, TemplateError>, globalCtx: Ctx)
    ensures match TransformNode(n, inject, globalCtx)
      case Success(_) => FirstError(NodeCalls(n, globalCtx), inject) == None
      case Failure(e) => FirstError(NodeCalls(n, globalCtx), inject) == Some(e)
    decreases n
  {
    match n
    case Folder(name, children, origin) =>
      var first := Call(name, CreateLocalCtx(globalCtx, name, origin, FOLDER));
      TransformFailsAtFirstError(children, inject, globalCtx);
      FirstErrorAppend([first], Calls(children, globalCtx), inject);
      FirstErrorOfOne(first, inject);
    case File(name, content, origin) =>
      FirstErrorOfTwo(Call(name, CreateLocalCtx(globalCtx, name, origin, FILE_NAME)),
                      Call(content, CreateLocalCtx(globalCtx, name, origin, FILE_CONTENT)), inject);
  }

  lemma FirstErrorOfOne(c: Call, inject: (string, Ctx) -> Result<string, TemplateError>)
    ensures FirstError([c], inject) == match inject(c.text, c.localCtx)
      case Success(_) => None
      case Failure(e) => Some(e)
  {
    assert [c][1..] == [];
  }

  lemma FirstErrorOfTwo(c: Call, d: Call, inject: (string, Ctx) -> Result<string, TemplateError>)
    ensures FirstError([c, d], inject) == match inject(c.text, c.localCtx)
      case Failure(e) => Some(e)
      case Success(_) => FirstError([d], inject)
  {
    assert [c, d][1..] == [d];
  }
}
