/** The placeholder grammar of src/createTemplateStructure/index.js: the token
    pattern `keyPatternString`, and the three parsers `extractKey`,
    `isAFunctionKey` and `getKeyAndTransformers` applied to a matched token. */
module Placeholder {
  import opened Wrappers
  import opened Text

  /** The character class `[a-zA-Z_|0-9- ()]` of `keyPatternString`. The
      pattern string lost its backslashes, so its `s*` parts stand for literal
      `s` characters, which the class already admits; they add nothing. */
  predicate IsTokenChar(c: char) {
    || ('a' <= c <= 'z') || ('A' <= c <= 'Z') || ('0' <= c <= '9')
    || c == '_' || c == '|' || c == '-' || c == ' ' || c == '(' || c == ')'
  }

  /** A whole match of `keyPatternString`: `{{`, one or more class characters, `}}`. */
  predicate IsToken(t: string) {
    && |t| >= 5
    && t[0] == '{' && t[1] == '{'
    && t[|t| - 2] == '}' && t[|t| - 1] == '}'
    && forall i :: 2 <= i < |t| - 2 ==> IsTokenChar(t[i])
  }

  /** No token starts at the front of `s`. */
  predicate NoTokenAt(s: string) {
    forall n :: 0 <= n <= |s| ==> !IsToken(s[..n])
  }

  /** Length of the longest prefix of `s` made of class characters (the greedy `+`). */
  function RunLength(s: string): (n: nat)
    ensures n <= |s|
    ensures forall i :: 0 <= i < n ==> IsTokenChar(s[i])
    ensures n == |s| || !IsTokenChar(s[n])
  {
    if |s| > 0 && IsTokenChar(s[0]) then 1 + RunLength(s[1..]) else 0
  }

  /** The length of the token the pattern matches at the front of `s`, if any.
      Because the class excludes the braces, at most one prefix of `s` is a
      token, so greedy matching and backtracking agree. */
  function TokenLength(s: string): (r: Option<nat>)
    ensures r.Some? ==> r.value <= |s| && IsToken(s[..r.value])
    ensures r.None? ==> NoTokenAt(s)
    ensures forall n :: 0 <= n <= |s| && IsToken(s[..n]) ==> r == Some(n)
  {
    if |s| >= 2 && s[0] == '{' && s[1] == '{' then
      var k := RunLength(s[2..]);
      TokenLengthUnique(s, k);
      if 1 <= k && k + 4 <= |s| && s[k + 2] == '}' && s[k + 3] == '}' then
        assert IsToken(s[..k + 4]);
        Some(k + 4)
      else
        None
    else
      None
  }

  /** A token prefix of `s` is exactly as long as the class run after `{{`, plus four. */
  lemma TokenLengthUnique(s: string, k: nat)
    requires |s| >= 2 && k == RunLength(s[2..])
    ensures forall n :: 0 <= n <= |s| && IsToken(s[..n]) ==> n == k + 4
  {
    forall n | 0 <= n <= |s| && IsToken(s[..n]) ensures n == k + 4 {
      var t := s[..n];
      assert forall i :: 0 <= i < n - 4 ==> s[2..][i] == t[i + 2];
      assert s[2..][n - 4] == t[n - 2];
    }
  }

  /** `extractKey`: delete every `{` and `}`, then trim. */
  function ExtractKey(k: string): (r: string)
    ensures '{' !in r && '}' !in r
    ensures r == [] || (!IsJsSpace(r[0]) && !IsJsSpace(r[|r| - 1]))
  {
    var stripped := Remove(k, {'{', '}'});
    TrimKeepsOut(stripped, {'{', '}'});
    Trim(stripped)
  }

  /** `isAFunctionKey`: the unanchored test `/.+\(\)/`, true when `()` follows
      at least one character that is not a line terminator. */
  predicate IsAFunctionKey(k: string) {
    exists j :: 1 <= j && j + 1 < |k| && k[j] == '(' && k[j + 1] == ')' && !IsLineTerminator(k[j - 1])
  }

  /** Name looked up for a function token: the extracted key with every `(`
      and `)` deleted. Nothing trims it again afterwards. */
  function FunctionName(m: string): (r: string)
    ensures forall c :: c in r ==> c !in {'{', '}', '(', ')'}
  {
    var key := ExtractKey(m);
    var r := Remove(key, {'(', ')'});
    assert forall c :: c in r ==> c in key by {
      RemoveChars(key, {'(', ')'});
    }
    r
  }

  /** A token whose key is a parenthesis-free name followed by `()` names that function. */
  lemma NameOfCall(t: string, f: string)
    requires ExtractKey(t) == f + "()"
    requires forall i :: 0 <= i < |f| ==> f[i] !in {'(', ')'}
    ensures FunctionName(t) == f
  {
    DropCallParens(f);
  }

  /** Deleting the parentheses of `w()`. */
  lemma DropCallParens(w: string)
    ensures Remove(w + "()", {'(', ')'}) == Remove(w, {'(', ')'})
  {
    RemoveAppend(w, "()", {'(', ')'});
    assert Remove("()", {'(', ')'}) == "" by {
      assert "()"[1..] == ")";
      assert Remove(")", {'(', ')'}) == "";
    }
  }

  /** `getKeyAndTransformers`: split the extracted key on `|` and trim every segment. */
  function KeyAndTransformers(m: string): (r: seq<string>)
    ensures |r| >= 1
  {
    TrimEach(Split(ExtractKey(m), "|"))
  }

  /** The key of a value token: the first segment, a clean one. */
  function ValueKey(m: string): (r: string)
    ensures CleanSegment(r)
  {
    SegmentsAreClean(m);
    KeyAndTransformers(m)[0]
  }

  /** The transformer chain of a value token: the remaining segments, in
      order, every one of them clean. */
  function TransformerNames(m: string): (r: seq<string>)
    ensures |r| == |KeyAndTransformers(m)| - 1
    ensures forall i :: 0 <= i < |r| ==> CleanSegment(r[i])
  {
    var segments := KeyAndTransformers(m);
    SegmentsAreClean(m);
    CleanTail(segments);
    segments[1..]
  }

  /** Dropping the first of some clean segments leaves clean segments. */
  lemma CleanTail(segments: seq<string>)
    requires |segments| >= 1
    requires forall i :: 0 <= i < |segments| ==> CleanSegment(segments[i])
    ensures forall i :: 0 <= i < |segments| - 1 ==> CleanSegment(segments[1..][i])
  {
    forall i | 0 <= i < |segments| - 1
      ensures CleanSegment(segments[1..][i])
    {
      assert segments[1..][i] == segments[i + 1];
    }
  }

  /** Deleting characters never introduces new ones. */
  lemma {:induction false} RemoveChars(s: string, drop: set<char>)
    ensures forall c :: c in Remove(s, drop) ==> c in s && c !in drop
  {
    if |s| > 0 {
      RemoveChars(s[1..], drop);
    }
  }

  /** Parsing a value token: the segments are the `|`-separated pieces of the
      extracted key, in their original left-to-right order, each trimmed; the
      pieces joined back with `|` give the extracted key; no segment holds a
      `|`, a brace, or whitespace at either end. */
  lemma KeyAndTransformersSegments(m: string)
    ensures var key := ExtractKey(m);
      var parts := Split(key, "|");
      var r := KeyAndTransformers(m);
      && |r| == |parts|
      && Join(parts, "|") == key
      && (forall i :: 0 <= i < |r| ==> r[i] == Trim(parts[i]))
  {
    JoinSplit(ExtractKey(m), "|");
  }

  /** A parsed segment: no `|`, no brace, and no whitespace at either end. */
  predicate CleanSegment(p: string) {
    && '|' !in p && '{' !in p && '}' !in p
    && (p == [] || (!IsJsSpace(p[0]) && !IsJsSpace(p[|p| - 1])))
  }

  /** No segment contains `|` or a brace, and none starts or ends with whitespace. */
  lemma SegmentsAreClean(m: string)
    ensures forall i :: 0 <= i < |KeyAndTransformers(m)| ==> CleanSegment(KeyAndTransformers(m)[i])
  {
    var key := ExtractKey(m);
    var r := KeyAndTransformers(m);
    assert r == TrimEach(Split(key, "|"));
    SegmentsOf(key, r);
  }

  /** The segments of a brace-free key. */
  lemma SegmentsOf(key: string, r: seq<string>)
    requires '{' !in key && '}' !in key
    requires r == TrimEach(Split(key, "|"))
    ensures forall i :: 0 <= i < |r| ==> CleanSegment(r[i])
  {
    forall i | 0 <= i < |r|
      ensures CleanSegment(r[i])
    {
      SegmentChars(key, i);
    }
  }

  /** A trimmed piece of a brace-free key is a clean segment. */
  lemma SegmentChars(key: string, i: nat)
    requires '{' !in key && '}' !in key && i < |Split(key, "|")|
    ensures CleanSegment(Trim(Split(key, "|")[i]))
  {
    var parts := Split(key, "|");
    SplitPiecesLackSeparator(key, "|");
    ContainsChar(parts[i], '|');
    TrimChars(parts[i]);
    SplitPieceChars(key, "|", i);
  }

  /** Every character of a split piece comes from the split string. */
  lemma SplitPieceChars(s: string, sep: string, i: nat)
    requires |sep| > 0 && i < |Split(s, sep)|
    ensures forall c :: c in Split(s, sep)[i] ==> c in s
  {
    var parts := Split(s, sep);
    JoinSplit(s, sep);
    JoinPieceChars(parts, sep, i);
  }

  lemma {:induction false} JoinPieceChars(parts: seq<string>, sep: string, i: nat)
    requires i < |parts|
    ensures forall c :: c in parts[i] ==> c in Join(parts, sep)
  {
    if i > 0 {
      JoinPieceChars(parts[1..], sep, i - 1);
    }
  }

  /** For a matched token the braces are only at its ends, so the extracted
      key is the trimmed body between `{{` and `}}`. */
  lemma TokenExtractKey(t: string)
    requires IsToken(t)
    ensures ExtractKey(t) == Trim(t[2..|t| - 2])
  {
    TokenBracesRemoved(t);
  }

  lemma TokenBracesRemoved(t: string)
    requires IsToken(t)
    ensures Remove(t, {'{', '}'}) == t[2..|t| - 2]
  {
    var braces := {'{', '}'};
    var body := t[2..|t| - 2];
    assert t == "{{" + body + "}}";
    assert forall i :: 0 <= i < |body| ==> body[i] !in braces;
    DoubleBracesRemoved();
    RemoveFramed("{{", body, "}}", braces);
  }

  /** Deleting from a frame that vanishes around a body that is kept. */
  lemma RemoveFramed(a: string, b: string, c: string, drop: set<char>)
    requires Remove(a, drop) == "" && Remove(c, drop) == ""
    requires forall i :: 0 <= i < |b| ==> b[i] !in drop
    ensures Remove(a + b + c, drop) == b
  {
    RemoveAppend(a + b, c, drop);
    RemoveAppend(a, b, drop);
    assert Remove(b, drop) == b;
    assert "" + b + "" == b;
  }

  /** Deleting braces from `{{` and from `}}` leaves nothing. */
  lemma DoubleBracesRemoved()
    ensures Remove("{{", {'{', '}'}) == ""
    ensures Remove("}}", {'{', '}'}) == ""
  {
    assert "}}"[1..] == "}";
    assert Remove("}", {'{', '}'}) == "";
    assert "{{"[1..] == "{";
    assert Remove("{", {'{', '}'}) == "";
  }

  /** For a matched token, the function test reduces to: `()` occurs in it.
      Unlike a suffix test, `{{ a() | b }}` is a function token. */
  lemma TokenFunctionKey(t: string)
    requires IsToken(t)
    ensures IsAFunctionKey(t) <==> exists j :: 0 <= j && j + 1 < |t| && t[j] == '(' && t[j + 1] == ')'
  {
    if exists j :: 0 <= j && j + 1 < |t| && t[j] == '(' && t[j + 1] == ')' {
      var j :| 0 <= j && j + 1 < |t| && t[j] == '(' && t[j + 1] == ')';
      assert j >= 2;
      assert IsTokenChar(t[j - 1]) || t[j - 1] == '{';
    }
  }
}
