/** The few JavaScript string operations the template engine is built from:
    `trim`, `split` on a string separator, `Array.prototype.join`,
    `Array.prototype.pop` on a split, and deleting every occurrence of some
    characters (a global `replace` with the empty string). */
module Text {

  /** A line terminator, which the regular-expression `.` does not match. */
  predicate IsLineTerminator(c: char) {
    c == '\n' || c == '\r' || c == '\U{2028}' || c == '\U{2029}'
  }

  /** The code points `String.prototype.trim` strips: ECMAScript WhiteSpace and LineTerminator. */
  predicate IsJsSpace(c: char) {
    || IsLineTerminator(c)
    || c == '\t' || c == '\U{000B}' || c == '\U{000C}' || c == ' ' || c == '\U{00A0}'
    || c == '\U{1680}' || ('\U{2000}' <= c <= '\U{200A}')
    || c == '\U{202F}' || c == '\U{205F}' || c == '\U{3000}' || c == '\U{FEFF}'
  }

  predicate AllSpace(s: string) {
    forall i :: 0 <= i < |s| ==> IsJsSpace(s[i])
  }

  /** True iff `sub` occurs in `s` starting at some index. */
  predicate Contains(s: string, sub: string) {
    exists i :: 0 <= i <= |s| && sub <= s[i..]
  }

  // ---------------------------------------------------------------- trim

  /** Leading whitespace removed: the longest whitespace prefix goes. */
  function TrimStart(s: string): (r: string)
    ensures |r| <= |s| && r == s[|s| - |r|..]
    ensures AllSpace(s[..|s| - |r|])
    ensures r == [] || !IsJsSpace(r[0])
  {
    if |s| > 0 && IsJsSpace(s[0]) then
      var r := TrimStart(s[1..]);
      assert s[..|s| - |r|] == [s[0]] + s[1..][..|s| - 1 - |r|];
      r
    else
      s
  }

  /** Trailing whitespace removed: the longest whitespace suffix goes. */
  function TrimEnd(s: string): (r: string)
    ensures |r| <= |s| && r == s[..|r|]
    ensures AllSpace(s[|r|..])
    ensures r == [] || !IsJsSpace(r[|r| - 1])
  {
    if |s| > 0 && IsJsSpace(s[|s| - 1]) then
      var r := TrimEnd(s[..|s| - 1]);
      assert s[|r|..] == s[..|s| - 1][|r|..] + [s[|s| - 1]];
      r
    else
      s
  }

  /** `r` is `s[k..k + |r|]` with only whitespace around it. */
  predicate TrimmedAt(s: string, k: int, r: string) {
    0 <= k <= |s| - |r| && r == s[k..k + |r|] && AllSpace(s[..k]) && AllSpace(s[k + |r|..])
  }

  /** `String.prototype.trim`: whitespace goes from both ends, so the result
      neither starts nor ends with whitespace (`TrimIsSlice` says what is kept). */
  function Trim(s: string): (r: string)
    ensures |r| <= |s|
    ensures r == [] || (!IsJsSpace(r[0]) && !IsJsSpace(r[|r| - 1]))
  {
    TrimEnd(TrimStart(s))
  }

  /** The trimmed string is the slice of `s` left once the whitespace on both
      ends is gone. */
  lemma TrimIsSlice(s: string)
    ensures exists k :: TrimmedAt(s, k, Trim(s))
  {
    var t := TrimStart(s);
    TrimmedAtCompose(s, t, TrimEnd(t));
    assert TrimmedAt(s, |s| - |t|, Trim(s));
  }

  /** Whitespace cut from the front, then from the back, leaves a trimmed slice. */
  lemma TrimmedAtCompose(s: string, t: string, r: string)
    requires |t| <= |s| && t == s[|s| - |t|..] && AllSpace(s[..|s| - |t|])
    requires |r| <= |t| && r == t[..|r|] && AllSpace(t[|r|..])
    ensures TrimmedAt(s, |s| - |t|, r)
  {
    var k := |s| - |t|;
    assert r == s[k..k + |r|];
    assert s[k + |r|..] == t[|r|..];
  }

  lemma TrimIdentity(s: string)
    ensures Trim(s) == s <==> (s == [] || (!IsJsSpace(s[0]) && !IsJsSpace(s[|s| - 1])))
  {
    var r := Trim(s);
    if s != [] && !IsJsSpace(s[0]) && !IsJsSpace(s[|s| - 1]) {
      TrimIsSlice(s);
      var k :| TrimmedAt(s, k, r);
      assert k == 0 && |r| == |s|;
    }
  }

  /** Leading whitespace followed by a part that does not start with whitespace: only the part is kept. */
  lemma {:induction false} TrimStartSkips(a: string, c: string)
    requires AllSpace(a) && (c == [] || !IsJsSpace(c[0]))
    ensures TrimStart(a + c) == c
  {
    if |a| > 0 {
      assert (a + c)[1..] == a[1..] + c;
      TrimStartSkips(a[1..], c);
    } else {
      assert a + c == c;
    }
  }

  /** A part that does not end with whitespace followed by trailing whitespace: only the part is kept. */
  lemma {:induction false} TrimEndSkips(c: string, b: string)
    requires AllSpace(b) && (c == [] || !IsJsSpace(c[|c| - 1]))
    ensures TrimEnd(c + b) == c
  {
    if |b| > 0 {
      assert (c + b)[..|c + b| - 1] == c + b[..|b| - 1];
      TrimEndSkips(c, b[..|b| - 1]);
    } else {
      assert c + b == c;
    }
  }

  /** `Trim` is determined by its contract: whitespace, then a part with no
      whitespace at its ends, then whitespace, trims to exactly that part. */
  lemma TrimExact(a: string, core: string, b: string)
    requires AllSpace(a) && AllSpace(b)
    requires core == [] || (!IsJsSpace(core[0]) && !IsJsSpace(core[|core| - 1]))
    ensures Trim(a + core + b) == core
  {
    if core == [] {
      assert a + core + b == a + b;
      assert AllSpace(a + b);
      TrimStartSkips(a + b, []);
      assert a + b + [] == a + b;
      TrimEndSkips([], []);
    } else {
      assert a + core + b == a + (core + b);
      TrimStartSkips(a, core + b);
      TrimEndSkips(core, b);
    }
  }

  /** Trimming introduces no character that the string avoids. */
  lemma TrimKeepsOut(s: string, drop: set<char>)
    requires forall i :: 0 <= i < |s| ==> s[i] !in drop
    ensures forall i :: 0 <= i < |Trim(s)| ==> Trim(s)[i] !in drop
  {
    var r := Trim(s);
    TrimIsSlice(s);
    var k :| TrimmedAt(s, k, r);
    assert forall i :: 0 <= i < |r| ==> r[i] == s[k + i];
  }

  /** Every character of a trimmed string comes from the original. */
  lemma TrimChars(s: string)
    ensures forall c :: c in Trim(s) ==> c in s
  {
    var r := Trim(s);
    TrimIsSlice(s);
    var k :| TrimmedAt(s, k, r);
    forall c | c in r ensures c in s {
      var i :| 0 <= i < |r| && r[i] == c;
      assert s[k + i] == c;
    }
  }

  // ---------------------------------------------------------------- remove

  /** `s` with every character of `drop` deleted (a global `replace` of a
      character class by the empty string). */
  function Remove(s: string, drop: set<char>): (r: string)
    ensures |r| <= |s|
    ensures forall i :: 0 <= i < |r| ==> r[i] !in drop
    ensures (forall i :: 0 <= i < |s| ==> s[i] !in drop) ==> r == s
  {
    if |s| == 0 then "" else (if s[0] in drop then "" else [s[0]]) + Remove(s[1..], drop)
  }

  /** Deleting characters works piecewise: together with the one-character
      cases this pins `Remove` down completely. */
  lemma {:induction false} RemoveAppend(a: string, b: string, drop: set<char>)
    ensures Remove(a + b, drop) == Remove(a, drop) + Remove(b, drop)
  {
    if |a| > 0 {
      assert (a + b)[1..] == a[1..] + b;
      RemoveAppend(a[1..], b, drop);
    } else {
      assert a + b == b;
    }
  }

  // ---------------------------------------------------------------- split / join

  /** `String.prototype.split(sep)` for a non-empty separator: the separator
      occurrences found scanning left to right cut `s` into pieces. */
  function Split(s: string, sep: string): (parts: seq<string>)
    requires |sep| > 0
    ensures |parts| >= 1
    ensures parts[0] <= s
    decreases |s|
  {
    if sep <= s then [""] + Split(s[|sep|..], sep)
    else if |s| == 0 then [""]
    else
      var rest := Split(s[1..], sep);
      [[s[0]] + rest[0]] + rest[1..]
  }

  /** Every string of `parts` trimmed, in order (`map(_ => _.trim())`). */
  function TrimEach(parts: seq<string>): (r: seq<string>)
    ensures |r| == |parts|
    ensures forall i :: 0 <= i < |r| ==> r[i] == Trim(parts[i])
  {
    if |parts| == 0 then []
    else
      var rest := TrimEach(parts[1..]);
      assert forall i :: 1 <= i < |parts| ==> parts[1..][i - 1] == parts[i];
      [Trim(parts[0])] + rest
  }

  /** `Array.prototype.join(sep)` over strings. */
  function Join(parts: seq<string>, sep: string): string
  {
    if |parts| == 0 then ""
    else if |parts| == 1 then parts[0]
    else parts[0] + sep + Join(parts[1..], sep)
  }

  /** The last element of a non-empty sequence (`pop()`'s return value). */
  function Last<T>(xs: seq<T>): T
    requires |xs| > 0
  {
    xs[|xs| - 1]
  }

  /** No piece produced by `Split` contains the separator. */
  lemma {:induction false} SplitPiecesLackSeparator(s: string, sep: string)
    requires |sep| > 0
    ensures forall i :: 0 <= i < |Split(s, sep)| ==> !Contains(Split(s, sep)[i], sep)
    decreases |s|
  {
    var parts := Split(s, sep);
    if sep <= s {
      SplitPiecesLackSeparator(s[|sep|..], sep);
      assert !Contains("", sep);
    } else if |s| == 0 {
      assert !Contains("", sep);
    } else {
      var rest := Split(s[1..], sep);
      SplitPiecesLackSeparator(s[1..], sep);
      var p := [s[0]] + rest[0];
      assert p <= s;
      forall i | 0 <= i <= |p| ensures !(sep <= p[i..]) {
        if i > 0 {
          assert p[i..] == rest[0][i - 1..];
        }
      }
      forall i | 0 <= i < |parts| ensures !Contains(parts[i], sep) {
        if i > 0 {
          assert parts[i] == rest[i];
        }
      }
    }
  }

  /** Joining the pieces with the separator gives back the string: nothing is lost by splitting. */
  lemma {:induction false} JoinSplit(s: string, sep: string)
    requires |sep| > 0
    ensures Join(Split(s, sep), sep) == s
    decreases |s|
  {
    if sep <= s {
      JoinSplit(s[|sep|..], sep);
      JoinSplitAtSeparator(s, sep);
    } else if |s| > 0 {
      JoinSplit(s[1..], sep);
      JoinSplitAtChar(s, sep);
    }
  }

  /** The step of `JoinSplit` where the string starts with the separator. */
  lemma JoinSplitAtSeparator(s: string, sep: string)
    requires |sep| > 0 && sep <= s
    requires Join(Split(s[|sep|..], sep), sep) == s[|sep|..]
    ensures Join(Split(s, sep), sep) == s
  {
    var rest := Split(s[|sep|..], sep);
    SplitAtSeparator(s, sep);
    JoinEmptyHead(rest, sep);
    PrefixThenRest(sep, s);
  }

  /** `Split` on a string that starts with the separator. */
  lemma SplitAtSeparator(s: string, sep: string)
    requires |sep| > 0 && sep <= s
    ensures Split(s, sep) == [""] + Split(s[|sep|..], sep)
  {
  }

  /** Joining after an empty first piece starts with the separator. */
  lemma JoinEmptyHead(rest: seq<string>, sep: string)
    requires |rest| >= 1
    ensures Join([""] + rest, sep) == sep + Join(rest, sep)
  {
    assert ([""] + rest)[1..] == rest;
  }

  /** The step of `JoinSplit` where the string starts with another character. */
  lemma JoinSplitAtChar(s: string, sep: string)
    requires |sep| > 0 && !(sep <= s) && |s| > 0
    requires Join(Split(s[1..], sep), sep) == s[1..]
    ensures Join(Split(s, sep), sep) == s
  {
    var rest := Split(s[1..], sep);
    SplitAtChar(s, sep);
    JoinCons(s[0], rest, sep);
    assert Join(Split(s, sep), sep) == [s[0]] + s[1..];
    HeadThenTail(s);
  }

  /** `Split` on a string that does not start with the separator. */
  lemma SplitAtChar(s: string, sep: string)
    requires |sep| > 0 && !(sep <= s) && |s| > 0
    ensures var rest := Split(s[1..], sep); Split(s, sep) == [[s[0]] + rest[0]] + rest[1..]
  {
  }

  lemma HeadThenTail(s: string)
    requires |s| > 0
    ensures [s[0]] + s[1..] == s
  {
  }

  lemma PrefixThenRest(p: string, s: string)
    requires p <= s
    ensures p + s[|p|..] == s
  {
  }

  /** Prepending a character to the first piece prepends it to the join. */
  lemma JoinCons(c: char, parts: seq<string>, sep: string)
    requires |parts| >= 1
    ensures Join([[c] + parts[0]] + parts[1..], sep) == [c] + Join(parts, sep)
  {
    var q := [[c] + parts[0]] + parts[1..];
    if |parts| > 1 {
      assert q[1..] == parts[1..];
    }
  }

  /** Splitting on a string that starts with a one-character separator-free prefix. */
  lemma {:induction false} SplitPrefix(a: string, tail: string, c: char)
    requires c !in a
    ensures Split(a + tail, [c]) == [a + Split(tail, [c])[0]] + Split(tail, [c])[1..]
  {
    if |a| > 0 {
      var s := a + tail;
      assert s[1..] == a[1..] + tail;
      assert !([c] <= s) by {
        assert s[0] == a[0];
      }
      SplitAtChar(s, [c]);
      SplitPrefix(a[1..], tail, c);
      ConsFirstPiece(a, Split(tail, [c])[0]);
    } else {
      var parts := Split(tail, [c]);
      assert a + tail == tail && a + parts[0] == parts[0];
      assert [parts[0]] + parts[1..] == parts;
    }
  }

  lemma ConsFirstPiece(a: string, p: string)
    requires |a| > 0
    ensures [a[0]] + (a[1..] + p) == a + p
  {
  }

  /** For a one-character separator, splitting undoes joining: `Split` and
      `Join` are inverse to each other on separator-free pieces. */
  lemma {:induction false} SplitJoin(parts: seq<string>, c: char)
    requires |parts| >= 1
    requires forall i :: 0 <= i < |parts| ==> c !in parts[i]
    ensures Split(Join(parts, [c]), [c]) == parts
  {
    if |parts| == 1 {
      SplitPrefix(parts[0], "", c);
      assert parts[0] + "" == parts[0];
    } else {
      var j := Join(parts[1..], [c]);
      SplitJoin(parts[1..], c);
      SplitAfterSeparator(j, c);
      SplitPrefix(parts[0], [c] + j, c);
      assert parts[0] + [c] + j == parts[0] + ([c] + j);
      assert parts[0] + "" == parts[0];
      assert [parts[0]] + parts[1..] == parts;
    }
  }

  /** Splitting `c` followed by `j` on `c`: an empty piece, then `j`'s pieces. */
  lemma SplitAfterSeparator(j: string, c: char)
    ensures Split([c] + j, [c]) == [""] + Split(j, [c])
  {
    assert ([c] + j)[|[c]|..] == j;
    SplitAtSeparator([c] + j, [c]);
  }

  /** One-character separators: containment is plain membership. */
  lemma ContainsChar(s: string, c: char)
    ensures Contains(s, [c]) <==> c in s
  {
    if c in s {
      var i :| 0 <= i < |s| && s[i] == c;
      assert [c] <= s[i..];
    }
    if Contains(s, [c]) {
      var i :| 0 <= i <= |s| && [c] <= s[i..];
      assert s[i] == c;
    }
  }

  /** The last piece of a split is what follows the last separator cut: the
      string is the earlier pieces, joined, then the separator, then the last
      piece; with a single piece it is the whole string. */
  lemma SplitLast(s: string, sep: string)
    requires |sep| > 0
    ensures var parts := Split(s, sep);
      && (|parts| == 1 ==> Last(parts) == s)
      && (|parts| > 1 ==> s == Join(parts[..|parts| - 1], sep) + sep + Last(parts))
      && !Contains(Last(parts), sep)
  {
    var parts := Split(s, sep);
    JoinSplit(s, sep);
    SplitPiecesLackSeparator(s, sep);
    if |parts| > 1 {
      JoinSnoc(parts, sep);
    }
  }

  /** Joining a sequence of two or more pieces puts the last one after the final separator. */
  lemma {:induction false} JoinSnoc(parts: seq<string>, sep: string)
    requires |parts| > 1
    ensures Join(parts, sep) == Join(parts[..|parts| - 1], sep) + sep + Last(parts)
  {
    if |parts| > 2 {
      JoinSnoc(parts[1..], sep);
      assert parts[1..][..|parts| - 2] == parts[..|parts| - 1][1..];
    }
  }

  // ---------------------------------------------------------------- last index

  /** Index of the last occurrence of `c` in `s`, or -1 when there is none. */
  function LastIndexOf(s: string, c: char): (k: int)
    ensures -1 <= k < |s|
    ensures k >= 0 ==> s[k] == c
    ensures forall j :: k < j < |s| ==> s[j] != c
  {
    if |s| == 0 then -1
    else if s[|s| - 1] == c then |s| - 1
    else
      var k := LastIndexOf(s[..|s| - 1], c);
      assert forall j :: k < j < |s| - 1 ==> s[..|s| - 1][j] == s[j];
      k
  }

  /** The last `c` of `a + [c] + b` is the one after `a` when `b` holds none. */
  lemma LastIndexOfSplitPoint(a: string, c: char, b: string)
    requires c !in b
    ensures LastIndexOf(a + [c] + b, c) == |a|
  {
    var s := a + [c] + b;
    assert s[|a|] == c;
    assert s[|a| + 1..] == b;
    assert forall j :: |a| < j < |s| ==> s[j] == b[j - |a| - 1];
  }
}
