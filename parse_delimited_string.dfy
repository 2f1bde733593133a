/** `parseDelimitedString` (src/transformation/parseDelimitedString.ts):
    split a string at a delimiter with the white space around it, transform
    every piece, and keep the pieces whose transform is not `null` or
    `undefined`. The delimiter is put into the regular expression
    `\s*<delimiter>\s*` unescaped; the model takes delimiters that are
    literal text there: non-empty, with no white space and no regular
    expression syntax character. */
module DelimitedString {
  import opened Wrappers
  import opened JsText

  /** The SyntaxCharacter set of section 22.2.1 of ECMA-262. */
  predicate IsSyntaxChar(c: char) {
    c == '^' || c == '$' || c == '\\' || c == '.' || c == '*' || c == '+' || c == '?' ||
    c == '(' || c == ')' || c == '[' || c == ']' || c == '{' || c == '}' || c == '|'
  }

  predicate IsLiteralDelimiter(d: string) {
    d != [] && forall i :: 0 <= i < |d| ==> !IsWhitespace(d[i]) && !IsSyntaxChar(d[i])
  }

  predicate StartsWith(s: string, prefix: string) {
    |prefix| <= |s| && forall i :: 0 <= i < |prefix| ==> s[i] == prefix[i]
  }

  /** Where the run of white space starting at `q` ends: what a greedy
      `\s*` matches from `q`. */
  function SpaceEnd(s: string, q: nat): (w: nat)
    requires q <= |s|
    ensures q <= w <= |s|
    ensures w == |s| || !IsWhitespace(s[w])
    decreases |s| - q
  {
    if q < |s| && IsWhitespace(s[q]) then SpaceEnd(s, q + 1) else q
  }

  /** What `SpaceEnd` skips is white space. */
  lemma {:induction false} SpaceEndSpaces(s: string, q: nat)
    requires q <= |s|
    ensures forall i :: q <= i < SpaceEnd(s, q) ==> IsWhitespace(s[i])
    decreases |s| - q
  {
    if q < |s| && IsWhitespace(s[q]) {
      SpaceEndSpaces(s, q + 1);
    }
  }

  /** Matching `\s*<d>\s*` at exactly position `q`: the end of the match,
      or `None`. Since `d` starts with a character that is not white space,
      the leading `\s*` never has to give back what it took. */
  function MatchAt(s: string, q: nat, d: string): (e: Option<nat>)
    requires q <= |s|
    ensures e.Some? ==> q + |d| <= e.value <= |s|
  {
    var w := SpaceEnd(s, q);
    if StartsWith(s[w..], d) then Some(SpaceEnd(s, w + |d|)) else None
  }

  /** The leftmost match at or after `q`, as its start and end. */
  function FirstMatch(s: string, d: string, q: nat): (m: Option<(nat, nat)>)
    requires q <= |s| && d != []
    ensures m.Some? ==> q <= m.value.0 < m.value.1 <= |s|
    decreases |s| - q
  {
    if q == |s| then None
    else match MatchAt(s, q, d)
      case Some(e) => Some((q, e))
      case None => FirstMatch(s, d, q + 1)
  }

  /** `s.split(new RegExp(`\s*${d}\s*`))` by the splitting algorithm of
      section 22.2.6.14 of ECMA-262: the text before the leftmost match,
      then the split of what follows it. A match is never empty, so the
      algorithm's empty-match case does not arise. */
  function Split(s: string, d: string): (pieces: seq<string>)
    requires IsLiteralDelimiter(d)
    ensures |pieces| >= 1
    decreases |s|
  {
    match FirstMatch(s, d, 0)
    case None => [s]
    case Some(m) => [s[..m.0]] + Split(s[m.1..], d)
  }

  /** The transformed pieces that are not `null` or `undefined` (`None`),
      in order. */
  function FilterMap<T>(pieces: seq<string>, transform: string -> Option<T>): (r: seq<T>)
    ensures |r| <= |pieces|
  {
    if pieces == [] then []
    else
      var last := transform(pieces[|pieces| - 1]);
      FilterMap(pieces[..|pieces| - 1], transform) + (if last.Some? then [last.value] else [])
  }

  /** The delimiter used when none is given. */
  function DelimiterOf(delimiter: Option<string>): string {
    match delimiter
    case Some(d) => d
    case None => ","
  }

  /** `defaultTransformValue`: a piece with a character that is not white
      space is kept as it is; any other piece becomes `null`. */
  function DefaultTransformValue(value: string): (r: Option<string>)
    ensures r.Some? <==> HasNonWhitespace(value)
    ensures r.Some? ==> r.value == value
  {
    if HasNonWhitespace(value) then Some(value) else None
  }

  /** `parseDelimitedString(value, { delimiter, transformValue })`; a caller
      that leaves `transformValue` out passes `DefaultTransformValue`. */
  method ParseDelimitedString<T>(value: string, delimiter: Option<string>, transformValue: string -> Option<T>)
    returns (result: seq<T>)
    requires IsLiteralDelimiter(DelimiterOf(delimiter))
    ensures result == FilterMap(Split(value, DelimiterOf(delimiter)), transformValue)
  {
    var pieces := Split(value, DelimiterOf(delimiter));
    result := [];
    for i := 0 to |pieces|
      invariant result == FilterMap(pieces[..i], transformValue)
    {
      var transformed := transformValue(pieces[i]);
      assert pieces[..i + 1][..i] == pieces[..i];
      if transformed.Some? {
        result := result + [transformed.value];
      }
    }
    assert pieces[..|pieces|] == pieces;
  }

  /** The pieces of a concatenation are kept in order: the result for
      `p + q` is the result for `p` followed by the result for `q`. */
  lemma {:induction false} FilterMapConcat<T>(p: seq<string>, q: seq<string>, transform: string -> Option<T>)
    ensures FilterMap(p + q, transform) == FilterMap(p, transform) + FilterMap(q, transform)
  {
    if q != [] {
      var pq := p + q;
      assert pq[..|pq| - 1] == p + q[..|q| - 1];
      assert pq[|pq| - 1] == q[|q| - 1];
      FilterMapConcat(p, q[..|q| - 1], transform);
    } else {
      assert p + q == p;
    }
  }

  /** One piece is kept, transformed, exactly when its transform is not
      `null` or `undefined`. */
  lemma FilterMapOne<T>(piece: string, transform: string -> Option<T>)
    ensures FilterMap([piece], transform) ==
      match transform(piece) case Some(v) => [v] case None => []
  {
    assert [piece][..0] == [];
  }

  /** The runs of white space `SpaceEnd` finds are the maximal ones. */
  lemma {:induction false} SpaceEndIs(s: string, q: nat, k: nat)
    requires q <= k <= |s|
    requires forall i :: q <= i < k ==> IsWhitespace(s[i])
    requires k == |s| || !IsWhitespace(s[k])
    ensures SpaceEnd(s, q) == k
    decreases k - q
  {
    if q < k {
      SpaceEndIs(s, q + 1, k);
    }
  }

  /** No match starts at or after `q` when the delimiter's first character
      does not occur there. */
  lemma {:induction false} NoMatchFrom(s: string, d: string, q: nat)
    requires q <= |s| && d != []
    requires forall i :: q <= i < |s| ==> s[i] != d[0]
    ensures FirstMatch(s, d, q) == None
    decreases |s| - q
  {
    if q < |s| {
      var w := SpaceEnd(s, q);
      if w < |s| {
        assert s[w..][0] == s[w];
      }
      assert !StartsWith(s[w..], d);
      NoMatchFrom(s, d, q + 1);
    }
  }

  /** Positions where no match starts can be skipped. */
  lemma {:induction false} SkipNoMatch(s: string, d: string, q: nat, k: nat)
    requires q <= k <= |s| && d != []
    requires forall i :: q <= i < k ==> MatchAt(s, i, d) == None
    ensures FirstMatch(s, d, q) == FirstMatch(s, d, k)
    decreases k - q
  {
    if q < k {
      SkipNoMatch(s, d, q + 1, k);
    }
  }

  /** Text without the delimiter's first character is one piece. */
  lemma SplitWithoutDelimiter(s: string, d: string)
    requires IsLiteralDelimiter(d)
    requires d[0] !in s
    ensures Split(s, d) == [s]
  {
    NoMatchFrom(s, d, 0);
  }

  /** No match starts before `n` when the delimiter's first character
      does not occur there and `n` does not follow white space. */
  lemma NoMatchBefore(s: string, d: string, n: nat)
    requires d != [] && n <= |s|
    requires forall i :: 0 <= i < n ==> s[i] != d[0]
    requires n == 0 || !IsWhitespace(s[n - 1])
    ensures forall q :: 0 <= q < n ==> MatchAt(s, q, d) == None
  {
    forall q | 0 <= q < n
      ensures MatchAt(s, q, d) == None
    {
      var w := SpaceEnd(s, q);
      SpaceEndSpaces(s, q);
      assert w < n;
      assert s[w..][0] == s[w];
    }
  }

  /** White space from `q` to `start`, the delimiter, then white space up
      to `e` and no further: the match at `q` ends at `e`. */
  lemma MatchAtIs(s: string, d: string, q: nat, start: nat, e: nat)
    requires IsLiteralDelimiter(d)
    requires q <= start && start + |d| <= e <= |s|
    requires forall i :: q <= i < start ==> IsWhitespace(s[i])
    requires s[start..start + |d|] == d
    requires forall i :: start + |d| <= i < e ==> IsWhitespace(s[i])
    requires e == |s| || !IsWhitespace(s[e])
    ensures MatchAt(s, q, d) == Some(e)
  {
    assert s[start] == d[0];
    SpaceEndIs(s, q, start);
    assert s[start..][..|d|] == s[start..start + |d|];
    SpaceEndIs(s, start + |d|, e);
  }

  /** Splitting at the leftmost match, stated on positions: the match runs
      from `n` to `e`, with the delimiter at `start`. */
  lemma SplitAt(s: string, d: string, n: nat, start: nat, e: nat)
    requires IsLiteralDelimiter(d)
    requires n <= start && start + |d| <= e <= |s|
    requires forall i :: 0 <= i < n ==> s[i] != d[0]
    requires n == 0 || !IsWhitespace(s[n - 1])
    requires forall i :: n <= i < start ==> IsWhitespace(s[i])
    requires s[start..start + |d|] == d
    requires forall i :: start + |d| <= i < e ==> IsWhitespace(s[i])
    requires e == |s| || !IsWhitespace(s[e])
    ensures Split(s, d) == [s[..n]] + Split(s[e..], d)
  {
    NoMatchBefore(s, d, n);
    SkipNoMatch(s, d, 0, n);
    MatchAtIs(s, d, n, start, e);
    assert n < |s|;
    assert FirstMatch(s, d, n) == Some((n, e));
  }

  /** Where the parts of `a + w1 + d + w2 + b` sit. */
  lemma PartsAt(s: string, a: string, w1: string, d: string, w2: string, b: string, start: nat, e: nat)
    requires s == a + w1 + d + w2 + b
    requires start == |a| + |w1| && e == start + |d| + |w2|
    requires d != [] && d[0] !in a
    requires a == [] || !IsWhitespace(a[|a| - 1])
    requires AllWhitespace(w1) && AllWhitespace(w2)
    requires b == [] || !IsWhitespace(b[0])
    ensures e <= |s|
    ensures forall i :: 0 <= i < |a| ==> s[i] != d[0]
    ensures |a| == 0 || !IsWhitespace(s[|a| - 1])
    ensures forall i :: |a| <= i < start ==> IsWhitespace(s[i])
    ensures s[start..start + |d|] == d
    ensures forall i :: start + |d| <= i < e ==> IsWhitespace(s[i])
    ensures e == |s| || !IsWhitespace(s[e])
    ensures s[..|a|] == a && s[e..] == b
  {
    var s1 := a + w1;
    var s2 := s1 + d;
    var s3 := s2 + w2;
    assert s == s3 + b;
    forall i | 0 <= i < |a| ensures s[i] != d[0] {
      assert s[i] == s3[i] == s2[i] == s1[i] == a[i];
      assert a[i] in a;
    }
    forall i | |a| <= i < start ensures IsWhitespace(s[i]) {
      assert s[i] == s3[i] == s2[i] == s1[i] == w1[i - |a|];
    }
    forall i | start + |d| <= i < e ensures IsWhitespace(s[i]) {
      assert s[i] == s3[i] == w2[i - |s2|];
    }
    assert s[start..start + |d|] == s2[start..start + |d|];
    if e < |s| {
      assert s[e] == b[0];
    }
    if a != [] {
      assert s[|a| - 1] == s1[|a| - 1] == a[|a| - 1];
    }
    assert s[..|a|] == a;
    assert s[e..] == b;
  }

  /** The input is cut at a delimiter, and the white space on both sides
      of it goes with it: the piece before keeps only what precedes that
      white space, and splitting goes on right after it. The piece before
      may start with white space, which it keeps. */
  lemma SplitAtDelimiter(a: string, w1: string, d: string, w2: string, b: string)
    requires IsLiteralDelimiter(d)
    requires d[0] !in a
    requires a == [] || !IsWhitespace(a[|a| - 1])
    requires AllWhitespace(w1) && AllWhitespace(w2)
    requires b == [] || !IsWhitespace(b[0])
    ensures Split(a + w1 + d + w2 + b, d) == [a] + Split(b, d)
  {
    var s := a + w1 + d + w2 + b;
    var start := |a| + |w1|;
    var e := start + |d| + |w2|;
    PartsAt(s, a, w1, d, w2, b, start, e);
    SplitAt(s, d, |a|, start, e);
  }

  /** White space alone is one piece. */
  lemma SplitBlank(w: string, d: string)
    requires IsLiteralDelimiter(d) && AllWhitespace(w)
    ensures Split(w, d) == [w]
  {
    assert forall i :: 0 <= i < |w| ==> w[i] != d[0];
    SplitWithoutDelimiter(w, d);
  }

  /** The first two gaps and the delimiter between them, then the rest
      joined after an empty gap. */
  lemma JoinGaps(gaps: seq<string>, d: string)
    requires |gaps| >= 2 && d != []
    ensures Join(gaps, d) == [] + gaps[0] + d + gaps[1] + Join([[]] + gaps[2..], d)
    ensures Join([[]] + gaps[2..], d) == [] || Join([[]] + gaps[2..], d)[0] == d[0]
  {
    var next := [[]] + gaps[2..];
    var tail := Join(next, d);
    if |gaps| == 2 {
      assert tail == [];
    } else {
      assert next[1..] == gaps[2..];
      assert tail == [] + d + Join(gaps[2..], d);
    }
    assert gaps[1..][1..] == gaps[2..];
    assert Join(gaps[1..], d) == gaps[1] + tail;
  }

  /** Delimiters with only white space between and around them give
      pieces of white space. */
  lemma {:induction false} SplitOfGaps(gaps: seq<string>, d: string)
    requires IsLiteralDelimiter(d) && gaps != []
    requires forall i :: 0 <= i < |gaps| ==> AllWhitespace(gaps[i])
    ensures forall piece :: piece in Split(Join(gaps, d), d) ==> AllWhitespace(piece)
    decreases |gaps|
  {
    if |gaps| == 1 {
      SplitBlank(gaps[0], d);
    } else {
      var next := [[]] + gaps[2..];
      var tail := Join(next, d);
      JoinGaps(gaps, d);
      SplitAtDelimiter([], gaps[0], d, gaps[1], tail);
      SplitOfGaps(next, d);
      var pieces := Split(Join(gaps, d), d);
      assert pieces == [[]] + Split(tail, d);
    }
  }

  /** With the default transform, pieces of white space vanish. */
  lemma {:induction false} BlankPiecesVanish(pieces: seq<string>)
    requires forall piece :: piece in pieces ==> AllWhitespace(piece)
    ensures FilterMap(pieces, DefaultTransformValue) == []
  {
    if pieces != [] {
      var last := pieces[|pieces| - 1];
      assert last in pieces;
      assert !HasNonWhitespace(last);
      BlankPiecesVanish(pieces[..|pieces| - 1]);
    }
  }

  /** With the default transform, the empty string and any input made only
      of delimiters and white space give no values. */
  lemma OnlyDelimitersGiveNothing(gaps: seq<string>, d: string)
    requires IsLiteralDelimiter(d) && gaps != []
    requires forall i :: 0 <= i < |gaps| ==> AllWhitespace(gaps[i])
    ensures FilterMap(Split(Join(gaps, d), d), DefaultTransformValue) == []
  {
    SplitOfGaps(gaps, d);
    BlankPiecesVanish(Split(Join(gaps, d), d));
  }

  /** White space at the very ends of the input stays with the first and
      last pieces, while white space touching a delimiter goes:
      `'  a  ,  b  ,  c  '` gives `'  a'`, `'b'` and `'c  '`. */
  lemma EdgeWhitespaceKept(sp: string, x: char, y: char, z: char)
    requires AllWhitespace(sp)
    requires !IsWhitespace(x) && !IsWhitespace(y) && !IsWhitespace(z)
    requires x != ',' && y != ',' && z != ','
    ensures Split(sp + [x] + sp + "," + sp + [y] + sp + "," + sp + [z] + sp, ",") == [sp + [x], [y], [z] + sp]
  {
    var last := [z] + sp;
    var tail := [y] + sp + "," + sp + last;
    SplitWithoutDelimiter(last, ",");
    SplitAtDelimiter([y], sp, ",", sp, last);
    assert sp + [x] + sp + "," + sp + [y] + sp + "," + sp + [z] + sp == (sp + [x]) + sp + "," + sp + tail;
    assert (sp + [x])[|sp + [x]| - 1] == x;
    SplitAtDelimiter(sp + [x], sp, ",", sp, tail);
  }

  /** A delimiter with no white space around it. */
  lemma SplitAtBare(a: string, d: string, b: string)
    requires IsLiteralDelimiter(d)
    requires d[0] !in a
    requires a == [] || !IsWhitespace(a[|a| - 1])
    requires b == [] || !IsWhitespace(b[0])
    ensures Split(a + d + b, d) == [a] + Split(b, d)
  {
    var s := a + d + b;
    var e := |a| + |d|;
    forall i | 0 <= i < |a| ensures s[i] != d[0] {
      assert s[i] == a[i];
    }
    assert s[|a|..e] == d;
    assert s[..|a|] == a && s[e..] == b;
    if a != [] {
      assert s[|a| - 1] == a[|a| - 1];
    }
    if b != [] {
      assert s[e] == b[0];
    }
    SplitAt(s, d, |a|, |a|, e);
  }

  /** Three words with no white space at their edges and without the
      delimiter's first character, joined by the bare delimiter, are the
      three pieces. */
  lemma SplitThreeWords(x: string, y: string, z: string, d: string)
    requires IsLiteralDelimiter(d)
    requires d[0] !in x && d[0] !in y && d[0] !in z
    requires x == [] || !IsWhitespace(x[|x| - 1])
    requires y != [] && !IsWhitespace(y[0]) && !IsWhitespace(y[|y| - 1])
    requires z == [] || !IsWhitespace(z[0])
    ensures Split(x + d + y + d + z, d) == [x, y, z]
  {
    var yz := y + d + z;
    SplitWithoutDelimiter(z, d);
    SplitAtBare(y, d, z);
    var tail := Split(yz, d);
    assert tail == [y, z];
    assert yz[0] == y[0];
    SplitAtBare(x, d, yz);
    ConcatAssoc(x + d, y, d);
    ConcatAssoc(x + d, y + d, z);
    var s := x + d + y + d + z;
    assert s == x + d + yz;
    assert Split(s, d) == [x] + tail;
  }

  /** A delimiter of several characters is matched as a whole:
      `'a::b::c'` split at `'::'` gives `'a'`, `'b'` and `'c'`. */
  lemma MultiCharacterDelimiter(a: char, b: char, c: char)
    requires a != ':' && b != ':' && c != ':'
    requires !IsWhitespace(a) && !IsWhitespace(b) && !IsWhitespace(c)
    ensures Split([a, ':', ':', b, ':', ':', c], "::") == [[a], [b], [c]]
  {
    var d := "::";
    assert IsLiteralDelimiter(d);
    SplitThreeWords([a], [b], [c], d);
    assert [a] + d + [b] + d + [c] == [a, ':', ':', b, ':', ':', c];
  }
}
