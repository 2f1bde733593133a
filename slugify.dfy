/** `slugify` (src/language/slugify.ts): a chain of replacements that turns
    any text into lower-case words of ASCII letters and digits joined by
    single hyphens. `transliterate`, which is not part of this model,
    is a parameter. */
module Slugs {
  import opened JsText
  import opened UriEncoding

  predicate IsSlugChar(c: char) { IsLowerAlnum(c) || c == '-' }

  /** A slug: only `a-z`, `0-9` and `-`, no `--`, and no `-` at either
      end. */
  predicate IsSlug(s: string) {
    (forall i :: 0 <= i < |s| ==> IsSlugChar(s[i])) &&
    (forall i :: 0 <= i < |s| - 1 ==> !(s[i] == '-' && s[i + 1] == '-')) &&
    (s != [] ==> s[0] != '-' && s[|s| - 1] != '-')
  }

  /** The letters and digits of `s`, in order. */
  function Alnums(s: string): string {
    if s == [] then [] else (if IsLowerAlnum(s[0]) then [s[0]] else []) + Alnums(s[1..])
  }

  /** The five symbol replacements: `&`, `+`, `=`, `/` and `%` become the
      words and, plus, equals, slash and percent, with a space on each
      side. */
  predicate IsSymbol(c: char) { c == '&' || c == '+' || c == '=' || c == '/' || c == '%' }

  /** Lower-case letters and spaces. */
  predicate IsLetterWord(w: string) {
    forall i :: 0 <= i < |w| ==> w[i] == ' ' || 'a' <= w[i] <= 'z'
  }

  /** The five words the symbols become. */
  lemma SymbolWordsAreLetters()
    ensures IsLetterWord(" and ") && IsLetterWord(" plus ") && IsLetterWord(" equals ")
    ensures IsLetterWord(" slash ") && IsLetterWord(" percent ")
  {
  }

  /** `s.replace(/c/g, w)` for a word `w` of letters and spaces: no symbol
      that was absent appears. */
  function ReplaceWithWord(s: string, c: char, w: string): (r: string)
    requires IsSymbol(c)
    requires IsLetterWord(w)
    ensures r == ReplaceAll(s, c, w)
    ensures c !in r
    ensures forall x :: IsSymbol(x) && x !in s ==> x !in r
  {
    ReplaceAll(s, c, w)
  }

  /** The five symbol replacements: `&`, `+`, `=`, `/` and `%` become the
      words and, plus, equals, slash and percent, with a space on each
      side. */
  function ReplaceSymbols(s: string): (r: string)
    ensures forall x :: IsSymbol(x) ==> x !in r
  {
    SymbolWordsAreLetters();
    var s1 := ReplaceWithWord(s, '&', " and ");
    var s2 := ReplaceWithWord(s1, '+', " plus ");
    var s3 := ReplaceWithWord(s2, '=', " equals ");
    var s4 := ReplaceWithWord(s3, '/', " slash ");
    ReplaceWithWord(s4, '%', " percent ")
  }

  /** `replace(/(\w)\.(\w)/g, '$1 dot $2')`: scanning from the left, a dot
      between two word characters becomes ` dot `; a match consumes both
      word characters, so matches never overlap. */
  function DotWords(s: string): (r: string)
    ensures |r| >= |s|
    ensures '.' !in s ==> r == s
    ensures forall x :: x in r ==> x in s || x in " dot"
  {
    if |s| >= 3 && IsWordChar(s[0]) && s[1] == '.' && IsWordChar(s[2]) then
      assert s[0] in s && s[2] in s;
      assert forall x :: x in s[3..] ==> x in s;
      [s[0]] + " dot " + [s[2]] + DotWords(s[3..])
    else if s == [] then []
    else
      assert s == [s[0]] + s[1..];
      assert forall x :: x in s[1..] ==> x in s;
      [s[0]] + DotWords(s[1..])
  }

  /** Drops the characters that are not lower-case letters or digits from
      the front. */
  function SkipOthers(s: string): (r: string)
    ensures r == [] || IsLowerAlnum(r[0])
    ensures |r| <= |s| && Alnums(r) == Alnums(s)
  {
    if s != [] && !IsLowerAlnum(s[0]) then SkipOthers(s[1..]) else s
  }

  /** `replace(/[^a-z0-9]+/g, '-')`: each run of other characters becomes
      one hyphen. */
  function CollapseRuns(s: string): (r: string)
    ensures forall i :: 0 <= i < |r| ==> IsSlugChar(r[i])
    ensures forall i :: 0 <= i < |r| - 1 ==> !(r[i] == '-' && r[i + 1] == '-')
    ensures (s == [] || IsLowerAlnum(s[0])) ==> (r == [] || IsLowerAlnum(r[0]))
    ensures Alnums(r) == Alnums(s)
    decreases |s|
  {
    if s == [] then []
    else if IsLowerAlnum(s[0]) then
      var rest := CollapseRuns(s[1..]);
      assert ([s[0]] + rest)[1..] == rest;
      [s[0]] + rest
    else
      var rest := CollapseRuns(SkipOthers(s[1..]));
      assert (['-'] + rest)[1..] == rest;
      ['-'] + rest
  }

  /** The longest prefix of `s` made of lower-case letters and digits. */
  function AlnumPrefix(s: string): (w: string)
    ensures w <= s
    ensures forall i :: 0 <= i < |w| ==> IsLowerAlnum(w[i])
    ensures |w| < |s| ==> !IsLowerAlnum(s[|w|])
  {
    if s != [] && IsLowerAlnum(s[0]) then [s[0]] + AlnumPrefix(s[1..]) else []
  }

  /** The words of `s`: its maximal runs of lower-case letters and digits,
      in order. A slug is these words joined by single hyphens. */
  function Words(s: string): (ws: seq<string>)
    ensures forall k :: 0 <= k < |ws| ==> ws[k] != []
    ensures forall k, j :: 0 <= k < |ws| && 0 <= j < |ws[k]| ==> IsLowerAlnum(ws[k][j])
    decreases |s|
  {
    if s == [] then []
    else if !IsLowerAlnum(s[0]) then Words(s[1..])
    else
      var w := AlnumPrefix(s);
      [w] + Words(s[|w|..])
  }

  /** `replace(/^-|-$/g, '')`: one hyphen at the start and one at the end
      are removed; a lone hyphen is removed once. */
  function TrimHyphens(s: string): (r: string)
    ensures |r| <= |s|
  {
    var a := if s != [] && s[0] == '-' then 1 else 0;
    var b := if |s| > a && s[|s| - 1] == '-' then |s| - 1 else |s|;
    s[a..b]
  }

  /** The text `slugify` has before its last two replacements. */
  function Prepared(transliterate: string -> string, value: string): string {
    DotWords(ReplaceSymbols(Trim(LowerCase(transliterate(value)))))
  }

  /** `slugify(value)`: a slug holding the letters and digits of the
      prepared text, in order. */
  function Slugify(transliterate: string -> string, value: string): (r: string)
    ensures r == Join(Words(Prepared(transliterate, value)), "-")
    ensures IsSlug(r)
    ensures Alnums(r) == Alnums(Prepared(transliterate, value))
  {
    var collapsed := CollapseRuns(Prepared(transliterate, value));
    TrimHyphensSlug(collapsed);
    TrimHyphensAlnums(collapsed);
    SlugOfWords(Prepared(transliterate, value));
    TrimHyphens(collapsed)
  }

  lemma {:induction false} AlnumsConcat(x: string, y: string)
    ensures Alnums(x + y) == Alnums(x) + Alnums(y)
  {
    if x != [] {
      assert (x + y)[1..] == x[1..] + y;
      AlnumsConcat(x[1..], y);
    } else {
      assert x + y == y;
    }
  }

  /** Removing the end hyphens of collapsed text leaves a slug. */
  lemma TrimHyphensSlug(s: string)
    requires forall i :: 0 <= i < |s| ==> IsSlugChar(s[i])
    requires forall i :: 0 <= i < |s| - 1 ==> !(s[i] == '-' && s[i + 1] == '-')
    ensures IsSlug(TrimHyphens(s))
  {
    var a := if s != [] && s[0] == '-' then 1 else 0;
    var b := if |s| > a && s[|s| - 1] == '-' then |s| - 1 else |s|;
    var r := s[a..b];
    assert r == TrimHyphens(s);
    assert forall i :: 0 <= i < |r| ==> r[i] == s[a + i];
    if r != [] {
      assert r[0] == s[a] && r[|r| - 1] == s[b - 1];
      assert a == 1 ==> s[1] != '-';
      assert b < |s| ==> s[|s| - 2] != '-';
    }
  }

  /** Removing hyphens keeps every letter and digit. */
  lemma TrimHyphensAlnums(s: string)
    ensures Alnums(TrimHyphens(s)) == Alnums(s)
  {
    var a := if s != [] && s[0] == '-' then 1 else 0;
    var b := if |s| > a && s[|s| - 1] == '-' then |s| - 1 else |s|;
    var m := s[a..b];
    assert s[..b] == s[..a] + m;
    assert s == s[..b] + s[b..];
    AlnumsConcat(s[..b], s[b..]);
    AlnumsConcat(s[..a], m);
    if a == 1 {
      assert s[..a] == ['-'];
    }
    if b < |s| {
      assert s[b..] == ['-'];
    }
  }

  /** Text that is empty or white space once transliterated gives `''`. */
  lemma SlugifyBlank(transliterate: string -> string, value: string)
    requires AllWhitespace(transliterate(value))
    ensures Slugify(transliterate, value) == []
  {
    var lower := LowerCase(transliterate(value));
    assert AllWhitespace(lower);
    TrimBlank(lower);
    assert ReplaceSymbols([]) == [];
    assert DotWords([]) == [];
    assert Prepared(transliterate, value) == [];
  }

  /** What each character becomes under the symbol replacements. */
  function SymbolWord(c: char): string {
    if c == '&' then " and "
    else if c == '+' then " plus "
    else if c == '=' then " equals "
    else if c == '/' then " slash "
    else if c == '%' then " percent "
    else [c]
  }

  /** The five replacements act character by character, each symbol
      becoming its word and every other character staying. */
  lemma {:induction false} ReplaceSymbolsByChar(s: string)
    requires s != []
    ensures ReplaceSymbols(s) == SymbolWord(s[0]) + ReplaceSymbols(s[1..])
  {
    var head := [s[0]];
    var tail := s[1..];
    assert s == head + tail;
    ReplaceAllConcat(head, tail, '&', " and ");
    var h1 := ReplaceAll(head, '&', " and ");
    var t1 := ReplaceAll(tail, '&', " and ");
    ReplaceAllConcat(h1, t1, '+', " plus ");
    var h2 := ReplaceAll(h1, '+', " plus ");
    var t2 := ReplaceAll(t1, '+', " plus ");
    ReplaceAllConcat(h2, t2, '=', " equals ");
    var h3 := ReplaceAll(h2, '=', " equals ");
    var t3 := ReplaceAll(t2, '=', " equals ");
    ReplaceAllConcat(h3, t3, '/', " slash ");
    var h4 := ReplaceAll(h3, '/', " slash ");
    var t4 := ReplaceAll(t3, '/', " slash ");
    ReplaceAllConcat(h4, t4, '%', " percent ");
    SymbolWordOfChar(s[0]);
  }

  /** Replacing in a one-character string. */
  lemma ReplaceAllOne(x: char, c: char, w: string)
    ensures ReplaceAll([x], c, w) == if x == c then w else [x]
  {
    assert ReplaceAll([x], c, w) == (if x == c then w else [x]) + ReplaceAll([], c, w);
  }

  /** The five replacements on a one-character string. */
  function ReplaceSymbolsOne(c: char): string {
    ReplaceAll(ReplaceAll(ReplaceAll(ReplaceAll(ReplaceAll([c], '&', " and "), '+', " plus "),
      '=', " equals "), '/', " slash "), '%', " percent ")
  }

  /** A word that holds none of the later symbols passes the later
      replacements unchanged. */
  lemma WordStays(w: string)
    requires IsLetterWord(w)
    ensures ReplaceAll(ReplaceAll(ReplaceAll(ReplaceAll(w, '+', " plus "), '=', " equals "), '/', " slash "), '%', " percent ") == w
  {
    assert '+' !in w && '=' !in w && '/' !in w && '%' !in w;
  }

  lemma SymbolWordOfChar(c: char)
    ensures ReplaceSymbolsOne(c) == SymbolWord(c)
  {
    SymbolWordsAreLetters();
    ReplaceAllOne(c, '&', " and ");
    if c == '&' {
      WordStays(" and ");
    } else {
      ReplaceAllOne(c, '+', " plus ");
      if c == '+' {
        WordStays(" plus ");
      } else {
        ReplaceAllOne(c, '=', " equals ");
        if c == '=' {
          assert ReplaceAll(ReplaceAll(" equals ", '/', " slash "), '%', " percent ") == " equals " by {
            assert '/' !in " equals " && '%' !in " equals ";
          }
        } else {
          ReplaceAllOne(c, '/', " slash ");
          ReplaceAllOne(c, '%', " percent ");
          if c == '/' {
            assert '%' !in " slash ";
          }
        }
      }
    }
  }

  /** A dot between two word characters becomes ` dot `. */
  lemma DotBetweenWords(x: char, y: char, rest: string)
    requires IsWordChar(x) && IsWordChar(y)
    ensures DotWords([x, '.', y] + rest) == [x] + " dot " + [y] + DotWords(rest)
  {
    assert ([x, '.', y] + rest)[3..] == rest;
  }

  /** Matches do not overlap: in `a.b.c` only the first dot is replaced. */
  lemma DotsDoNotOverlap(x: char, y: char, z: char)
    requires IsWordChar(x) && IsWordChar(y) && IsWordChar(z)
    ensures DotWords([x, '.', y, '.', z]) == [x] + " dot " + [y, '.', z]
  {
    DotBetweenWords(x, y, ['.', z]);
    var t := ['.', z];
    assert DotWords(t) == ['.'] + DotWords([z]);
    assert DotWords([z]) == [z] + DotWords([]);
  }

  /** A slug is its own `encodeURIComponent`. */
  lemma {:induction false} SlugIsUriSafe(s: string)
    requires forall i :: 0 <= i < |s| ==> IsSlugChar(s[i])
    ensures EncodeURIComponent(s) == s
  {
    if s != [] {
      SlugIsUriSafe(s[1..]);
      assert [s[0]] + s[1..] == s;
    }
  }

  /** `slugify`'s output is unchanged by `encodeURIComponent`. */
  lemma SlugifyUriSafe(transliterate: string -> string, value: string)
    ensures EncodeURIComponent(Slugify(transliterate, value)) == Slugify(transliterate, value)
  {
    SlugIsUriSafe(Slugify(transliterate, value));
  }

  /** A word at the front is kept whole: the longest prefix of letters
      and digits of `w + u` is `w` when `u` does not go on with one. */
  lemma {:induction false} AlnumPrefixOf(w: string, u: string)
    requires forall i :: 0 <= i < |w| ==> IsLowerAlnum(w[i])
    requires u == [] || !IsLowerAlnum(u[0])
    ensures AlnumPrefix(w + u) == w
  {
    if w != [] {
      assert (w + u)[1..] == w[1..] + u;
      AlnumPrefixOf(w[1..], u);
      assert [w[0]] + w[1..] == w;
    } else {
      assert w + u == u;
    }
  }

  /** Letters and digits pass through `CollapseRuns` unchanged. */
  lemma {:induction false} CollapseAlnums(w: string, u: string)
    requires forall i :: 0 <= i < |w| ==> IsLowerAlnum(w[i])
    ensures CollapseRuns(w + u) == w + CollapseRuns(u)
  {
    if w == [] {
      assert w + u == u;
    } else {
      var s := w + u;
      assert s[0] == w[0] && s[1..] == w[1..] + u;
      var rest := CollapseRuns(s[1..]);
      assert CollapseRuns(s) == [s[0]] + rest;
      CollapseAlnums(w[1..], u);
      var cu := CollapseRuns(u);
      assert rest == w[1..] + cu;
      assert [w[0]] + w[1..] == w;
      ConcatAssoc([w[0]], w[1..], cu);
    }
  }

  /** Characters other than letters and digits hold no word. */
  lemma {:induction false} WordsSkip(o: string, t: string)
    requires forall i :: 0 <= i < |o| ==> !IsLowerAlnum(o[i])
    ensures Words(o + t) == Words(t)
  {
    if o != [] {
      assert (o + t)[1..] == o[1..] + t;
      WordsSkip(o[1..], t);
    } else {
      assert o + t == t;
    }
  }

  /** Text holding a letter or digit has a word. */
  lemma {:induction false} WordsOfAlnum(s: string, i: nat)
    requires i < |s| && IsLowerAlnum(s[i])
    ensures Words(s) != []
  {
    if !IsLowerAlnum(s[0]) {
      WordsOfAlnum(s[1..], i - 1);
    }
  }

  /** A word in front of text that does not go on with a letter or digit
      is the first word. */
  lemma WordsCons(w: string, u: string)
    requires w != [] && forall i :: 0 <= i < |w| ==> IsLowerAlnum(w[i])
    requires u == [] || !IsLowerAlnum(u[0])
    ensures Words(w + u) == [w] + Words(u)
  {
    AlnumPrefixOf(w, u);
    assert (w + u)[|w|..] == u;
  }

  /** The hyphen `CollapseRuns` writes for other characters before the
      first word (or for a text of other characters only). */
  function LeadHyphen(s: string): string {
    if s != [] && !IsLowerAlnum(s[0]) then "-" else []
  }

  /** The hyphen `CollapseRuns` writes for other characters after the last
      word. */
  function TrailHyphen(s: string): string {
    if Words(s) != [] && !IsLowerAlnum(s[|s| - 1]) then "-" else []
  }

  /** `CollapseRuns` writes the words of `s` with one hyphen between
      neighbours, one hyphen for leading other characters, and one for
      trailing other characters after the last word. */
  lemma {:induction false} CollapseRunsWords(s: string)
    ensures CollapseRuns(s) == LeadHyphen(s) + Join(Words(s), "-") + TrailHyphen(s)
    decreases |s|, 1
  {
    if s == [] {
      assert Words(s) == [];
    } else if !IsLowerAlnum(s[0]) {
      CollapseRunsWordsOther(s);
    } else {
      CollapseRunsWordsAlnum(s);
    }
  }

  /** `SkipOthers` drops a prefix of other characters. */
  lemma {:induction false} SkipOthersSuffix(s: string)
    ensures SkipOthers(s) == s[|s| - |SkipOthers(s)|..]
    ensures forall i :: 0 <= i < |s| - |SkipOthers(s)| ==> !IsLowerAlnum(s[i])
  {
    if s != [] && !IsLowerAlnum(s[0]) {
      SkipOthersSuffix(s[1..]);
    }
  }

  /** `CollapseRunsWords` for text that starts with another character. */
  lemma {:induction false} CollapseRunsWordsOther(s: string)
    requires s != [] && !IsLowerAlnum(s[0])
    ensures CollapseRuns(s) == LeadHyphen(s) + Join(Words(s), "-") + TrailHyphen(s)
    decreases |s|, 0
  {
    var t := SkipOthers(s[1..]);
    SkipOthersSuffix(s[1..]);
    var o := s[1..][..|s| - 1 - |t|];
    assert s[1..] == o + t;
    WordsSkip(o, t);
    assert Words(s) == Words(t);
    assert CollapseRuns(s) == "-" + CollapseRuns(t);
    if t == [] {
      assert Words(t) == [];
      assert CollapseRuns(s) == "-";
    } else {
      CollapseRunsWords(t);
      assert t[|t| - 1] == s[|s| - 1];
      assert TrailHyphen(t) == TrailHyphen(s);
      assert LeadHyphen(t) == [];
      var j := Join(Words(s), "-");
      var tr := TrailHyphen(s);
      assert [] + j == j;
      assert CollapseRuns(t) == j + tr;
      ConcatAssoc("-", j, tr);
    }
  }

  /** `CollapseRunsWords` for text that starts with a letter or digit. */
  lemma {:induction false} CollapseRunsWordsAlnum(s: string)
    requires s != [] && IsLowerAlnum(s[0])
    ensures CollapseRuns(s) == LeadHyphen(s) + Join(Words(s), "-") + TrailHyphen(s)
    decreases |s|, 0
  {
    var w := AlnumPrefix(s);
    var u := s[|w|..];
    assert s == w + u;
    CollapseAlnums(w, u);
    assert Words(s) == [w] + Words(u);
    assert LeadHyphen(s) == [];
    if u == [] {
      assert Words(u) == [];
      assert Join(Words(s), "-") == w;
      assert s[|s| - 1] == w[|w| - 1];
      assert TrailHyphen(s) == [];
      assert CollapseRuns(s) == w + [];
      assert w + [] == w && [] + w + [] == w;
    } else {
      CollapseRunsWords(u);
      assert LeadHyphen(u) == "-";
      assert [] + w == w;
      WordThenRest(s, w, u);
    }
  }

  /** The step of `CollapseRunsWordsAlnum` after a first word `w` that
      other characters follow. */
  lemma {:induction false} WordThenRest(s: string, w: string, u: string)
    requires s == w + u && w != [] && u != [] && !IsLowerAlnum(u[0])
    requires CollapseRuns(s) == w + CollapseRuns(u)
    requires Words(s) == [w] + Words(u) && LeadHyphen(s) == []
    requires CollapseRuns(u) == "-" + Join(Words(u), "-") + TrailHyphen(u)
    ensures CollapseRuns(s) == LeadHyphen(s) + Join(Words(s), "-") + TrailHyphen(s)
  {
    var wu := Words(u);
    assert u[|u| - 1] == s[|s| - 1];
    if wu == [] {
      if IsLowerAlnum(u[|u| - 1]) {
        WordsOfAlnum(u, |u| - 1);
      }
    }
    AssembleAfterWord(w, wu, TrailHyphen(u), TrailHyphen(s));
  }

  /** The hyphens around the words of a run-collapsed text, after a first
      word `w`. */
  lemma {:induction false} AssembleAfterWord(w: string, ws: seq<string>, tu: string, ts: string)
    requires ws == [] ==> tu == [] && ts == "-"
    requires ws != [] ==> tu == ts
    ensures w + ("-" + Join(ws, "-") + tu) == [] + Join([w] + ws, "-") + ts
  {
    if ws == [] {
      assert Join([w], "-") == w;
    } else {
      JoinCons(w, ws, "-");
      ConcatAssoc(w, "-" + Join(ws, "-"), tu);
      ConcatAssoc(w, "-", Join(ws, "-"));
    }
  }

  /** Joined non-empty parts begin with the first part's first character
      and end with the last part's last character. */
  lemma {:induction false} JoinEnds(parts: seq<string>, sep: string)
    requires parts != [] && forall k :: 0 <= k < |parts| ==> parts[k] != []
    ensures Join(parts, sep) != []
    ensures Join(parts, sep)[0] == parts[0][0]
    ensures Join(parts, sep)[|Join(parts, sep)| - 1] == parts[|parts| - 1][|parts[|parts| - 1]| - 1]
  {
    if |parts| > 1 {
      JoinEnds(parts[1..], sep);
    }
  }

  /** Collapsing the runs and trimming the edge hyphens joins the words
      of `s` with single hyphens. */
  lemma {:induction false} SlugOfWords(s: string)
    ensures TrimHyphens(CollapseRuns(s)) == Join(Words(s), "-")
  {
    CollapseRunsWords(s);
    var ws := Words(s);
    if ws != [] {
      JoinEnds(ws, "-");
      assert IsLowerAlnum(ws[0][0]) && IsLowerAlnum(ws[|ws| - 1][|ws[|ws| - 1]| - 1]);
    }
    TrimEdges(LeadHyphen(s), Join(ws, "-"), TrailHyphen(s));
  }

  /** Trimming removes exactly the optional edge hyphens around a text
      that neither begins nor ends with one. */
  lemma {:induction false} TrimEdges(lead: string, joined: string, trail: string)
    requires lead == [] || lead == "-"
    requires trail == [] || trail == "-"
    requires joined == [] ==> trail == []
    requires joined != [] ==> joined[0] != '-' && joined[|joined| - 1] != '-'
    ensures TrimHyphens(lead + joined + trail) == joined
  {
    var c := lead + joined + trail;
    if joined != [] {
      assert c[0] == '-' <==> lead != [];
      assert c[|c| - 1] == '-' <==> trail != [];
      assert c[|lead|..|lead| + |joined|] == joined;
    }
  }

  /** The words of two runs of letters and digits with a run of other
      characters between them. */
  lemma {:induction false} TwoWords(x: string, o: string, y: string)
    requires x != [] && forall i :: 0 <= i < |x| ==> IsLowerAlnum(x[i])
    requires o != [] && forall i :: 0 <= i < |o| ==> !IsLowerAlnum(o[i])
    requires y != [] && forall i :: 0 <= i < |y| ==> IsLowerAlnum(y[i])
    ensures Join(Words(x + o + y), "-") == x + "-" + y
  {
    var t := o + y;
    assert x + o + y == x + t;
    WordsCons(x, t);
    WordsSkip(o, y);
    WordsCons(y, []);
    assert y + [] == y;
    assert Words([]) == [];
    assert Words(x + o + y) == [x] + [y];
    JoinCons(x, [y], "-");
  }

  /** Two words with any run of other characters between them, such as
      `hello world`, become the two words joined by one hyphen. */
  lemma {:induction false} HyphenBetweenWords(transliterate: string -> string, value: string, x: string, o: string, y: string)
    requires x != [] && forall i :: 0 <= i < |x| ==> IsLowerAlnum(x[i])
    requires o != [] && forall i :: 0 <= i < |o| ==> !IsLowerAlnum(o[i])
    requires y != [] && forall i :: 0 <= i < |y| ==> IsLowerAlnum(y[i])
    requires Prepared(transliterate, value) == x + o + y
    ensures Slugify(transliterate, value) == x + "-" + y
  {
    TwoWords(x, o, y);
  }
}
