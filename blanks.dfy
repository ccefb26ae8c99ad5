/** `normalize_blanks` and `normalize_standalone_letters`: every blank idiom
    of the question text becomes the in-band marker `{{BLANK}}`. */
module BlankDetector {
  import opened Text
  import opened Patterns

  /** `BLANK_PATTERNS`, in table order. */
  const BlankPatterns: seq<Pattern> := [
    EmptyBrackets('（', '）'),
    EmptyBrackets('(', ')'),
    EmptyBrackets('【', '】'),
    EmptyBrackets('[', ']'),
    Repeated('_'),
    Repeated('＿'),
    BracketedLabel("（(", "ABab", "）)"),
    BracketedLabel("（", "①②", "）"),
    BracketedLabel("(", "①②", ")"),
    BracketedLabel("（", "12", "）"),
    BracketedLabel("(", "12", ")")
  ]

  /** The set `exclude_letters_before_cell`, in the one iteration order the
      model fixes. */
  const CellLetters: seq<string> := ["T", "B", "K", "NK"]

  const CellTerms: seq<Pattern> := [CellTerm("T"), CellTerm("B"), CellTerm("K"), CellTerm("NK")]

  const CellRestores: seq<Pattern> :=
    [CellRestore("T"), CellRestore("B"), CellRestore("K"), CellRestore("NK")]

  /** The text after the protecting passes: cell terms, then technical terms. */
  function Protected(s: string): string {
    Sub(TechTerm, SubAll(s, CellTerms))
  }

  /** The text after the restoring passes: technical terms, then the cell
      terms twice over, as the two restore loops run. */
  function Restored(s: string): string {
    SubAll(SubAll(Sub(TechRestore, s), CellRestores), CellRestores)
  }

  /** Number of places where a character allowed before a standalone letter
      is followed by a capital letter: an upper bound on the standalone
      matches still to come. */
  function Score(s: string): nat
    decreases |s|
  {
    if |s| < 2 then 0 else (if IsBefore(s[0]) && IsUpper(s[1]) then 1 else 0) + Score(s[1..])
  }

  /** `Score` of a string with one character in front. */
  lemma ScoreCons(c: char, t: string)
    ensures Score([c] + t) == Score(t) + if t != [] && IsBefore(c) && IsUpper(t[0]) then 1 else 0
  {
    if t != [] {
      assert ([c] + t)[1..] == t;
    }
  }

  /** The marker holds no place that scores, and neither does its edge. */
  lemma ScoreMarker(t: string)
    ensures Score(Marker + t) == Score(t)
  {
    assert forall i :: 0 <= i < |Marker| ==> !IsBefore(Marker[i]);
    ScoreNoBefore(Marker);
    ScoreConcat(Marker, t);
  }

  lemma Regroup(a: string, b: string, c: string, d: string)
    ensures a + b + c + d == a + (b + (c + d))
  {
  }

  lemma StandaloneLenIs(s: string)
    ensures MatchLen(Standalone, s) == StandaloneLen(s)
  {
  }

  lemma StandaloneRewrite(s: string)
    requires StandaloneLen(s) > 0
    ensures Rewrite(Standalone, s) == [s[0]] + Marker + [s[2]]
  {
  }

  lemma StandaloneMatchSub(s: string)
    requires StandaloneLen(s) > 0
    ensures Sub(Standalone, s) == Rewrite(Standalone, s) + Sub(Standalone, s[3..])
  {
    SubStep(Standalone, s);
  }

  /** One step of the standalone pass, where it matches. */
  lemma StandaloneMatchStep(s: string)
    requires StandaloneLen(s) > 0
    ensures |s| >= 3 && IsBefore(s[0]) && IsUpper(s[1]) && IsAfter(s[2])
    ensures Sub(Standalone, s) == [s[0]] + (Marker + ([s[2]] + Sub(Standalone, s[3..])))
  {
    StandaloneMatchSub(s);
    StandaloneRewrite(s);
    Regroup([s[0]], Marker, [s[2]], Sub(Standalone, s[3..]));
  }

  lemma Regroup3(a: string, b: string, c: string)
    ensures a + b + c == a + (b + c)
  {
  }

  /** One step of the standalone pass, where it keeps a character. */
  lemma StandaloneKeepStep(s: string)
    requires s != [] && StandaloneLen(s) == 0
    ensures Sub(Standalone, s) == [s[0]] + Sub(Standalone, s[1..])
  {
    SubStep(Standalone, s);
  }

  /** The standalone pass keeps the first character of the text. */
  lemma StandaloneHead(s: string)
    requires s != []
    ensures Sub(Standalone, s) != [] && Sub(Standalone, s)[0] == s[0]
  {
    if StandaloneLen(s) > 0 {
      StandaloneMatchStep(s);
    } else {
      StandaloneKeepStep(s);
    }
  }

  /** The score arithmetic where a match starts the text and the pass turns
      the rest `t` of it into `u`. */
  lemma StandaloneScoreMatch(s: string, u: string)
    requires |s| >= 3 && IsBefore(s[0]) && IsUpper(s[1]) && IsAfter(s[2])
    requires (u == []) == (s[3..] == []) && (u != [] ==> u[0] == s[3])
    requires Score(u) <= Score(s[3..])
    ensures Score([s[0]] + (Marker + ([s[2]] + u))) < Score(s)
  {
    var t := s[3..];
    ScoreCons(s[2], u);
    ScoreMarker([s[2]] + u);
    ScoreCons(s[0], Marker + ([s[2]] + u));
    assert s == [s[0]] + ([s[1]] + ([s[2]] + t));
    ScoreCons(s[2], t);
    ScoreCons(s[1], [s[2]] + t);
    ScoreCons(s[0], [s[1]] + ([s[2]] + t));
  }

  /** The score arithmetic where the pass keeps the first character and turns
      the rest `t` of the text into `u`. */
  lemma StandaloneScoreKeep(s: string, u: string, k: nat)
    requires s != [] && (u == []) == (s[1..] == []) && (u != [] ==> u[0] == s[1])
    requires Score(u) + k <= Score(s[1..])
    ensures Score([s[0]] + u) + k <= Score(s)
  {
    var t := s[1..];
    assert s == [s[0]] + t;
    ScoreCons(s[0], t);
    ScoreCons(s[0], u);
  }

  /** A standalone pass never raises the score, and lowers it whenever the
      pattern matches somewhere. */
  lemma {:induction false} StandaloneScore(s: string)
    ensures Score(Sub(Standalone, s)) + (if NoMatch(Standalone, s) then 0 else 1) <= Score(s)
    decreases |s|
  {
    if s != [] {
      NoMatchCons(Standalone, s);
      StandaloneLenIs(s);
      if StandaloneLen(s) > 0 {
        StandaloneMatchStep(s);
        var t := s[3..];
        StandaloneScore(t);
        if t != [] {
          StandaloneHead(t);
        }
        StandaloneScoreMatch(s, Sub(Standalone, t));
      } else {
        StandaloneKeepStep(s);
        var t := s[1..];
        StandaloneScore(t);
        if t != [] {
          StandaloneHead(t);
        }
        StandaloneScoreKeep(s, Sub(Standalone, t), if NoMatch(Standalone, t) then 0 else 1);
      }
    }
  }

  /** A standalone pass changes the text exactly when the pattern matches
      somewhere in it: the loop stops only once no triple is left. */
  lemma StandaloneFixedIff(s: string)
    ensures Sub(Standalone, s) == s <==> NoMatch(Standalone, s)
  {
    StandaloneScore(s);
    if NoMatch(Standalone, s) {
      SubNoMatch(Standalone, s);
    }
  }

  /** The `while prev_result != result` loop: the standalone pass repeated
      until a pass changes nothing. */
  function Fixpoint(s: string): (r: string)
    ensures NoMatch(Standalone, r) && Sub(Standalone, r) == r
    ensures Score(r) <= Score(s)
    decreases Score(s)
  {
    var t := Sub(Standalone, s);
    StandaloneFixedIff(s);
    StandaloneScore(s);
    if t == s then s else Fixpoint(t)
  }

  /** Number of passes of the loop that change the text. */
  function Passes(s: string): (k: nat)
    ensures k <= Score(s)
    decreases Score(s)
  {
    var t := Sub(Standalone, s);
    StandaloneFixedIff(s);
    StandaloneScore(s);
    if t == s then 0 else 1 + Passes(t)
  }

  /** The fixpoint of a text is the fixpoint of the text after one pass. */
  lemma FixpointStep(s: string)
    ensures Fixpoint(Sub(Standalone, s)) == Fixpoint(s)
  {
  }

  /** `normalize_standalone_letters` as a function of its input. */
  function StandaloneLetters(s: string): string {
    Restored(Fixpoint(Protected(s)))
  }

  /** `normalize_blanks` as a function of its input. */
  function NormalizedBlanks(s: string): string {
    StandaloneLetters(SubAll(s, BlankPatterns))
  }

  /** A text with no blank idiom, no protected term, no placeholder and no
      standalone letter. */
  predicate Untouched(s: string) {
    (forall k :: 0 <= k < |BlankPatterns| ==> NoMatch(BlankPatterns[k], s)) &&
    (forall k :: 0 <= k < |CellTerms| ==> NoMatch(CellTerms[k], s)) &&
    (forall k :: 0 <= k < |CellRestores| ==> NoMatch(CellRestores[k], s)) &&
    NoMatch(TechTerm, s) && NoMatch(TechRestore, s) && NoMatch(Standalone, s)
  }

  /** Such a text passes `normalize_blanks` unchanged. */
  lemma UntouchedNormalized(s: string)
    requires Untouched(s)
    ensures NormalizedBlanks(s) == s
  {
    SubAllNoMatch(s, BlankPatterns);
    SubAllNoMatch(s, CellTerms);
    SubNoMatch(TechTerm, s);
    SubNoMatch(Standalone, s);
    assert Fixpoint(s) == s;
    SubNoMatch(TechRestore, s);
    SubAllNoMatch(s, CellRestores);
    assert SubAll(s, CellRestores) == s;
  }

  /** Every entry of the table is a blank idiom. */
  lemma BlankPatternsIdioms()
    ensures forall k :: 0 <= k < |BlankPatterns| ==> IsIdiom(BlankPatterns[k])
  {
    LabelOpeners();
    LabelLabels();
    LabelClosers();
  }

  lemma LabelOpeners()
    ensures Outside("（(") && Outside("（") && Outside("(")
  {
  }

  lemma LabelLabels()
    ensures Solid("ABab") && Solid("①②") && Solid("12")
  {
  }

  lemma LabelClosers()
    ensures Solid("）)") && Solid("）") && Solid(")")
  {
  }

  /** After the passes of the table, no blank idiom of it is left anywhere:
      each pass rewrites all of its own and creates none of the others. */
  lemma IdiomsCleared(s: string)
    ensures forall k :: 0 <= k < |BlankPatterns| ==>
      NoMatch(BlankPatterns[k], SubAll(s, BlankPatterns))
  {
    BlankPatternsIdioms();
    FoldClears(s, BlankPatterns, |BlankPatterns|);
    SubAllWhole(s, BlankPatterns);
  }

  /** An empty bracket pair, with any whitespace inside, becomes the marker. */
  lemma EmptyBracketsMarked(o: char, c: char, w: string)
    requires IsIdiom(EmptyBrackets(o, c))
    requires forall j :: 0 <= j < |w| ==> IsSpace(w[j])
    ensures Sub(EmptyBrackets(o, c), [o] + w + [c]) == Marker
  {
    EmptyBracketsSpan(o, c, w);
    EmptyBracketsWhole([o] + w + [c], o, c);
  }

  /** A run of two or more of the blank character becomes one marker. */
  lemma RepeatedMarked(c: char, n: nat)
    requires IsIdiom(Repeated(c)) && n >= 2
    ensures Sub(Repeated(c), seq(n, _ => c)) == Marker
  {
    var s := seq(n, _ => c);
    RepeatedShape(s, c);
    IdiomWhole(Repeated(c), s);
  }

  /** A bracketed label, with any whitespace around the label, becomes the
      marker. */
  lemma BracketedLabelMarked(os: string, ls: string, cs: string, o: char, w1: string,
                             l: char, w2: string, e: char)
    requires IsIdiom(BracketedLabel(os, ls, cs)) && o in os && l in ls && e in cs
    requires forall j :: 0 <= j < |w1| ==> IsSpace(w1[j])
    requires forall j :: 0 <= j < |w2| ==> IsSpace(w2[j])
    ensures Sub(BracketedLabel(os, ls, cs), [o] + w1 + [l] + w2 + [e]) == Marker
  {
    BracketedLabelSpan(os, ls, cs, o, w1, l, w2, e);
    BracketedLabelWhole([o] + w1 + [l] + w2 + [e], os, ls, cs);
  }

  /** The full-width blank `（　）` comes out of the table's passes as one
      marker. */
  lemma IdeographicBlank()
    ensures SubAll("（　）", BlankPatterns) == Marker
  {
    var s := "（　）";
    EmptyBracketsMarked('（', '）', "　");
    assert ['（'] + "　" + ['）'] == s;
    SubAllSnoc(s, BlankPatterns, 0);
    assert BlankPatterns[..0] == [];
    BlankPatternsIdioms();
    MarkerKept(s, BlankPatterns, 1);
  }

  /** The loop of `normalize_standalone_letters`: `prev_result` starts as
      `None`, so the first pass always runs. */
  method RepeatStandalone(text: string) returns (result: string)
    ensures result == Fixpoint(text)
  {
    result := text;
    var prev: Option<string> := None;
    while prev != Some(result)
      invariant Fixpoint(result) == Fixpoint(text)
      invariant prev.Some? ==> result == Sub(Standalone, prev.value)
      decreases Score(result), if prev == Some(result) then 0 else 1
    {
      prev := Some(result);
      StandaloneFixedIff(result);
      StandaloneScore(result);
      result := Sub(Standalone, result);
    }
  }

  /** `normalize_standalone_letters`: protect, repeat the standalone pass
      until nothing changes, restore the technical terms, then run the cell
      restore loop twice. */
  method NormalizeStandaloneLetters(text: string) returns (result: string)
    ensures result == StandaloneLetters(text)
  {
    result := text;
    for i := 0 to |CellTerms|
      invariant result == SubAll(text, CellTerms[..i])
    {
      SubAllSnoc(text, CellTerms, i);
      result := Sub(CellTerms[i], result);
    }
    SubAllWhole(text, CellTerms);
    result := Sub(TechTerm, result);
    result := RepeatStandalone(result);
    result := Sub(TechRestore, result);
    ghost var fixed := result;
    for i := 0 to |CellRestores|
      invariant result == SubAll(fixed, CellRestores[..i])
    {
      SubAllSnoc(fixed, CellRestores, i);
      result := Sub(CellRestores[i], result);
    }
    SubAllWhole(fixed, CellRestores);
    ghost var once := result;
    for i := 0 to |CellRestores|
      invariant result == SubAll(once, CellRestores[..i])
    {
      SubAllSnoc(once, CellRestores, i);
      result := Sub(CellRestores[i], result);
    }
    SubAllWhole(once, CellRestores);
  }

  /** `normalize_blanks`: the table of blank idioms, then standalone letters. */
  method NormalizeBlanks(text: string) returns (result: string)
    ensures result == NormalizedBlanks(text)
  {
    result := text;
    for i := 0 to |BlankPatterns|
      invariant result == SubAll(text, BlankPatterns[..i])
    {
      SubAllSnoc(text, BlankPatterns, i);
      result := Sub(BlankPatterns[i], result);
    }
    SubAllWhole(text, BlankPatterns);
    result := NormalizeStandaloneLetters(result);
  }

  /** No character of `w` but possibly the last may stand before a letter. */
  lemma {:induction false} ScoreNoBefore(w: string)
    requires forall i :: 0 <= i < |w| - 1 ==> !IsBefore(w[i])
    ensures Score(w) == 0
    decreases |w|
  {
    if |w| >= 2 {
      ScoreNoBefore(w[1..]);
    }
  }

  /** No character of `w` but possibly the first is a capital letter. */
  lemma {:induction false} ScoreNoUpper(w: string)
    requires forall i :: 1 <= i < |w| ==> !IsUpper(w[i])
    ensures Score(w) == 0
    decreases |w|
  {
    if |w| >= 2 {
      ScoreNoUpper(w[1..]);
    }
  }

  /** `Score` of a concatenation: the parts and the place where they meet. */
  lemma {:induction false} ScoreConcat(x: string, y: string)
    ensures Score(x + y) == Score(x) + Score(y) +
      if x != [] && y != [] && IsBefore(x[|x| - 1]) && IsUpper(y[0]) then 1 else 0
    decreases |x|
  {
    if x == [] {
      assert x + y == y;
    } else {
      var t := x[1..];
      ScoreConcat(t, y);
      assert x + y == [x[0]] + (t + y);
      assert x == [x[0]] + t;
      ScoreCons(x[0], t + y);
      ScoreCons(x[0], t);
      if t == [] {
        assert t + y == y;
      } else {
        assert (t + y)[0] == t[0];
        assert x[|x| - 1] == t[|t| - 1];
      }
    }
  }

  /** A pass leaves no triple only if nothing in the text scores. */
  lemma ScoreZeroNoMatch(w: string)
    requires Score(w) == 0
    ensures NoMatch(Standalone, w)
  {
    StandaloneScore(w);
  }

  /** Text the standalone pass can neither match inside nor borrow as context
      at its edges, as the protecting placeholders are. */
  ghost predicate Inert(w: string) {
    w != [] && !IsUpper(w[0]) && !IsAfter(w[0])
    && !IsUpper(w[|w| - 1]) && !IsBefore(w[|w| - 1])
    && NoMatch(Standalone, w)
  }

  /** The standalone pass sees only the first three characters. */
  lemma StandaloneLocal(s: string, t: string)
    requires |s| >= 3 && |t| >= 3 && s[0] == t[0] && s[1] == t[1] && s[2] == t[2]
    ensures MatchLen(Standalone, s) == MatchLen(Standalone, t)
    ensures MatchLen(Standalone, s) > 0 ==> Rewrite(Standalone, s) == Rewrite(Standalone, t)
  {
  }

  lemma StandaloneSeparableLeft(a: string, w: string, b: string)
    requires Inert(w)
    ensures Separable(Standalone, a, w + b)
  {
    var s := a + (w + b);
    forall i | 0 <= i < |a| ensures SeparableAt(Standalone, a, w + b, i) {
      StandaloneLenIs(s[i..]);
      StandaloneLenIs(a[i..]);
      if i + 3 <= |a| {
        StandaloneLocal(s[i..], a[i..]);
      } else if i + 2 == |a| {
        assert s[i..][2] == w[0];
      } else {
        assert s[i..][1] == w[0];
      }
    }
  }

  lemma StandaloneSeparableRight(w: string, b: string)
    requires Inert(w)
    ensures Separable(Standalone, w, b)
  {
    var s := w + b;
    forall i | 0 <= i < |w| ensures SeparableAt(Standalone, w, b, i) {
      StandaloneLenIs(s[i..]);
      StandaloneLenIs(w[i..]);
      if i + 3 <= |w| {
        StandaloneLocal(s[i..], w[i..]);
      } else if i + 2 == |w| {
        assert s[i..][1] == w[|w| - 1];
      } else {
        assert s[i..][0] == w[|w| - 1];
      }
    }
  }

  lemma StandaloneLeftOf(a: string, w: string, b: string)
    requires Inert(w)
    ensures Sub(Standalone, a + (w + b)) == Sub(Standalone, a) + Sub(Standalone, w + b)
  {
    StandaloneSeparableLeft(a, w, b);
    SubAppend(Standalone, a, w + b);
  }

  lemma StandaloneRightOf(w: string, b: string)
    requires Inert(w)
    ensures Sub(Standalone, w + b) == w + Sub(Standalone, b)
  {
    StandaloneSeparableRight(w, b);
    SubAppend(Standalone, w, b);
    SubNoMatch(Standalone, w);
  }

  /** One standalone pass goes around an inert piece. */
  lemma StandaloneAround(a: string, w: string, b: string)
    requires Inert(w)
    ensures Sub(Standalone, a + w + b) == Sub(Standalone, a) + w + Sub(Standalone, b)
  {
    StandaloneLeftOf(a, w, b);
    StandaloneRightOf(w, b);
    Regroup3(a, w, b);
    Regroup3(Sub(Standalone, a), w, Sub(Standalone, b));
  }

  /** Where the standalone pattern matches nowhere around an inert piece, it
      matches nowhere on either side of it. */
  lemma NoMatchAround(a: string, w: string, b: string)
    requires Inert(w) && NoMatch(Standalone, a + w + b)
    ensures NoMatch(Standalone, a) && NoMatch(Standalone, b)
  {
    var s := a + w + b;
    StandaloneSeparableLeft(a, w, b);
    assert s == a + (w + b);
    forall i | 0 <= i < |a| ensures MatchLen(Standalone, a[i..]) == 0 {
      assert SeparableAt(Standalone, a, w + b, i);
    }
    forall j | 0 <= j < |b| ensures MatchLen(Standalone, b[j..]) == 0 {
      assert s[|a| + |w| + j..] == b[j..];
    }
  }

  /** The repeated standalone pass goes around an inert piece: a protecting
      placeholder comes out of the loop verbatim, whatever surrounds it. */
  lemma {:induction false} FixpointAround(a: string, w: string, b: string)
    requires Inert(w)
    ensures Fixpoint(a + w + b) == Fixpoint(a) + w + Fixpoint(b)
    decreases Score(a + w + b)
  {
    var s := a + w + b;
    StandaloneAround(a, w, b);
    var a', b' := Sub(Standalone, a), Sub(Standalone, b);
    StandaloneFixedIff(s);
    if Sub(Standalone, s) == s {
      NoMatchAround(a, w, b);
      StandaloneFixedIff(a);
      StandaloneFixedIff(b);
    } else {
      StandaloneScore(s);
      FixpointAround(a', w, b');
      FixpointStep(a);
      FixpointStep(b);
    }
  }

  /** An alternative found in a suffix of `s` is a slice of `s`. */
  lemma SliceIn(s: string, i: nat, k: nat, alts: seq<string>)
    requires i + k <= |s| && s[i..][..k] in alts
    ensures s[i..i + k] in alts
  {
    SliceOfSlice(s, i, k);
  }

  /** The placeholder `__TECH_<c>__` of a protected technical term. */
  function TechPlaceholder(c: char): string {
    "__TECH_" + [c] + "__"
  }

  /** The placeholder `__PROTECT_<l>_<suffix>__` of a protected cell term. */
  function CellPlaceholder(l: string, suffix: string): string {
    CellHead(l) + suffix + "__"
  }

  /** The technical-term pass puts a placeholder after the Japanese character
      it consumes and keeps the suffix. */
  lemma TechTermShape(s: string)
    requires MatchLen(TechTerm, s) > 0
    ensures var n := MatchLen(TechTerm, s);
      IsJapanese(s[0]) && IsUpper(s[1]) && s[2..n] in TechSuffixes
      && Rewrite(TechTerm, s) == [s[0]] + TechPlaceholder(s[1]) + s[2..n]
  {
    TechTermParts(s);
    TechSuffixFound(s);
    TechRewriteShape(Rewrite(TechTerm, s), s[0], s[1], s[2..TechTermLen(s)]);
  }

  /** The technical-term rewrite, regrouped around its placeholder. */
  lemma TechRewriteShape(r: string, j: char, c: char, tail: string)
    requires r == [j] + "__TECH_" + [c] + "__" + tail
    ensures r == [j] + TechPlaceholder(c) + tail
  {
  }

  lemma TechSuffixFound(s: string)
    requires TechTermLen(s) > 0
    ensures s[2..TechTermLen(s)] in TechSuffixes
  {
    var k := AltLen(s[2..], TechSuffixes);
    AltFound(s[2..], TechSuffixes);
    SliceIn(s, 2, k, TechSuffixes);
  }

  lemma TechTermParts(s: string)
    requires MatchLen(TechTerm, s) > 0
    ensures MatchLen(TechTerm, s) == TechTermLen(s)
    ensures IsJapanese(s[0]) && IsUpper(s[1])
    ensures Rewrite(TechTerm, s) == [s[0]] + "__TECH_" + [s[1]] + "__" + s[2..TechTermLen(s)]
  {
  }

  /** The cell-term pass of letter `l` replaces `l` and its suffix by a
      placeholder that holds the suffix. */
  lemma CellTermShape(l: string, s: string)
    requires MatchLen(CellTerm(l), s) > 0
    ensures var n := MatchLen(CellTerm(l), s);
      s[..|l|] == l && s[|l|..n] in CellSuffixes
      && Rewrite(CellTerm(l), s) == CellPlaceholder(l, s[|l|..n])
  {
    var n := MatchLen(CellTerm(l), s);
    AltFound(s[|l|..], CellSuffixes);
    SliceIn(s, |l|, n - |l|, CellSuffixes);
  }

  /** The technical-term placeholder is inert, and the restoring pass turns
      it back into its letter. */
  lemma TechPlaceholderInert(c: char)
    requires IsUpper(c)
    ensures Inert(TechPlaceholder(c))
    ensures MatchLen(TechRestore, TechPlaceholder(c)) == 10
    ensures Rewrite(TechRestore, TechPlaceholder(c)) == [c]
  {
    var w := TechPlaceholder(c);
    assert forall i :: 0 <= i < |w| ==> w[i] == '_' || IsUpper(w[i]);
    ScoreNoBefore(w);
    ScoreZeroNoMatch(w);
    assert w[..7] == "__TECH_" && w[8..10] == "__";
  }

  /** A cell-term placeholder is inert. */
  lemma CellPlaceholderInert(l: string, suffix: string)
    requires l in CellLetters && suffix in CellSuffixes
    ensures Inert(CellPlaceholder(l, suffix))
  {
    var h := CellHead(l);
    var w := CellPlaceholder(l, suffix);
    assert forall i :: 0 <= i < |h| ==> h[i] == '_' || IsUpper(h[i]);
    assert forall i :: 0 <= i < |suffix| ==> IsJapanese(suffix[i]);
    ScoreNoBefore(h);
    ScoreNoUpper(suffix);
    ScoreConcat(h, suffix);
    ScoreConcat(h + suffix, "__");
    ScoreZeroNoMatch(w);
  }

  /** The restoring pass of the letter turns a cell-term placeholder back into
      the letter and the suffix. */
  lemma CellPlaceholderRestore(l: string, suffix: string)
    requires l in CellLetters && suffix in CellSuffixes
    ensures MatchLen(CellRestore(l), CellPlaceholder(l, suffix)) == |CellPlaceholder(l, suffix)|
    ensures Rewrite(CellRestore(l), CellPlaceholder(l, suffix)) == l + suffix
  {
    var h := CellHead(l);
    var w := CellPlaceholder(l, suffix);
    assert w == h + (suffix + "__");
    var t := w[|h|..];
    assert t == suffix + "__";
    LazyCloseAt(t, "__", 1, |suffix|);
    assert StartsWith(w, h);
    assert w[|h|..|w| - 2] == suffix;
  }
}
