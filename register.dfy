/** `convert_desu_masu`: polite endings become the plain register, and every
    question ending becomes `はなにか。`. */
module Register {
  import opened Text
  import opened Patterns

  /** `QUESTION_END_PATTERNS`, in table order: each phrase, optionally with
      one of `。？?`, becomes `はなにか。`. */
  const QuestionEndings: seq<Pattern> := [
    Ending("は何でしょうか"),
    Ending("は何ですか"),
    Ending("は何であろうか"),
    Ending("は何であるか"),
    Ending("は何か"),
    Ending("はなんでしょうか"),
    Ending("はなんですか"),
    Ending("はなんであろうか"),
    Ending("はなんであるか"),
    Ending("はなんか")
  ]

  /** `DESU_MASU_PATTERNS`, in table order. */
  const PolitePatterns: seq<Pattern> := [
    Literal("でしょうか", "であろうか"),
    Literal("ましょう", "よう"),
    Literal("ません", "ない"),
    Literal("ました", "た"),
    Literal("ています", "ている"),
    Literal("てきます", "てくる"),
    Literal("ております", "ている"),
    Literal("されています", "されている"),
    Literal("なっています", "なっている"),
    Literal("います", "いる"),
    Literal("あります", "ある"),
    Literal("きます", "くる"),
    Literal("します", "する"),
    Literal("ですが", "であるが"),
    Literal("ですので", "であるので"),
    Literal("ですから", "であるから"),
    Literal("です", "である"),
    Literal("ます", "る")
  ]

  /** `convert_desu_masu` as a function: question endings first, then the
      politeness table. */
  function Converted(s: string): string {
    SubAll(SubAll(s, QuestionEndings), PolitePatterns)
  }

  /** `convert_desu_masu`. */
  method ConvertDesuMasu(text: string) returns (result: string)
    ensures result == Converted(text)
  {
    result := text;
    for i := 0 to |QuestionEndings|
      invariant result == SubAll(text, QuestionEndings[..i])
    {
      SubAllSnoc(text, QuestionEndings, i);
      result := Sub(QuestionEndings[i], result);
    }
    SubAllWhole(text, QuestionEndings);
    ghost var ended := result;
    for i := 0 to |PolitePatterns|
      invariant result == SubAll(ended, PolitePatterns[..i])
    {
      SubAllSnoc(ended, PolitePatterns, i);
      result := Sub(PolitePatterns[i], result);
    }
    SubAllWhole(ended, PolitePatterns);
  }

  /** The `です` pass leaves no `です`. */
  lemma DesuPass(t: string)
    ensures NoPair(Sub(Literal("です", "である"), t), 'で', 'す')
  {
    SubNoPair(Literal("です", "である"), t, 'で', 'す');
  }

  /** The `ます` pass leaves no `ます` and makes no `です`. */
  lemma MasuPass(t: string)
    ensures NoPair(Sub(Literal("ます", "る"), t), 'ま', 'す')
    ensures NoPair(t, 'で', 'す') ==> NoPair(Sub(Literal("ます", "る"), t), 'で', 'す')
  {
    SubNoPair(Literal("ます", "る"), t, 'ま', 'す');
    if NoPair(t, 'で', 'す') {
      SubNoPair(Literal("ます", "る"), t, 'で', 'す');
    }
  }

  /** After the politeness table the text holds neither `です` nor `ます`. */
  lemma NoDesuMasu(s: string)
    ensures NoPair(Converted(s), 'で', 'す') && NoPair(Converted(s), 'ま', 'す')
  {
    var ps := PolitePatterns;
    var t := SubAll(SubAll(s, QuestionEndings), ps[..16]);
    assert ps[..17][..16] == ps[..16] && ps[..18][..17] == ps[..17] && ps[..18] == ps;
    assert ps[16] == Literal("です", "である") && ps[17] == Literal("ます", "る");
    DesuPass(t);
    MasuPass(Sub(ps[16], t));
  }

  /** A text that starts with `c` cannot continue a match of `p` begun
      before it. */
  predicate CannotContinue(p: Pattern, c: char) {
    match p
    case Ending(w) => w != [] && c !in w[1..] && c !in "。？?"
    case Literal(w, _) => w != [] && c !in w[1..]
    case _ => false
  }

  /** A word cannot start in `t` and run into `y` when `y` starts with a
      character found nowhere in the word after its first. */
  lemma NoStraddle(w: string, t: string, y: string)
    requires 1 <= |t| < |w| && y != [] && y[0] !in w[1..]
    ensures !StartsWith(t + y, w)
  {
    var k := |t|;
    assert w[1..][k - 1] == w[k];
    assert (t + y)[k] == y[0];
  }

  lemma EndingSeparable(w: string, x: string, y: string)
    requires w != [] && y != [] && y[0] !in w[1..] && y[0] !in "。？?"
    ensures Separable(Ending(w), x, y)
  {
    forall i | 0 <= i < |x| ensures SeparableAt(Ending(w), x, y, i) {
      var s, t := (x + y)[i..], x[i..];
      assert s == t + y;
      if |w| <= |t| {
        assert s[..|w|] == t[..|w|];
        if |w| < |t| {
          assert s[|w|] == t[|w|];
        } else {
          assert s[|w|] == y[0];
        }
      } else {
        NoStraddle(w, t, y);
      }
    }
  }

  lemma LiteralSeparable(w: string, r: string, x: string, y: string)
    requires w != [] && y != [] && y[0] !in w[1..]
    ensures Separable(Literal(w, r), x, y)
  {
    forall i | 0 <= i < |x| ensures SeparableAt(Literal(w, r), x, y, i) {
      var s, t := (x + y)[i..], x[i..];
      assert s == t + y;
      if |w| <= |t| {
        assert s[..|w|] == t[..|w|];
      } else {
        NoStraddle(w, t, y);
      }
    }
  }

  /** A pass distributes over `x + y` when `y` starts with a character that
      cannot continue a match. */
  lemma SubBefore(p: Pattern, x: string, y: string)
    requires y != [] && CannotContinue(p, y[0])
    ensures Sub(p, x + y) == Sub(p, x) + Sub(p, y)
  {
    match p
    case Ending(w) => EndingSeparable(w, x, y); SubAppend(p, x, y);
    case Literal(w, r) => LiteralSeparable(w, r, x, y); SubAppend(p, x, y);
  }

  /** A table of passes none of which touches `y`, and none of which can run
      from `x` into `y`, acts on `x + y` as on `x`. */
  lemma {:induction false} SubAllBefore(x: string, y: string, ps: seq<Pattern>)
    requires y != []
    requires forall k :: 0 <= k < |ps| ==> Sub(ps[k], y) == y && CannotContinue(ps[k], y[0])
    ensures SubAll(x + y, ps) == SubAll(x, ps) + y
    decreases |ps|
  {
    if ps != [] {
      var q := ps[..|ps| - 1];
      SubAllBefore(x, y, q);
      SubBefore(ps[|ps| - 1], SubAll(x, q), y);
    }
  }

  /** The first pass of a table, taken out in front. */
  lemma {:induction false} SubAllFront(s: string, ps: seq<Pattern>)
    requires ps != []
    ensures SubAll(s, ps) == SubAll(Sub(ps[0], s), ps[1..])
    decreases |ps|
  {
    if |ps| == 1 {
      assert ps[..0] == [] && ps[1..] == [];
    } else {
      var q := ps[..|ps| - 1];
      SubAllFront(s, q);
      assert q[1..] == ps[1..][..|ps[1..]| - 1];
      assert ps[1..][|ps[1..]| - 1] == ps[|ps| - 1];
    }
  }

  /** The word of an `Ending` or `Literal` pattern. */
  function Word(p: Pattern): string {
    match p
    case Ending(w) => w
    case Literal(w, _) => w
    case _ => []
  }

  /** A word with a character that `y` lacks matches nowhere in `y`. */
  lemma WordMissing(p: Pattern, y: string, j: nat)
    requires (p.Ending? || p.Literal?) && j < |Word(p)| && Word(p)[j] !in y
    ensures Sub(p, y) == y
  {
    forall i | 0 <= i < |y| ensures MatchLen(p, y[i..]) == 0 {
      if j < |y| - i {
        assert y[i..][j] == y[i + j] && y[i + j] in y;
      }
    }
    SubNoMatch(p, y);
  }

  /** `はなにか。` is left alone by every question ending after the first. */
  lemma NanikaEndings()
    ensures forall k :: 1 <= k < |QuestionEndings| ==>
      Sub(QuestionEndings[k], Nanika) == Nanika && CannotContinue(QuestionEndings[k], Nanika[0])
  {
    forall k | 1 <= k < |QuestionEndings|
      ensures Sub(QuestionEndings[k], Nanika) == Nanika && CannotContinue(QuestionEndings[k], Nanika[0])
    {
      if k < 5 {
        NanikaEnding(QuestionEndings[k], 1);
      } else {
        NanikaEnding(QuestionEndings[k], 2);
      }
    }
  }

  /** One question ending whose `j`-th character `はなにか。` lacks. */
  lemma NanikaEnding(p: Pattern, j: nat)
    requires p.Ending? && j < |p.phrase| && p.phrase[j] !in Nanika && 'は' !in p.phrase[1..]
    ensures Sub(p, Nanika) == Nanika && CannotContinue(p, Nanika[0])
  {
    WordMissing(p, Nanika, j);
  }

  /** One politeness pattern whose second character `はなにか。` lacks. */
  lemma NanikaLiteral(p: Pattern)
    requires p.Literal? && |p.word| >= 2 && p.word[1] !in Nanika && 'は' !in p.word[1..]
    ensures Sub(p, Nanika) == Nanika && CannotContinue(p, Nanika[0])
  {
    WordMissing(p, Nanika, 1);
  }

  /** `はなにか。` is left alone by the politeness table. */
  lemma NanikaPolite()
    ensures forall k :: 0 <= k < |PolitePatterns| ==>
      Sub(PolitePatterns[k], Nanika) == Nanika && CannotContinue(PolitePatterns[k], Nanika[0])
  {
    forall k | 0 <= k < |PolitePatterns|
      ensures Sub(PolitePatterns[k], Nanika) == Nanika && CannotContinue(PolitePatterns[k], Nanika[0])
    {
      NanikaLiteral(PolitePatterns[k]);
    }
  }

  /** The question endings from index `start` on carry `はなにか。` along. */
  lemma EndingsKeepNanika(x: string, start: nat)
    requires 1 <= start <= |QuestionEndings|
    ensures SubAll(x + Nanika, QuestionEndings[start..]) == SubAll(x, QuestionEndings[start..]) + Nanika
  {
    NanikaEndings();
    var ps := QuestionEndings[start..];
    forall k | 0 <= k < |ps| ensures Sub(ps[k], Nanika) == Nanika && CannotContinue(ps[k], Nanika[0]) {
      assert ps[k] == QuestionEndings[start + k];
    }
    SubAllBefore(x, Nanika, ps);
  }

  /** The politeness table carries `はなにか。` along. */
  lemma PoliteKeepsNanika(x: string)
    ensures SubAll(x + Nanika, PolitePatterns) == SubAll(x, PolitePatterns) + Nanika
  {
    NanikaPolite();
    SubAllBefore(x, Nanika, PolitePatterns);
  }

  lemma FirstEnding()
    ensures Sub(QuestionEndings[0], "は何でしょうか。") == Nanika
    ensures CannotContinue(QuestionEndings[0], 'は')
  {
    var w := "は何でしょうか";
    assert QuestionEndings[0] == Ending(w);
    assert "は何でしょうか。" == w + ['。'];
    EndingWhole(w, '。');
    assert 'は' !in w[1..];
  }

  /** A question ending followed by one of `。？?` is rewritten whole. */
  lemma EndingWhole(w: string, q: char)
    requires w != [] && q in "。？?"
    ensures Sub(Ending(w), w + [q]) == Nanika
  {
    var s := w + [q];
    assert s[..|w|] == w && s[|w|] == q;
    SubMatchAt(Ending(w), s, [], |s|, Nanika);
  }

  /** A text ending in `は何でしょうか。` ends in `はなにか。` after the
      conversion, whatever comes before it. */
  lemma ConvertedDeshouka(x: string)
    ensures Converted(x + "は何でしょうか。") == Converted(x) + Nanika
  {
    var y := "は何でしょうか。";
    var qe := QuestionEndings;
    FirstEnding();
    SubBefore(qe[0], x, y);
    SubAllFront(x + y, qe);
    SubAllFront(x, qe);
    EndingsKeepNanika(Sub(qe[0], x), 1);
    PoliteKeepsNanika(SubAll(x, qe));
  }

  lemma SecondEnding()
    ensures Sub(QuestionEndings[1], "は何ですか？") == Nanika
    ensures CannotContinue(QuestionEndings[1], 'は')
  {
    var w := "は何ですか";
    assert QuestionEndings[1] == Ending(w);
    assert "は何ですか？" == w + ['？'];
    EndingWhole(w, '？');
    assert 'は' !in w[1..];
  }

  lemma SecondEndingSkipsFirst()
    ensures Sub(QuestionEndings[0], "は何ですか？") == "は何ですか？"
  {
    WordMissing(QuestionEndings[0], "は何ですか？", 3);
  }

  /** A text ending in `は何ですか？` ends in `はなにか。` after the
      conversion, whatever comes before it. */
  lemma ConvertedDesuka(x: string)
    ensures Converted(x + "は何ですか？") == Converted(x) + Nanika
  {
    EndingsDesuka(x);
    PoliteKeepsNanika(SubAll(x, QuestionEndings));
  }

  /** The question endings turn a final `は何ですか？` into `はなにか。`. */
  lemma EndingsDesuka(x: string)
    ensures SubAll(x + "は何ですか？", QuestionEndings) == SubAll(x, QuestionEndings) + Nanika
  {
    FirstEnding();
    SecondEnding();
    SecondEndingSkipsFirst();
    EndingsSecond(x, "は何ですか？");
  }

  /** A final piece that the first question ending leaves alone and the
      second turns into `はなにか。`, neither running into it from before. */
  lemma EndingsSecond(x: string, y: string)
    requires y != [] && y[0] == 'は'
    requires CannotContinue(QuestionEndings[0], 'は') && CannotContinue(QuestionEndings[1], 'は')
    requires Sub(QuestionEndings[0], y) == y && Sub(QuestionEndings[1], y) == Nanika
    ensures SubAll(x + y, QuestionEndings) == SubAll(x, QuestionEndings) + Nanika
  {
    var qe := QuestionEndings;
    SubBefore(qe[0], x, y);
    var x0 := Sub(qe[0], x);
    SubBefore(qe[1], x0, y);
    SubAllFrontTwo(x + y, qe);
    SubAllFrontTwo(x, qe);
    EndingsKeepNanika(Sub(qe[1], x0), 2);
  }

  /** The first two passes of a table, taken out in front. */
  lemma SubAllFrontTwo(s: string, ps: seq<Pattern>)
    requires |ps| >= 2
    ensures SubAll(s, ps) == SubAll(Sub(ps[1], Sub(ps[0], s)), ps[2..])
  {
    SubAllFront(s, ps);
    SubAllFront(Sub(ps[0], s), ps[1..]);
    assert ps[1..][0] == ps[1] && ps[1..][1..] == ps[2..];
  }
}
