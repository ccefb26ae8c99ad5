/** `clean_text`: Markdown emphasis, doubled punctuation and runs of blanks
    are tidied, and the text is trimmed. */
module Cleaner {
  import opened Text
  import opened Patterns

  /** The substitutions of `clean_text` before the trim, in order. */
  const BeforeStrip: seq<Pattern> := [
    Emphasis("**"),
    Emphasis("*"),
    Literal(",。", "。"),
    Literal("、。", "。"),
    CommaAny,
    Literal(",、", "、"),
    Run(" 　", ' '),
    Run("、，", '、'),
    Run("。．", '。')
  ]

  lemma RunStep(cls: string, c: char, s: string)
    requires s != []
    ensures MatchLen(Run(cls, c), s) == ClassRun(s, cls)
    ensures ClassRun(s, cls) > 0 ==> Sub(Run(cls, c), s) == [c] + Sub(Run(cls, c), s[ClassRun(s, cls)..])
    ensures ClassRun(s, cls) == 0 ==> Sub(Run(cls, c), s) == [s[0]] + Sub(Run(cls, c), s[1..])
  {
    SubStep(Run(cls, c), s);
  }

  /** A run pass starts its output with the kept first character or with the
      single character of the run. */
  lemma RunHead(cls: string, c: char, s: string)
    requires s != []
    ensures Sub(Run(cls, c), s) != []
    ensures Sub(Run(cls, c), s)[0] == if s[0] in cls then c else s[0]
  {
    RunStep(cls, c, s);
  }

  /** After `[cls]+ -> c`, with `c` one of `cls`, no two `c` are adjacent. */
  lemma {:induction false} RunNoRepeat(cls: string, c: char, s: string)
    requires c in cls
    ensures NoPair(Sub(Run(cls, c), s), c, c)
    decreases |s|
  {
    if s != [] {
      RunStep(cls, c, s);
      var n := ClassRun(s, cls);
      var m := if n > 0 then n else 1;
      var u := s[m..];
      RunNoRepeat(cls, c, u);
      if u != [] {
        RunHead(cls, c, u);
      }
      NoPairConcat([if n > 0 then c else s[0]], Sub(Run(cls, c), u), c, c);
    }
  }

  /** After `[cls]+ -> c`, no other character of `cls` is left. */
  lemma RunRemoves(cls: string, c: char, s: string, d: char)
    requires d in cls && d != c
    ensures d !in Sub(Run(cls, c), s)
  {
    SubNoChar(Run(cls, c), s, d);
  }

  /** A piece of a text keeps what the text lacks. */
  lemma SliceKeeps(s: string, i: nat, j: nat, a: char, b: char)
    requires i <= j <= |s|
    ensures NoPair(s, a, b) ==> NoPair(s[i..j], a, b)
    ensures a !in s ==> a !in s[i..j]
  {
    var t := s[i..j];
    forall k | 0 <= k < |t| ensures t[k] == s[i + k] {
    }
  }

  /** A run pass whose character is neither `a` nor `b` makes no `ab`. */
  lemma RunKeepsPair(cls: string, c: char, s: string, a: char, b: char)
    requires NoPair(s, a, b) && c != a && c != b
    ensures NoPair(Sub(Run(cls, c), s), a, b)
  {
    SubNoPair(Run(cls, c), s, a, b);
  }

  /** A run pass makes no character but its own. */
  lemma RunKeepsChar(cls: string, c: char, s: string, d: char)
    requires d !in s && d != c
    ensures d !in Sub(Run(cls, c), s)
  {
    SubNoChar(Run(cls, c), s, d);
  }

  lemma BlankLineKeepsPair(s: string, a: char, b: char)
    requires NoPair(s, a, b) && a != '\n' && b != '\n'
    ensures NoPair(Sub(BlankLine, s), a, b)
  {
    SubNoPair(BlankLine, s, a, b);
  }

  lemma BlankLineKeepsChar(s: string, d: char)
    requires d !in s && d != '\n'
    ensures d !in Sub(BlankLine, s)
  {
    SubNoChar(BlankLine, s, d);
  }

  /** A match of `\n\s*\n` starts and ends with a newline. */
  lemma BlankLineShape(s: string)
    requires MatchLen(BlankLine, s) > 0
    ensures s[0] == '\n' && s[MatchLen(BlankLine, s) - 1] == '\n'
  {
    var k := SpaceRun(s[1..]);
    var j := LastNewline(s[1..1 + k]);
    assert s[1..1 + k][j] == s[1 + j];
  }

  lemma BlankLineStep(s: string)
    requires s != []
    ensures MatchLen(BlankLine, s) > 0 ==> Sub(BlankLine, s) == "\n" + Sub(BlankLine, s[MatchLen(BlankLine, s)..])
    ensures MatchLen(BlankLine, s) == 0 ==> Sub(BlankLine, s) == [s[0]] + Sub(BlankLine, s[1..])
  {
    SubStep(BlankLine, s);
  }

  /** The blank-line pass keeps a last character that is not a newline. */
  lemma {:induction false} BlankLineLast(s: string)
    requires s != [] && s[|s| - 1] != '\n'
    ensures Sub(BlankLine, s) != [] && Sub(BlankLine, s)[|Sub(BlankLine, s)| - 1] == s[|s| - 1]
    decreases |s|
  {
    var n := MatchLen(BlankLine, s);
    if n > 0 {
      BlankLineShape(s);
      var u := s[n..];
      DropLast(s, n);
      BlankLineLast(u);
      SubMatchAt(BlankLine, s, u, n, "\n");
      AppendLast("\n", Sub(BlankLine, u));
    } else if |s| > 1 {
      var u := s[1..];
      DropLast(s, 1);
      BlankLineLast(u);
      SubKeepAt(BlankLine, s, u, s[0]);
      AppendLast([s[0]], Sub(BlankLine, u));
    } else {
      SubKeepAt(BlankLine, s, [], s[0]);
    }
  }

  /** The blank-line pass keeps a first character that is not a newline. */
  lemma BlankLineFirst(s: string)
    requires s != [] && s[0] != '\n'
    ensures Sub(BlankLine, s) != [] && Sub(BlankLine, s)[0] == s[0]
  {
    BlankLineStep(s);
    if MatchLen(BlankLine, s) > 0 {
      BlankLineShape(s);
    }
  }

  /** The blank-line pass after the trim keeps both ends free of
      whitespace. */
  lemma BlankLineKeepsTrim(t: string)
    ensures var r := Sub(BlankLine, Strip(t)); r == [] || (!IsSpace(r[0]) && !IsSpace(r[|r| - 1]))
  {
    BlankLineTrimmed(Strip(t));
  }

  /** The blank-line pass keeps a trimmed text trimmed. */
  lemma BlankLineTrimmed(u: string)
    requires Trimmed(u)
    ensures Trimmed(Sub(BlankLine, u))
  {
    if u != [] {
      BlankLineFirst(u);
      BlankLineLast(u);
    }
  }

  /** No newline in the whitespace at the front of `v`. */
  predicate LeadClear(v: string) {
    forall p :: 0 <= p < SpaceRun(v) ==> v[p] != '\n'
  }

  /** After every newline of `r`, the next newline comes after something
      that is not whitespace: `r` holds no blank line. */
  predicate NoBlankLine(r: string) {
    forall i, j :: 0 <= i < j < |r| && r[i] == '\n' && r[j] == '\n' ==>
      exists k :: i < k < j && !IsSpace(r[k])
  }

  /** The form of `NoBlankLine` the induction keeps. */
  predicate BlankFree(r: string) {
    forall i :: 0 <= i < |r| && r[i] == '\n' ==> LeadClear(r[i + 1..])
  }

  /** `\n\s*\n` matches exactly at a newline followed by whitespace that
      holds another newline. */
  lemma BlankLineAt(s: string)
    requires s != []
    ensures MatchLen(BlankLine, s) > 0 <==> s[0] == '\n' && !LeadClear(s[1..])
  {
    if s[0] == '\n' {
      var k := SpaceRun(s[1..]);
      var t := s[1..1 + k];
      if !LeadClear(s[1..]) {
        var p :| 0 <= p < k && s[1..][p] == '\n';
        assert t[p] == '\n';
      }
      if LastNewline(t) >= 0 {
        assert s[1..][LastNewline(t)] == '\n';
      }
    }
  }

  /** Text without a newline passes the blank-line pass unchanged. */
  lemma {:induction false} BlankLinePlain(w: string, y: string)
    requires '\n' !in w
    ensures Sub(BlankLine, w + y) == w + Sub(BlankLine, y)
    decreases |w|
  {
    if w != [] {
      assert (w + y)[1..] == w[1..] + y;
      BlankLinePlain(w[1..], y);
      SubKeepAt(BlankLine, w + y, w[1..] + y, w[0]);
      assert w == [w[0]] + w[1..];
    } else {
      assert w + y == y;
    }
  }

  /** What follows a match of `\n\s*\n` has no newline in its leading
      whitespace: the match took up to the last one. */
  lemma MatchLeavesClear(s: string)
    requires MatchLen(BlankLine, s) > 0
    ensures LeadClear(s[MatchLen(BlankLine, s)..])
  {
    var n := MatchLen(BlankLine, s);
    var k := SpaceRun(s[1..]);
    var t := s[1..1 + k];
    var j := LastNewline(t);
    var v := s[n..];
    var L := SpaceRun(v);
    forall p | 0 <= p < L ensures v[p] != '\n' {
      assert v[p] == t[j + 1 + p];
    }
  }

  /** The blank-line pass keeps the front of a text free of newlines in its
      leading whitespace. */
  lemma LeadKept(v: string)
    requires LeadClear(v)
    ensures LeadClear(Sub(BlankLine, v))
  {
    var m := SpaceRun(v);
    var w := v[..m];
    var y := v[m..];
    assert v == w + y;
    BlankLinePlain(w, y);
    var x := Sub(BlankLine, v);
    if y != [] {
      BlankLineFirst(y);
      assert x[m] == y[0];
    }
    assert forall p :: 0 <= p < m ==> x[p] == w[p];
  }

  /** The blank-line pass leaves no newline followed by whitespace holding
      another newline. */
  lemma {:induction false} BlankLineFree(s: string)
    ensures BlankFree(Sub(BlankLine, s))
    decreases |s|
  {
    if s != [] {
      var n := MatchLen(BlankLine, s);
      var m := if n > 0 then n else 1;
      var u := s[m..];
      var h := if n > 0 then "\n" else [s[0]];
      BlankLineFree(u);
      BlankLineStep(s);
      var R := Sub(BlankLine, u);
      var r := Sub(BlankLine, s);
      assert r == h + R;
      if h == "\n" {
        if n > 0 {
          MatchLeavesClear(s);
        } else {
          BlankLineAt(s);
        }
        LeadKept(u);
        assert r[1..] == R;
      }
      forall i | 1 <= i < |r| && r[i] == '\n' ensures LeadClear(r[i + 1..]) {
        assert r[i] == R[i - 1] && r[i + 1..] == R[i..];
      }
    }
  }

  /** The induction form gives the stated one: between two newlines there is
      something that is not whitespace. */
  lemma BlankFreeNoBlankLine(r: string)
    requires BlankFree(r)
    ensures NoBlankLine(r)
  {
    forall i, j | 0 <= i < j < |r| && r[i] == '\n' && r[j] == '\n'
      ensures exists k :: i < k < j && !IsSpace(r[k])
    {
      var v := r[i + 1..];
      assert v[j - i - 1] == r[j];
    }
  }

  /** `\*\*(.+?)\*\*` and `\*(.+?)\*` unwrap emphasised text: around text
      with no newline and no `*`, the delimiters go and the text stays. */
  lemma EmphasisUnwrapped(d: string, x: string)
    requires d != [] && x != [] && d[0] !in x && '\n' !in x
    ensures Sub(Emphasis(d), d + x + d) == x
  {
    var s := d + x + d;
    EmphasisSpan(d, x);
    EmphasisSub(s, d);
    EmphasisRewrite(s, d);
    assert s[|d|..|s| - |d|] == x;
  }

  lemma EmphasisSpan(d: string, x: string)
    requires d != [] && x != [] && d[0] !in x && '\n' !in x
    ensures MatchLen(Emphasis(d), d + x + d) == |d + x + d|
  {
    var s := d + x + d;
    var t := s[|d|..];
    assert t == x + d;
    assert s[..|d|] == d;
    assert t[|x|..|x| + |d|] == d;
    LazyCloseAt(t, d, 1, |x|);
  }

  lemma EmphasisSub(s: string, d: string)
    requires MatchLen(Emphasis(d), s) == |s| > 0
    ensures Sub(Emphasis(d), s) == Rewrite(Emphasis(d), s)
  {
    SubWhole(Emphasis(d), s);
  }

  lemma EmphasisRewrite(s: string, d: string)
    requires MatchLen(Emphasis(d), s) > 0
    ensures Rewrite(Emphasis(d), s) == s[|d|..MatchLen(Emphasis(d), s) - |d|]
  {
  }

  /** Bold text loses its `**`. */
  lemma BoldUnwrapped(x: string)
    requires x != [] && '*' !in x && '\n' !in x
    ensures Sub(Emphasis("**"), "**" + x + "**") == x
  {
    EmphasisUnwrapped("**", x);
  }

  /** Italic text loses its `*`. */
  lemma ItalicUnwrapped(x: string)
    requires x != [] && '*' !in x && '\n' !in x
    ensures Sub(Emphasis("*"), "*" + x + "*") == x
  {
    EmphasisUnwrapped("*", x);
  }

  /** What the three run passes leave behind. */
  ghost predicate Tidy(t: string) {
    '　' !in t && NoPair(t, ' ', ' ') && '，' !in t && '．' !in t
    && NoPair(t, '、', '、') && NoPair(t, '。', '。')
  }

  /** The three run passes, at the end of the table, leave the text tidy. */
  lemma RunsTidy(x: string)
    ensures Tidy(Sub(Run("。．", '。'), Sub(Run("、，", '、'), Sub(Run(" 　", ' '), x))))
  {
    var t1 := Sub(Run(" 　", ' '), x);
    RunNoRepeat(" 　", ' ', x);
    RunRemoves(" 　", ' ', x, '　');
    var t2 := Sub(Run("、，", '、'), t1);
    RunNoRepeat("、，", '、', t1);
    RunRemoves("、，", '、', t1, '，');
    RunKeepsPair("、，", '、', t1, ' ', ' ');
    RunKeepsChar("、，", '、', t1, '　');
    var t3 := Sub(Run("。．", '。'), t2);
    RunNoRepeat("。．", '。', t2);
    RunRemoves("。．", '。', t2, '．');
    RunKeepsPair("。．", '。', t2, ' ', ' ');
    RunKeepsPair("。．", '。', t2, '、', '、');
    RunKeepsChar("。．", '。', t2, '　');
    RunKeepsChar("。．", '。', t2, '，');
  }

  /** The trim keeps a tidy text tidy. */
  lemma StripKeepsTidy(t: string)
    requires Tidy(t)
    ensures Tidy(Strip(t))
  {
    var r := Strip(t);
    StripSlice(t);
    var i, j :| 0 <= i <= j <= |t| && r == t[i..j];
    SliceKeeps(t, i, j, ' ', ' ');
    SliceKeeps(t, i, j, '、', '、');
    SliceKeeps(t, i, j, '。', '。');
    SliceKeeps(t, i, j, '　', '　');
    SliceKeeps(t, i, j, '，', '，');
    SliceKeeps(t, i, j, '．', '．');
  }

  /** The blank-line pass keeps a tidy text tidy. */
  lemma BlankLineKeepsTidy(r: string)
    requires Tidy(r)
    ensures Tidy(Sub(BlankLine, r))
  {
    BlankLineKeepsPair(r, ' ', ' ');
    BlankLineKeepsPair(r, '、', '、');
    BlankLineKeepsPair(r, '。', '。');
    BlankLineKeepsChar(r, '　');
    BlankLineKeepsChar(r, '，');
    BlankLineKeepsChar(r, '．');
  }

  /** The table of `clean_text` ends with the three run passes. */
  lemma BeforeStripEnds(s: string)
    ensures SubAll(s, BeforeStrip) ==
      Sub(Run("。．", '。'), Sub(Run("、，", '、'), Sub(Run(" 　", ' '), SubAll(s, BeforeStrip[..6]))))
  {
    var ps := BeforeStrip;
    assert ps[..9] == ps && ps[..9][..8] == ps[..8] && ps[..8][..7] == ps[..7] && ps[..7][..6] == ps[..6];
  }

  /** `clean_text`: the result has no whitespace at either end, no
      ideographic space and no two spaces in a row, no full-width comma or
      full stop, no doubled `、` or `。`, and no blank line. */
  function CleanText(s: string): (r: string)
    ensures r == [] || (!IsSpace(r[0]) && !IsSpace(r[|r| - 1]))
    ensures '　' !in r && NoPair(r, ' ', ' ')
    ensures '，' !in r && '．' !in r
    ensures NoPair(r, '、', '、') && NoPair(r, '。', '。')
    ensures NoBlankLine(r)
  {
    var t := SubAll(s, BeforeStrip);
    var u := Strip(t);
    BeforeStripEnds(s);
    RunsTidy(SubAll(s, BeforeStrip[..6]));
    StripKeepsTidy(t);
    BlankLineKeepsTidy(u);
    BlankLineKeepsTrim(t);
    BlankLineFree(u);
    BlankFreeNoBlankLine(Sub(BlankLine, u));
    Sub(BlankLine, u)
  }

  /** `,.` is a regular expression, not a literal: a comma takes the
      character after it, whatever it is unless a newline, and becomes `.`.
      In front of a marker the comma takes the marker's first brace. */
  lemma CommaTakesBrace(y: string)
    ensures Sub(CommaAny, "," + Marker + y) == "." + Sub(CommaAny, "{BLANK}}" + y)
  {
    var s := "," + Marker + y;
    assert MatchLen(CommaAny, s) == 2;
    assert s[2..] == "{BLANK}}" + y;
  }
}
