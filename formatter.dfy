/** `format_blanks`: every `{{BLANK}}` marker becomes a visible blank, one
    wide unlabelled blank when there is a single one, lettered blanks
    `（　　A　　）`, `（　　B　　）`, … when there are several. */
module BlankFormatter {
  import opened Text
  import opened Patterns

  /** The number of letters in `labels`, `A` to `Z`. */
  const LabelCount := 26

  /** The `i`-th letter of `labels`. */
  function Letter(i: nat): (c: char)
    requires i < LabelCount
    ensures IsUpper(c)
  {
    ('A' as int + i) as char
  }

  /** The single unlabelled blank. */
  const Wide := "（　　　　　）"

  /** The blank labelled with the `i`-th letter. */
  function Label(i: nat): string
    requires i < LabelCount
  {
    "（　　" + [Letter(i)] + "　　）"
  }

  /** A label holds no `{`. */
  lemma LabelPlain(i: nat)
    requires i < LabelCount
    ensures '{' !in Label(i)
  {
    var l := Label(i);
    assert forall j :: 0 <= j < |l| ==> l[j] in "（　）" || IsUpper(l[j]);
  }

  function Min(a: nat, b: nat): nat {
    if a <= b then a else b
  }

  /** The text after the first `c` rounds of the loop: round `i` replaces the
      first remaining marker by `Label(i)`. */
  function Labelled(s: string, c: nat): string
    requires c <= LabelCount
  {
    if c == 0 then s else ReplaceFirst(Labelled(s, c - 1), Marker, Label(c - 1))
  }

  /** `format_blanks(text, blank_count)` as a function. */
  function FormattedBlanks(s: string, count: nat): string {
    if count == 0 then s
    else if count == 1 then ReplaceAll(s, Marker, Wide)
    else Labelled(s, Min(count, LabelCount))
  }

  /** `format_blanks`: the loop runs `blank_count` rounds and labels only in
      the first 26. */
  method FormatBlanks(text: string, count: nat) returns (result: string)
    ensures result == FormattedBlanks(text, count)
  {
    if count == 0 {
      result := text;
    } else if count == 1 {
      result := ReplaceAll(text, Marker, Wide);
    } else {
      result := text;
      for i := 0 to count
        invariant result == Labelled(text, Min(i, LabelCount))
      {
        if i < LabelCount {
          result := ReplaceFirst(result, Marker, Label(i));
        }
      }
    }
  }

  /** No piece between the markers holds a marker of its own. */
  predicate Separated(pieces: seq<string>) {
    forall k :: 0 <= k < |pieces| ==> Count(pieces[k], Marker) == 0
  }

  /** The first `k` pieces, each followed by its label. */
  function LabelledPrefix(pieces: seq<string>, k: nat): string
    requires k <= |pieces| && k <= LabelCount
  {
    if k == 0 then [] else LabelledPrefix(pieces, k - 1) + pieces[k - 1] + Label(k - 1)
  }

  /** The characters of `{{BLANK}}` that the boundary argument needs. */
  lemma MarkerShape()
    ensures |Marker| == 9 && Marker[0] == '{' && Marker[1] == '{'
    ensures forall i :: 0 <= i < |Marker| ==> Marker[i] != '（'
    ensures forall i :: 2 <= i < |Marker| ==> Marker[i] != '{'
  {
  }

  /** No marker starts inside a marker-free text and runs on into a
      following marker or blank: `{{BLANK}}` has no proper suffix that is
      also one of its prefixes, and it holds no `（`. */
  lemma MarkerBoundary(p: string, x: string)
    requires p != [] && Count(p, Marker) == 0
    requires (x != [] && x[0] == '（') || StartsWith(x, Marker)
    ensures !StartsWith(p + x, Marker)
  {
    CountZeroStart(p, Marker);
    MarkerShape();
    Boundary(p, x, Marker);
  }

  /** The boundary argument for any word shaped like the marker. */
  lemma Boundary(p: string, x: string, w: string)
    requires p != [] && !StartsWith(p, w)
    requires |w| >= 3 && w[0] == '{' && w[1] == '{'
    requires forall i :: 0 <= i < |w| ==> w[i] != '（'
    requires forall i :: 2 <= i < |w| ==> w[i] != '{'
    requires (x != [] && x[0] == '（') || StartsWith(x, w)
    ensures !StartsWith(p + x, w)
  {
    if |p| >= |w| {
      PrefixStart(p, x, w);
    } else if x[0] == '（' {
      assert (p + x)[|p|] == x[0];
      MismatchAt(p + x, w, |p|);
    } else {
      assert x[..|w|] == w;
      if |p| == 1 {
        assert (p + x)[2] == x[1] == w[1];
        MismatchAt(p + x, w, 2);
      } else {
        assert (p + x)[|p|] == x[0] == w[0];
        MismatchAt(p + x, w, |p|);
      }
    }
  }

  /** A marker-free piece followed by a marker or a blank is passed over by
      every search for a marker. */
  lemma {:induction false} PassPiece(p: string, x: string, r: string)
    requires Count(p, Marker) == 0
    requires (x != [] && x[0] == '（') || StartsWith(x, Marker)
    ensures ReplaceFirst(p + x, Marker, r) == p + ReplaceFirst(x, Marker, r)
    ensures ReplaceAll(p + x, Marker, r) == p + ReplaceAll(x, Marker, r)
    ensures Count(p + x, Marker) == Count(x, Marker)
    decreases |p|
  {
    if p == [] {
      assert p + x == x;
    } else {
      MarkerBoundary(p, x);
      CountZeroStart(p, Marker);
      PassPiece(p[1..], x, r);
      DropAppend(p, x, 1);
      StepOver(p + x, p[1..] + x, Marker, r);
      Glue(ReplaceFirst(p + x, Marker, r), p, [], ReplaceFirst(x, Marker, r), []);
      Glue(ReplaceAll(p + x, Marker, r), p, [], ReplaceAll(x, Marker, r), []);
    }
  }

  /** The labelled part is passed over by every search for a marker. */
  lemma {:induction false} PassLabelled(pieces: seq<string>, k: nat, x: string, r: string)
    requires Separated(pieces) && k <= |pieces| && k <= LabelCount
    ensures ReplaceFirst(LabelledPrefix(pieces, k) + x, Marker, r)
      == LabelledPrefix(pieces, k) + ReplaceFirst(x, Marker, r)
    ensures Count(LabelledPrefix(pieces, k) + x, Marker) == Count(x, Marker)
    decreases k
  {
    if k == 0 {
      assert LabelledPrefix(pieces, k) + x == x;
    } else {
      var lp := LabelledPrefix(pieces, k - 1);
      var p := pieces[k - 1];
      var l := Label(k - 1);
      LabelFront(k - 1, x);
      PassPiece(p, l + x, r);
      PassLabelled(pieces, k - 1, p + (l + x), r);
      PassLabelledStep(lp, p, l, x, r);
    }
  }

  /** A label followed by anything starts with `（` and is passed over by
      every search for a marker. */
  lemma LabelFront(i: nat, x: string)
    requires i < LabelCount
    ensures Label(i) + x != [] && (Label(i) + x)[0] == '（'
    ensures forall r :: ReplaceFirst(Label(i) + x, Marker, r) == Label(i) + ReplaceFirst(x, Marker, r)
    ensures Count(Label(i) + x, Marker) == Count(x, Marker)
  {
    LabelPlain(i);
    forall r ensures ReplaceFirst(Label(i) + x, Marker, r) == Label(i) + ReplaceFirst(x, Marker, r) {
      SkipPrefix(Label(i), x, Marker, r);
    }
    SkipPrefix(Label(i), x, Marker, Marker);
  }

  /** The passes over the prefix, the piece and the label, put together. */
  lemma PassLabelledStep(lp: string, p: string, l: string, x: string, r: string)
    requires ReplaceFirst(lp + (p + (l + x)), Marker, r) == lp + ReplaceFirst(p + (l + x), Marker, r)
    requires ReplaceFirst(p + (l + x), Marker, r) == p + ReplaceFirst(l + x, Marker, r)
    requires ReplaceFirst(l + x, Marker, r) == l + ReplaceFirst(x, Marker, r)
    requires Count(lp + (p + (l + x)), Marker) == Count(p + (l + x), Marker)
    requires Count(p + (l + x), Marker) == Count(l + x, Marker)
    requires Count(l + x, Marker) == Count(x, Marker)
    ensures ReplaceFirst(lp + p + l + x, Marker, r) == lp + p + l + ReplaceFirst(x, Marker, r)
    ensures Count(lp + p + l + x, Marker) == Count(x, Marker)
  {
    Regroup4(lp, p, l, x);
    Regroup4(lp, p, l, ReplaceFirst(x, Marker, r));
  }

  /** Joining with `{m}` after the first piece. */
  lemma JoinCons(pieces: seq<string>, m: string)
    requires |pieces| >= 2
    ensures Join(pieces, m) == pieces[0] + (m + Join(pieces[1..], m))
  {
  }

  lemma Regroup4(a: string, b: string, c: string, d: string)
    ensures a + (b + (c + d)) == a + b + c + d
  {
  }

  /** One round of the loop labels the next marker. */
  lemma LabelStep(pieces: seq<string>, k: nat)
    requires Separated(pieces) && k + 1 < |pieces| && k < LabelCount
    ensures ReplaceFirst(LabelledPrefix(pieces, k) + Join(pieces[k..], Marker), Marker, Label(k))
      == LabelledPrefix(pieces, k + 1) + Join(pieces[k + 1..], Marker)
  {
    var rest := pieces[k..];
    JoinCons(rest, Marker);
    assert rest[1..] == pieces[k + 1..];
    var j := Join(pieces[k + 1..], Marker);
    AtFront(j, Marker, Label(k));
    PassPiece(pieces[k], Marker + j, Label(k));
    PassLabelled(pieces, k, pieces[k] + (Marker + j), Label(k));
    Regroup4(LabelledPrefix(pieces, k), pieces[k], Label(k), j);
  }

  /** Over a text whose markers separate `pieces`, the first `k` rounds label
      the first `k` markers in order, left to right, and leave the others. */
  lemma {:induction false} LabelsInOrder(pieces: seq<string>, k: nat)
    requires Separated(pieces) && k < |pieces| && k <= LabelCount
    ensures Labelled(Join(pieces, Marker), k) == LabelledPrefix(pieces, k) + Join(pieces[k..], Marker)
    decreases k
  {
    if k == 0 {
      assert pieces[0..] == pieces;
    } else {
      LabelsInOrder(pieces, k - 1);
      LabelStep(pieces, k - 1);
    }
  }

  /** The number of markers in a text whose markers separate `pieces`. */
  lemma {:induction false} CountMarkers(pieces: seq<string>)
    requires Separated(pieces) && pieces != []
    ensures Count(Join(pieces, Marker), Marker) == |pieces| - 1
    decreases |pieces|
  {
    if |pieces| > 1 {
      JoinCons(pieces, Marker);
      var j := Join(pieces[1..], Marker);
      AtFront(j, Marker, Marker);
      PassPiece(pieces[0], Marker + j, Marker);
      SeparatedTail(pieces);
      CountMarkers(pieces[1..]);
    }
  }

  /** The pieces after the first are separated too. */
  lemma SeparatedTail(pieces: seq<string>)
    requires Separated(pieces) && pieces != []
    ensures Separated(pieces[1..])
  {
    forall k | 0 <= k < |pieces| - 1 ensures Count(pieces[1..][k], Marker) == 0 {
      assert pieces[1..][k] == pieces[k + 1];
    }
  }

  /** With one blank, every marker becomes the wide blank. */
  lemma {:induction false} WideEverywhere(pieces: seq<string>)
    requires Separated(pieces) && pieces != []
    ensures ReplaceAll(Join(pieces, Marker), Marker, Wide) == Join(pieces, Wide)
    decreases |pieces|
  {
    if |pieces| == 1 {
      CountZero(pieces[0], Marker, Wide);
    } else {
      JoinCons(pieces, Marker);
      JoinCons(pieces, Wide);
      var j := Join(pieces[1..], Marker);
      AtFront(j, Marker, Wide);
      PassPiece(pieces[0], Marker + j, Wide);
      SeparatedTail(pieces);
      WideEverywhere(pieces[1..]);
    }
  }

  /** `format_blanks` with the count of markers the text holds, 2 to 26:
      the `i`-th marker from the left gets the `i`-th letter, and no marker
      is left. */
  lemma AllLabelled(pieces: seq<string>)
    requires Separated(pieces) && 3 <= |pieces| <= LabelCount + 1
    ensures FormattedBlanks(Join(pieces, Marker), |pieces| - 1)
      == LabelledPrefix(pieces, |pieces| - 1) + pieces[|pieces| - 1]
    ensures Count(FormattedBlanks(Join(pieces, Marker), |pieces| - 1), Marker) == 0
  {
    var n := |pieces| - 1;
    LabelsInOrder(pieces, n);
    JoinLast(pieces, Marker);
    FewRounds(Join(pieces, Marker), n);
    PassLabelled(pieces, n, pieces[n], Marker);
  }

  /** A `{` of the text's own next to a marker does not disturb the
      labelling. */
  lemma StrayBrace()
    ensures FormattedBlanks("x{" + Marker + "y" + Marker + "z", 2)
      == "x{" + Label(0) + "y" + Label(1) + "z"
  {
    var pieces := ["x{", "y", "z"];
    assert Count(pieces[0], Marker) == 0 && Count(pieces[1], Marker) == 0 && Count(pieces[2], Marker) == 0;
    assert Join(pieces, Marker) == "x{" + Marker + "y" + Marker + "z";
    AllLabelled(pieces);
  }

  /** The last piece alone, joined. */
  lemma JoinLast(pieces: seq<string>, m: string)
    requires pieces != []
    ensures Join(pieces[|pieces| - 1..], m) == pieces[|pieces| - 1]
  {
    assert pieces[|pieces| - 1..] == [pieces[|pieces| - 1]];
  }

  /** From 2 to 26 blanks, the loop labels as many markers as there are. */
  lemma FewRounds(s: string, count: nat)
    requires 2 <= count <= LabelCount
    ensures FormattedBlanks(s, count) == Labelled(s, count)
  {
  }

  /** Past 26 blanks the loop labels the first 26 markers and leaves the
      rest as literal markers. */
  lemma BeyondLabels(pieces: seq<string>, count: nat)
    requires Separated(pieces) && |pieces| > LabelCount && count > LabelCount
    ensures FormattedBlanks(Join(pieces, Marker), count)
      == LabelledPrefix(pieces, LabelCount) + Join(pieces[LabelCount..], Marker)
  {
    ManyRounds(Join(pieces, Marker), count);
    LabelsInOrder(pieces, LabelCount);
  }

  lemma ManyRounds(s: string, count: nat)
    requires count > LabelCount
    ensures FormattedBlanks(s, count) == Labelled(s, LabelCount)
  {
  }

  /** With a single blank, every marker becomes `（　　　　　）`; with none,
      the text is unchanged. */
  lemma OneOrNone(pieces: seq<string>, s: string)
    requires Separated(pieces) && pieces != []
    ensures FormattedBlanks(Join(pieces, Marker), 1) == Join(pieces, Wide)
    ensures FormattedBlanks(s, 0) == s
  {
    WideEverywhere(pieces);
  }
}
