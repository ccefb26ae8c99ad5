/** `format_answer`: the stripped answer behind the fixed prefix `正解：`,
    re-labelled as `A. …　　B. …` when the question has several blanks.
    Each regular expression of the function is its own matcher here, written
    out with the greedy, lazy and backtracking behaviour Python gives it. */
module AnswerFormatter {
  import opened Text
  import opened BlankFormatter

  /** The prefix every formatted answer starts with. */
  const Prefix := "正解："

  /** The separator between entries: two ideographic spaces. */
  const Gap := "　　"

  /** `^正解[：:]`, the label an answer may already carry. */
  predicate HasAnswerLabel(s: string) {
    |s| >= 3 && s[0] == '正' && s[1] == '解' && s[2] in "：:"
  }

  /** `re.sub(r'^正解[：:]\s*', '', s)`: one leading label and the
      whitespace after it are cut away, nothing else changes. */
  function StripAnswerPrefix(s: string): (r: string)
    ensures |r| <= |s| && r == s[|s| - |r|..]
    ensures !HasAnswerLabel(s) ==> r == s
    ensures HasAnswerLabel(s) ==> |r| <= |s| - 3 && (r == [] || !IsSpace(r[0]))
    ensures HasAnswerLabel(s) ==> forall j :: 3 <= j < |s| - |r| ==> IsSpace(s[j])
  {
    if HasAnswerLabel(s) then s[3..][SpaceRun(s[3..])..] else s
  }

  /** The whitespace cut by a greedy `\s*` is what `lstrip` cuts. */
  lemma {:induction false} SpaceRunLStrip(x: string)
    ensures x[SpaceRun(x)..] == LStrip(x)
    decreases |x|
  {
    if x != [] && IsSpace(x[0]) {
      SpaceRunLStrip(x[1..]);
      assert SepRun(x, "") == 1 + SepRun(x[1..], "");
      assert x[1..][SpaceRun(x[1..])..] == x[1 + SpaceRun(x[1..])..];
    }
  }

  /** The label is removed however its colon is written. */
  lemma LabelRemoved(x: string, colon: char)
    requires colon in "：:"
    ensures StripAnswerPrefix(['正', '解', colon] + x) == LStrip(x)
  {
    var s := ['正', '解', colon] + x;
    assert s[0] == '正' && s[1] == '解' && s[2] == colon && s[3..] == x;
    LabelCut(s, x);
    SpaceRunLStrip(x);
  }

  /** With a label in front, the label and the whitespace after it go. */
  lemma LabelCut(s: string, x: string)
    requires HasAnswerLabel(s) && s[3..] == x
    ensures StripAnswerPrefix(s) == x[SpaceRun(x)..]
  {
  }

  /** Only one label is removed: a doubled label leaves one behind. */
  lemma LabelRemovedOnce(x: string)
    ensures StripAnswerPrefix(Prefix + Prefix + x) == Prefix + x
  {
    assert Prefix + Prefix + x == ['正', '解', '：'] + (Prefix + x);
    LabelRemoved(Prefix + x, '：');
  }

  /** `①` … `⑳`, U+2460 to U+2473. */
  predicate IsCircled(c: char) { '\U{2460}' <= c <= '\U{2473}' }

  /** `circled_to_alpha`: `①` … `⑳` stand for `A` … `T`. */
  function CircledLetter(c: char): (l: char)
    requires IsCircled(c)
    ensures 'A' <= l <= 'T'
  {
    Letter(c as int - 0x2460)
  }

  /** The map is the alphabet in order. */
  lemma CircledInOrder(i: nat)
    requires i < 20
    ensures IsCircled((0x2460 + i) as char)
    ensures CircledLetter((0x2460 + i) as char) == Letter(i)
  {
  }

  /** `num_to_alpha.get(num)`: the keys are `str(1)` … `str(26)`. */
  function NumLabel(num: string): Option<char> {
    if |num| == 1 && '1' <= num[0] <= '9' then Some(Letter(num[0] as int - '1' as int))
    else if |num| == 2 && '1' <= num[0] <= '2' && IsDigit(num[1]) then
      var v := 10 * (num[0] as int - '0' as int) + (num[1] as int - '0' as int);
      if v <= 26 then Some(Letter(v - 1)) else None
    else None
  }

  /** Every key of `num_to_alpha` is found, with its letter. */
  lemma NumLabelKeys(i: nat)
    requires 1 <= i <= 26
    ensures NumLabel(NatToString(i)) == Some(Letter(i - 1))
  {
    if i >= 10 {
      assert NatToString(i) == NatToString(i / 10) + ['0' + (i % 10) as char];
      assert NatToString(i / 10) == ['0' + (i / 10) as char];
    }
  }

  /** Only the keys of `num_to_alpha` are found: `01`, `0`, `27` are not. */
  lemma NumLabelOnlyKeys(num: string)
    requires NumLabel(num).Some?
    ensures exists i :: 1 <= i <= 26 && num == NatToString(i)
  {
    if |num| == 1 {
      var i := num[0] as int - '0' as int;
      assert num == NatToString(i);
    } else {
      var i := 10 * (num[0] as int - '0' as int) + (num[1] as int - '0' as int);
      assert NatToString(i) == NatToString(i / 10) + ['0' + (i % 10) as char];
      assert num == NatToString(i);
    }
  }

  /** The `(.+)$` after a greedy separator run of length `k` in `rest`, where
      the run may give back characters down to `least`: the rest of the line
      if any is left, else the last separator. A line holds no newline. */
  function LineTail(rest: string, k: nat, least: nat): (v: Option<string>)
    requires least <= k <= |rest|
    ensures v.Some? ==> v.value != [] && |v.value| <= |rest| && v.value == rest[|rest| - |v.value|..]
    ensures v.None? <==> k == |rest| && k <= least
  {
    if k < |rest| then Some(rest[k..])
    else if k > least then Some(rest[k - 1..])
    else None
  }

  /** A label and its value, one tuple of a `findall` or one line match. */
  datatype Item = Item(key: char, value: string)

  /** The two groups of the numbered-line match. */
  datatype Numbered = Numbered(num: string, value: string)

  /** The leading digits of a line, and every prefix of them, are digits. */
  lemma DigitRun(line: string, d: nat)
    requires d == ClassRun(line, "0123456789")
    ensures d > 0 <==> line != [] && IsDigit(line[0])
    ensures forall k, j :: 0 <= j < k <= d ==> IsDigit(line[..k][j])
  {
    forall k, j | 0 <= j < k <= d ensures IsDigit(line[..k][j]) {
      assert line[..k][j] == line[j] && line[j] in "0123456789";
    }
  }

  /** `re.match(r'^([①-⑳])[.\s:：\t]*(.+)$', line)`. */
  function CircledLine(line: string): (m: Option<Item>)
    requires '\n' !in line
    ensures m.Some? <==> |line| >= 2 && IsCircled(line[0])
    ensures m.Some? ==> m.value.key == line[0] && m.value.value != []
  {
    if |line| >= 1 && IsCircled(line[0]) then
      match LineTail(line[1..], SepRun(line[1..], ".:："), 0)
      case Some(v) => Some(Item(line[0], v))
      case None => None
    else None
  }

  /** `re.match(r'^([0-9]+)[.\s:：\t\)）]*(.+)$', line)`: when digits and
      separators take the whole line, the separators give back one character
      first, then the digits do. */
  function NumberLine(line: string): (m: Option<Numbered>)
    requires '\n' !in line
    ensures m.Some? <==> |line| >= 2 && IsDigit(line[0])
    ensures m.Some? ==> m.value.num != [] && m.value.value != []
    ensures m.Some? ==> |m.value.num| < |line| && line[..|m.value.num|] == m.value.num
    ensures m.Some? ==> forall j :: 0 <= j < |m.value.num| ==> IsDigit(m.value.num[j])
  {
    var d := ClassRun(line, "0123456789");
    DigitRun(line, d);
    if d == 0 then None
    else
      var rest := line[d..];
      match LineTail(rest, SepRun(rest, ".:：)）"), 0)
      case Some(v) => Some(Numbered(line[..d], v))
      case None => if d > 1 then Some(Numbered(line[..d - 1], line[d - 1..])) else None
  }

  /** `re.match(r'^([A-Za-z])[.\s:：\t]+(.+)$', line)`. */
  function LetterLine(line: string): (m: Option<Item>)
    requires '\n' !in line
    ensures m.Some? <==> |line| >= 3 && IsLetter(line[0]) && (IsSpace(line[1]) || line[1] in ".:：")
    ensures m.Some? ==> m.value.key == line[0] && m.value.value != []
  {
    if |line| >= 1 && IsLetter(line[0]) then
      var rest := line[1..];
      var k := SepRun(rest, ".:：");
      if k == 0 then None
      else match LineTail(rest, k, 1)
        case Some(v) => Some(Item(line[0], v))
        case None => None
    else None
  }

  /** The letter of a numbered line: from `num_to_alpha`, else the next
      position, else `A`. */
  function NumberedLetter(num: string, n: nat): (l: char)
    ensures IsUpper(l)
  {
    match NumLabel(num)
    case Some(l) => l
    case None => if n < LabelCount then Letter(n) else 'A'
  }

  /** `f'{label}. {value}'`. */
  function MakeEntry(l: char, v: string): (e: string)
    requires IsUpper(l)
    ensures IsEntry(e) && e[0] == l && e[3..] == v
  {
    [l] + ". " + v
  }

  /** One round of the multi-line loop, `n` entries having been made. */
  function LineEntry(n: nat, raw: string): (e: Option<string>)
    requires '\n' !in raw
    ensures e.Some? ==> IsEntry(e.value)
  {
    StripWithin(raw, '\n');
    var line := Strip(raw);
    if line == [] then None
    else match CircledLine(line) {
      case Some(it) => Some(MakeEntry(CircledLetter(it.key), Strip(it.value)))
      case None => match NumberLine(line) {
        case Some(nv) => Some(MakeEntry(NumberedLetter(nv.num, n), Strip(nv.value)))
        case None => match LetterLine(line) {
          case Some(it) => Some(MakeEntry(Upper(it.key), Strip(it.value)))
          case None => if n < LabelCount then Some(MakeEntry(Letter(n), line)) else None
        }
      }
    }
  }

  /** No line of `lines` holds a newline. */
  predicate SingleLines(lines: seq<string>) {
    forall k :: 0 <= k < |lines| ==> '\n' !in lines[k]
  }

  /** `parts` after the multi-line loop over `lines`. */
  function LineEntries(lines: seq<string>): seq<string>
    requires SingleLines(lines)
    decreases |lines|
  {
    if lines == [] then []
    else
      var before := LineEntries(lines[..|lines| - 1]);
      match LineEntry(|before|, lines[|lines| - 1])
      case Some(e) => before + [e]
      case None => before
  }

  /** The multi-line loop of `format_answer`. */
  method ParseLines(lines: seq<string>) returns (parts: seq<string>)
    requires SingleLines(lines)
    ensures parts == LineEntries(lines)
  {
    parts := [];
    for i := 0 to |lines|
      invariant parts == LineEntries(lines[..i])
    {
      assert lines[..i + 1][..i] == lines[..i];
      var e := LineEntry(|parts|, lines[i]);
      if e.Some? {
        parts := parts + [e.value];
      }
    }
    assert lines[..|lines|] == lines;
  }

  /** The shape of every entry: an upper-case letter, a dot and a space. */
  predicate IsEntry(e: string) {
    |e| >= 3 && IsUpper(e[0]) && e[1] == '.' && e[2] == ' '
  }

  /** Every line gives at most one entry, and every entry is labelled. */
  lemma {:induction false} LineEntriesLabelled(lines: seq<string>)
    requires SingleLines(lines)
    ensures |LineEntries(lines)| <= |lines|
    ensures forall k :: 0 <= k < |LineEntries(lines)| ==> IsEntry(LineEntries(lines)[k])
    decreases |lines|
  {
    if lines != [] {
      var init := lines[..|lines| - 1];
      LineEntriesLabelled(init);
    }
  }

  /** Whitespace and the characters of `extra`, to the end. */
  predicate Separators(sp: string, extra: string) {
    forall j :: 0 <= j < |sp| ==> IsSpace(sp[j]) || sp[j] in extra
  }

  /** A trimmed value that starts with no separator and holds no newline. */
  predicate Value(v: string, extra: string) {
    v != [] && Trimmed(v) && v[0] !in extra && '\n' !in v
  }

  /** The line `[c] + sp + v` ends where `v` does. */
  lemma LineEnds(head: string, sp: string, v: string)
    requires head != [] && !IsSpace(head[0]) && v != [] && Trimmed(v)
    ensures Trimmed(head + sp + v) && Strip(head + sp + v) == head + sp + v
  {
    var line := head + sp + v;
    assert line[0] == head[0];
    assert line[|line| - 1] == v[|v| - 1];
    TrimmedStrip(line);
  }

  /** The separators run up to the value. */
  lemma TailIsValue(sp: string, v: string, extra: string)
    requires Separators(sp, extra) && Value(v, extra)
    ensures SepRun(sp + v, extra) == |sp| && (sp + v)[|sp|..] == v
  {
    SepRunOver(sp, v, extra);
  }

  lemma CircledLineOf(c: char, sp: string, v: string)
    requires IsCircled(c) && Separators(sp, ".:：") && '\n' !in sp && Value(v, ".:：")
    ensures '\n' !in [c] + sp + v
    ensures CircledLine([c] + sp + v) == Some(Item(c, v))
  {
    var line := [c] + sp + v;
    assert line[1..] == sp + v;
    TailIsValue(sp, v, ".:：");
  }

  /** `① value`, `①. value`, `①：value`: the circled letter and the value. */
  lemma CircledLineEntry(n: nat, c: char, sp: string, v: string)
    requires IsCircled(c) && Separators(sp, ".:：") && '\n' !in sp && Value(v, ".:：")
    ensures '\n' !in [c] + sp + v
    ensures LineEntry(n, [c] + sp + v) == Some(MakeEntry(CircledLetter(c), v))
  {
    CircledLineOf(c, sp, v);
    LineEnds([c], sp, v);
    TrimmedStrip(v);
    FirstOf([c] + sp, v);
    CircledDispatch(n, [c] + sp + v, c, v);
  }

  /** A trimmed line that the circled-line match recognises. */
  lemma CircledDispatch(n: nat, line: string, c: char, v: string)
    requires '\n' !in line && line != [] && Strip(line) == line && Strip(v) == v
    requires CircledLine(line) == Some(Item(c, v))
    ensures LineEntry(n, line) == Some(MakeEntry(CircledLetter(c), v))
  {
  }

  /** The digits of a numbered line run up to its separators. */
  lemma DigitsOver(num: string, rest: string)
    requires forall j :: 0 <= j < |num| ==> IsDigit(num[j])
    requires rest == [] || !IsDigit(rest[0])
    ensures ClassRun(num + rest, "0123456789") == |num|
    ensures (num + rest)[..|num|] == num && (num + rest)[|num|..] == rest
  {
    assert forall j :: 0 <= j < |num| ==> num[j] in "0123456789";
    ClassRunOver(num, rest, "0123456789");
  }

  lemma NumberLineOf(num: string, sp: string, v: string)
    requires num != [] && forall j :: 0 <= j < |num| ==> IsDigit(num[j])
    requires Separators(sp, ".:：)）") && '\n' !in sp && Value(v, ".:：)）0123456789")
    ensures '\n' !in num + sp + v
    ensures NumberLine(num + sp + v) == Some(Numbered(num, v))
  {
    assert num + sp + v == num + (sp + v);
    assert (sp + v)[0] == if sp == [] then v[0] else sp[0];
    DigitsOver(num, sp + v);
    TailIsValue(sp, v, ".:：)）");
  }

  /** `3. value`, `3) value`, `3：value`: the letter of the number, or of
      the position when the number is not `1` … `26`. */
  lemma NumberLineEntry(n: nat, num: string, sp: string, v: string)
    requires num != [] && forall j :: 0 <= j < |num| ==> IsDigit(num[j])
    requires Separators(sp, ".:：)）") && '\n' !in sp && Value(v, ".:：)）0123456789")
    ensures '\n' !in num + sp + v
    ensures LineEntry(n, num + sp + v) == Some(MakeEntry(NumberedLetter(num, n), v))
  {
    NumberLineOf(num, sp, v);
    LineEnds(num, sp, v);
    TrimmedStrip(v);
    FirstOf(num, sp);
    FirstOf(num + sp, v);
    NumberDispatch(n, num + sp + v, num, v);
  }

  /** The first character of a concatenation with a non-empty head. */
  lemma FirstOf(a: string, b: string)
    requires a != []
    ensures (a + b)[0] == a[0]
  {
  }

  /** A trimmed line that the numbered-line match recognises. */
  lemma NumberDispatch(n: nat, line: string, num: string, v: string)
    requires '\n' !in line && line != [] && Strip(line) == line && Strip(v) == v
    requires !IsCircled(line[0]) && NumberLine(line) == Some(Numbered(num, v))
    ensures LineEntry(n, line) == Some(MakeEntry(NumberedLetter(num, n), v))
  {
  }

  lemma LetterLineOf(l: char, sp: string, v: string)
    requires IsLetter(l) && sp != [] && Separators(sp, ".:：") && '\n' !in sp && Value(v, ".:：")
    ensures '\n' !in [l] + sp + v
    ensures LetterLine([l] + sp + v) == Some(Item(l, v))
  {
    var line := [l] + sp + v;
    assert line[1..] == sp + v;
    TailIsValue(sp, v, ".:：");
  }

  /** `A value`, `a. value`, `A：value`: the upper-cased letter. */
  lemma LetterLineEntry(n: nat, l: char, sp: string, v: string)
    requires IsLetter(l) && sp != [] && Separators(sp, ".:：") && '\n' !in sp && Value(v, ".:：")
    ensures '\n' !in [l] + sp + v
    ensures LineEntry(n, [l] + sp + v) == Some(MakeEntry(Upper(l), v))
  {
    LetterLineOf(l, sp, v);
    LineEnds([l], sp, v);
    TrimmedStrip(v);
    FirstOf([l] + sp, v);
    LetterDispatch(n, [l] + sp + v, l, v);
  }

  /** A trimmed line that only the lettered-line match recognises. */
  lemma LetterDispatch(n: nat, line: string, l: char, v: string)
    requires '\n' !in line && line != [] && Strip(line) == line && Strip(v) == v
    requires !IsCircled(line[0]) && !IsDigit(line[0]) && LetterLine(line) == Some(Item(l, v))
    ensures LineEntry(n, line) == Some(MakeEntry(Upper(l), v))
  {
  }

  /** A line with no label takes the letter of its position, and is dropped
      once all 26 letters are used. */
  lemma PlainLineEntry(n: nat, line: string)
    requires line != [] && Trimmed(line) && '\n' !in line
    requires !IsCircled(line[0]) && !IsDigit(line[0])
    requires |line| >= 3 && IsLetter(line[0]) ==> !IsSpace(line[1]) && line[1] !in ".:："
    ensures LineEntry(n, line) == if n < LabelCount then Some(MakeEntry(Letter(n), line)) else None
  {
    TrimmedStrip(line);
  }

  /** A match of a `findall` scan: the tuple and where the match ends. */
  datatype Hit = Hit(item: Item, end: nat)

  /** The lookahead `(?=\s*[①-⑳]|$)`; `$` also holds before a final
      newline. */
  predicate CircledAhead(v: string) {
    v == [] || v == "\n" || (SpaceRun(v) < |v| && IsCircled(v[SpaceRun(v)]))
  }

  /** The lazy `[^①-⑳]+?` from its `m`-th character on: the first end at
      which the lookahead holds. It always exists, because the lookahead
      holds in front of a circled number and at the end. */
  function CircledLazy(u: string, m: nat): (e: nat)
    requires 1 <= m <= |u|
    requires forall j :: 0 <= j < m ==> !IsCircled(u[j])
    ensures m <= e <= |u| && CircledAhead(u[e..])
    ensures forall j :: 0 <= j < e ==> !IsCircled(u[j])
    ensures forall j :: m <= j < e ==> !CircledAhead(u[j..])
    decreases |u| - m
  {
    if CircledAhead(u[m..]) then m
    else
      assert u[m..][0] == u[m];
      CircledLazy(u, m + 1)
  }

  /** A match of `([①-⑳])[.\s:：]*([^①-⑳]+?)(?=\s*[①-⑳]|$)` at the start
      of `s`. When the separators run into a circled number or the end, they
      give back their last character as the value. */
  function CircledAt(s: string): (h: Option<Hit>)
    ensures h.Some? <==> |s| >= 2 && IsCircled(s[0]) && !IsCircled(s[1])
    ensures h.Some? ==> h.value.item.key == s[0] && 2 <= h.value.end <= |s|
  {
    if s == [] || !IsCircled(s[0]) then None
    else
      var t := s[1..];
      var k := SepRun(t, ".:：");
      if k < |t| && !IsCircled(t[k]) then
        var e := CircledLazy(t[k..], 1);
        Some(Hit(Item(s[0], t[k..][..e]), 1 + k + e))
      else if k > 0 then Some(Hit(Item(s[0], [t[k - 1]]), 1 + k))
      else None
  }

  /** `re.findall` of the circled pattern: leftmost matches, each search
      resuming where the previous match ended. */
  function CircledFindall(s: string): (r: seq<Item>)
    ensures forall k :: 0 <= k < |r| ==> IsCircled(r[k].key)
    decreases |s|
  {
    if s == [] then []
    else match CircledAt(s)
      case Some(h) => [h.item] + CircledFindall(s[h.end..])
      case None => CircledFindall(s[1..])
  }

  /** The separator after a letter label, `[.．:：\t]`. */
  const LabelSeps := ".．:：\t"

  /** A letter label at the start of `v`: `[A-Za-z][.．:：\t]`. */
  predicate LabelStart(v: string) {
    |v| >= 2 && IsLetter(v[0]) && v[1] in LabelSeps
  }

  /** The two letter-label patterns of the single-line parser: the comma
      one, `(.+?)(?=\s*[,、]\s*[A-Za-z][.．:：\t]|$)`, and the spaced one,
      `([^A-Za-z]+?)(?=\s*[A-Za-z][.．:：\t]|$)`. */
  datatype Style = Comma | Spaced

  /** The value class: `.` for the comma pattern, `[^A-Za-z]` for the spaced
      one. */
  predicate ValueChar(st: Style, c: char) {
    match st
    case Comma => c != '\n'
    case Spaced => !IsLetter(c)
  }

  /** The lookahead after the value. */
  predicate LabelAhead(st: Style, v: string) {
    v == [] || v == "\n" ||
    match st
    case Comma =>
      var i := SpaceRun(v);
      i < |v| && v[i] in ",、" && LabelStart(v[i + 1..][SpaceRun(v[i + 1..])..])
    case Spaced => LabelStart(v[SpaceRun(v)..])
  }

  /** The `j`-th character of `u` may be part of a value. */
  predicate ValueAt(st: Style, u: string, j: nat)
    requires j < |u|
  {
    ValueChar(st, u[j])
  }

  /** The lookahead holds after the first `m` characters of `u`. */
  predicate EndsAt(st: Style, u: string, m: nat)
    requires m <= |u|
  {
    LabelAhead(st, u[m..])
  }

  /** A lazy `+?` followed by a lookahead, over the positions `m` to `n`:
      the first position where `ends` holds, as long as `ok` holds at each
      position passed. */
  function LazyEnd(ends: nat -> bool, ok: nat -> bool, n: nat, m: nat): (e: Option<nat>)
    requires m <= n
    ensures e.Some? ==> m <= e.value <= n && ends(e.value)
    ensures e.Some? ==> forall j :: m <= j < e.value ==> ok(j)
    decreases n - m
  {
    if ends(m) then Some(m)
    else if m < n && ok(m) then LazyEnd(ends, ok, n, m + 1)
    else None
  }

  /** The lookahead of style `st` after each prefix of `u`. */
  function Ahead(st: Style, u: string): nat -> bool {
    (k: nat) => k <= |u| && EndsAt(st, u, k)
  }

  /** The value class of style `st` at each position of `u`. */
  function InValue(st: Style, u: string): nat -> bool {
    (k: nat) => k < |u| && ValueAt(st, u, k)
  }

  /** The lazy value from its `m`-th character on, if it can end. */
  function LabelLazy(st: Style, u: string, m: nat): (e: Option<nat>)
    requires 1 <= m <= |u|
    ensures e.Some? ==> m <= e.value <= |u| && EndsAt(st, u, e.value)
  {
    LazyEnd(Ahead(st, u), InValue(st, u), |u|, m)
  }

  /** The greedy `\s*` before the value, giving back one character at a time
      from `k` down until the value can end: where the value starts and
      ends, within `v`. */
  function LabelTry(st: Style, v: string, k: nat): (r: Option<(nat, nat)>)
    requires k <= |v|
    ensures r.Some? ==> r.value.0 < r.value.1 <= |v|
    decreases k
  {
    var e := if k < |v| && ValueChar(st, v[k]) then LabelLazy(st, v[k..], 1) else None;
    if e.Some? then Some((k, k + e.value))
    else if k == 0 then None
    else LabelTry(st, v, k - 1)
  }

  /** A match of the letter-label pattern of style `st` at the start of `s`. */
  function LabelAt(st: Style, s: string): (h: Option<Hit>)
    ensures h.Some? ==> |s| >= 3 && LabelStart(s)
    ensures h.Some? ==> h.value.item.key == s[0] && 3 <= h.value.end <= |s|
  {
    if !LabelStart(s) then None
    else
      var v := s[2..];
      match LabelTry(st, v, SpaceRun(v))
      case None => None
      case Some((b, e)) => Some(Hit(Item(s[0], v[b..e]), 2 + e))
  }

  /** `re.findall` of the letter-label pattern of style `st`. */
  function LabelFindall(st: Style, s: string): (r: seq<Item>)
    ensures forall k :: 0 <= k < |r| ==> IsLetter(r[k].key)
    decreases |s|
  {
    if s == [] then []
    else match LabelAt(st, s)
      case Some(h) => [h.item] + LabelFindall(st, s[h.end..])
      case None => LabelFindall(st, s[1..])
  }

  /** Index of the first `c` in `s`, or `|s|` when there is none. */
  function FirstIndex(s: string, c: char): (i: nat)
    ensures i <= |s| && (i < |s| ==> s[i] == c)
    ensures forall j :: 0 <= j < i ==> s[j] != c
    decreases |s|
  {
    if s == [] || s[0] == c then 0 else 1 + FirstIndex(s[1..], c)
  }

  /** `x` is one bracket as `\([^)]*\)` matches it. */
  predicate Enclosed(x: string, op: char, cl: char) {
    |x| >= 2 && x[0] == op && x[|x| - 1] == cl && cl !in x[1..|x| - 1]
  }

  /** The length of a match of `\([^)]*\)` (or `（[^）]*）`) at the start of
      `s`: from the opening bracket to the first closing one. */
  function EnclosedLen(s: string, op: char, cl: char): (n: nat)
    ensures n <= |s|
    ensures n > 0 ==> Enclosed(s[..n], op, cl)
    ensures n == 0 <==> s == [] || s[0] != op || cl !in s[1..]
  {
    if s != [] && s[0] == op && FirstIndex(s[1..], cl) < |s| - 1 then
      var i := FirstIndex(s[1..], cl);
      assert s[..i + 2][1..i + 1] == s[1..][..i];
      i + 2
    else 0
  }

  /** `f'__BRACKET_{i}__'`. */
  function Placeholder(i: nat): (p: string)
    ensures |p| >= 5 && p[0] == '_'
  {
    "__BRACKET_" + NatToString(i) + "__"
  }

  /** The protected text and `bracket_contents`. */
  datatype Protection = Protection(text: string, saved: seq<string>)

  /** What is saved after one more bracket: the old list, then brackets. */
  lemma SavedAfter(saved: seq<string>, x: string, all: seq<string>, op: char, cl: char)
    requires |saved| + 1 <= |all| && all[..|saved| + 1] == saved + [x] && Enclosed(x, op, cl)
    requires forall k :: |saved| + 1 <= k < |all| ==> Enclosed(all[k], op, cl)
    ensures all[..|saved|] == saved
    ensures forall k :: |saved| <= k < |all| ==> Enclosed(all[k], op, cl)
  {
    assert all[..|saved| + 1][..|saved|] == all[..|saved|];
    assert all[|saved|] == all[..|saved| + 1][|saved|];
  }

  /** `re.sub` of a bracket pattern with the callback `protect_brackets`,
      `saved` being `bracket_contents` so far: every bracket is appended to
      the list and replaced by the placeholder of its index. */
  function ProtectPass(s: string, op: char, cl: char, saved: seq<string>): (r: Protection)
    ensures |saved| <= |r.saved| && r.saved[..|saved|] == saved
    ensures forall k :: |saved| <= k < |r.saved| ==> Enclosed(r.saved[k], op, cl)
    ensures s == [] <==> r.text == []
    ensures s != [] ==> r.text[0] == if EnclosedLen(s, op, cl) > 0 then '_' else s[0]
    decreases |s|
  {
    if s == [] then Protection([], saved)
    else
      var n := EnclosedLen(s, op, cl);
      if n > 0 then
        var rest := ProtectPass(s[n..], op, cl, saved + [s[..n]]);
        SavedAfter(saved, s[..n], rest.saved, op, cl);
        Protection(Placeholder(|saved|) + rest.text, rest.saved)
      else
        var rest := ProtectPass(s[1..], op, cl, saved);
        Protection([s[0]] + rest.text, rest.saved)
  }

  /** Both protecting substitutions, round brackets first. */
  function Protected(s: string): Protection {
    var p := ProtectPass(s, '(', ')', []);
    ProtectPass(p.text, '（', '）', p.saved)
  }

  /** The restore loop: placeholder `i` becomes `saved[i]`, in index order. */
  function Unprotected(v: string, saved: seq<string>): string
    decreases |saved|
  {
    if saved == [] then v
    else
      var i := |saved| - 1;
      ReplaceAll(Unprotected(v, saved[..i]), Placeholder(i), saved[i])
  }

  /** The inner loop of the spaced strategy. */
  method RestoreBrackets(value: string, saved: seq<string>) returns (restored: string)
    ensures restored == Unprotected(value, saved)
  {
    restored := value;
    for i := 0 to |saved|
      invariant restored == Unprotected(value, saved[..i])
    {
      assert saved[..i + 1][..i] == saved[..i];
      restored := ReplaceAll(restored, Placeholder(i), saved[i]);
    }
    assert saved[..|saved|] == saved;
  }

  /** A lone placeholder is given back its bracket. */
  lemma RestoreOne(x: string)
    ensures Unprotected(Placeholder(0), [x]) == x
  {
    assert [x][..0] == [];
    AtFront([], Placeholder(0), x);
    assert Placeholder(0) + [] == Placeholder(0);
  }

  /** No letter label with a character after it: nowhere `[A-Za-z][.．:：\t].`. */
  predicate NoLabelPair(s: string) {
    forall j :: 0 <= j < |s| - 2 ==> !(IsLetter(s[j]) && s[j + 1] in LabelSeps)
  }

  /** A placeholder holds no letter followed by a label separator, and does
      not end in a letter. */
  lemma PlaceholderSealed(i: nat)
    ensures forall j :: 0 <= j < |Placeholder(i)| && IsLetter(Placeholder(i)[j]) ==>
      j + 1 < |Placeholder(i)| && Placeholder(i)[j + 1] !in LabelSeps
  {
    var p := Placeholder(i);
    var d := NatToString(i);
    assert p == "__BRACKET_" + d + "__";
    assert forall j :: 10 <= j < 10 + |d| ==> p[j] == d[j - 10] && IsDigit(p[j]);
    assert forall j :: 0 <= j < 10 ==> p[j] == "__BRACKET_"[j];
    assert p[|p| - 1] == '_' && p[|p| - 2] == '_';
  }

  /** Without a newline, the comma pattern's value can always end. */
  lemma CommaLazyTotal(u: string, m: nat)
    requires '\n' !in u && 1 <= m <= |u|
    ensures LabelLazy(Comma, u, m).Some?
  {
    assert u[|u|..] == [];
    forall j | m <= j < |u| ensures InValue(Comma, u)(j) {
      assert u[j] in u;
    }
    LazyTotal(Ahead(Comma, u), InValue(Comma, u), |u|, m);
  }

  /** A lazy scan whose lookahead holds at the last position always ends. */
  lemma {:induction false} LazyTotal(ends: nat -> bool, ok: nat -> bool, n: nat, m: nat)
    requires m <= n && ends(n)
    requires forall j :: m <= j < n ==> ok(j)
    ensures LazyEnd(ends, ok, n, m).Some?
    decreases n - m
  {
    if m < n && !ends(m) {
      LazyTotal(ends, ok, n, m + 1);
    }
  }

  /** On a line, the comma pattern matches exactly where a letter label has
      at least one character after it. */
  lemma CommaMatchesLabel(s: string)
    requires '\n' !in s
    ensures LabelAt(Comma, s).Some? <==> |s| >= 3 && LabelStart(s)
  {
    if |s| >= 3 && LabelStart(s) {
      var v := s[2..];
      var k := SpaceRun(v);
      assert forall j :: 0 <= j < |v| ==> v[j] == s[j + 2] && v[j] != '\n';
      if k < |v| {
        assert forall j :: 0 <= j < |v| - k ==> v[k..][j] == v[k + j];
        CommaLazyTotal(v[k..], 1);
      } else {
        var w := v[k - 1..];
        assert |w| == 1 && w[0] == v[k - 1] && '\n' !in w;
        CommaLazyTotal(w, 1);
        assert LabelTry(Comma, v, k) == LabelTry(Comma, v, k - 1);
      }
    }
  }

  lemma NoLabelPairCons(s: string)
    requires s != [] && NoLabelPair(s[1..])
    requires |s| >= 3 ==> !LabelStart(s)
    ensures NoLabelPair(s)
  {
    forall j | 1 <= j < |s| - 2
      ensures !(IsLetter(s[j]) && s[j + 1] in LabelSeps)
    {
      assert s[1..][j - 1] == s[j] && s[1..][j] == s[j + 1];
    }
  }

  lemma NoLabelPairSuffix(s: string, n: nat)
    requires NoLabelPair(s) && n <= |s|
    ensures NoLabelPair(s[n..])
  {
    forall j | 0 <= j < |s[n..]| - 2
      ensures !(IsLetter(s[n..][j]) && s[n..][j + 1] in LabelSeps)
    {
      assert s[n..][j] == s[n + j] && s[n..][j + 1] == s[n + j + 1];
    }
  }

  /** When the comma strategy finds nothing on a line, that line holds no
      letter label with a character after it. */
  lemma {:induction false} CommaNoneNoLabel(s: string)
    requires '\n' !in s && LabelFindall(Comma, s) == []
    ensures NoLabelPair(s)
    decreases |s|
  {
    if s != [] {
      CommaMatchesLabel(s);
      assert s[1..] == s[1..] && forall j :: 0 <= j < |s| - 1 ==> s[1..][j] == s[j + 1];
      assert '\n' !in s[1..];
      CommaNoneNoLabel(s[1..]);
      NoLabelPairCons(s);
    }
  }

  /** A text with no letter label followed by a character gives the spaced
      strategy nothing. */
  lemma {:induction false} NoLabelSpacedNone(t: string)
    requires NoLabelPair(t)
    ensures LabelFindall(Spaced, t) == []
    decreases |t|
  {
    if t != [] {
      assert |t| >= 3 ==> !(IsLetter(t[0]) && t[1] in LabelSeps);
      NoLabelPairSuffix(t, 1);
      NoLabelSpacedNone(t[1..]);
    }
  }

  /** A placeholder in front of a text with no letter label keeps it so. */
  lemma SealedConcat(i: nat, y: string)
    requires NoLabelPair(y)
    ensures NoLabelPair(Placeholder(i) + y)
  {
    var x := Placeholder(i);
    PlaceholderSealed(i);
    forall j | 0 <= j < |x + y| - 2
      ensures !(IsLetter((x + y)[j]) && (x + y)[j + 1] in LabelSeps)
    {
      if j + 1 < |x| {
        assert (x + y)[j] == x[j] && (x + y)[j + 1] == x[j + 1];
      } else if j < |x| {
        assert (x + y)[j] == x[j];
      } else {
        assert (x + y)[j] == y[j - |x|] && (x + y)[j + 1] == y[j - |x| + 1];
      }
    }
  }

  /** A protecting substitution creates no letter label. */
  lemma {:induction false} ProtectKeepsNoLabel(s: string, op: char, cl: char, saved: seq<string>)
    requires NoLabelPair(s)
    ensures NoLabelPair(ProtectPass(s, op, cl, saved).text)
    decreases |s|
  {
    if s != [] {
      var n := EnclosedLen(s, op, cl);
      if n > 0 {
        NoLabelPairSuffix(s, n);
        ProtectKeepsNoLabel(s[n..], op, cl, saved + [s[..n]]);
        SealedConcat(|saved|, ProtectPass(s[n..], op, cl, saved + [s[..n]]).text);
      } else {
        var s1 := s[1..];
        NoLabelPairSuffix(s, 1);
        ProtectKeepsNoLabel(s1, op, cl, saved);
        var y := ProtectPass(s1, op, cl, saved).text;
        if |s| >= 2 {
          ConsKeepsNoLabel(s, op, cl, saved);
        }
        assert ProtectPass(s, op, cl, saved).text == [s[0]] + y;
        NoLabelPairCons([s[0]] + y);
      }
    }
  }

  /** The character kept in front cannot start a letter label: what follows
      it is its own successor in `s`, and a placeholder starts with `_`. */
  lemma ConsKeepsNoLabel(s: string, op: char, cl: char, saved: seq<string>)
    requires NoLabelPair(s) && |s| >= 2
    ensures var y := ProtectPass(s[1..], op, cl, saved).text;
      |y| >= 2 ==> !LabelStart([s[0]] + y)
  {
    var s1 := s[1..];
    var y := ProtectPass(s1, op, cl, saved).text;
    if |y| >= 2 && y[0] in LabelSeps {
      assert EnclosedLen(s1, op, cl) == 0 && y[0] == s[1];
      assert y == [s1[0]] + ProtectPass(s1[1..], op, cl, saved).text;
      assert s1[1..] != [];
      assert s[1] in LabelSeps;
      assert !IsLetter(s[0]);
    }
    assert ([s[0]] + y)[0] == s[0];
    assert |y| >= 1 ==> ([s[0]] + y)[1] == y[0];
  }

  /** The spaced strategy is reached only when the comma strategy found
      nothing, and then it finds nothing either: its branch of
      `format_answer` never produces entries. */
  lemma SpacedUnreachable(b: string)
    requires '\n' !in b && LabelFindall(Comma, b) == []
    ensures LabelFindall(Spaced, Protected(b).text) == []
  {
    CommaNoneNoLabel(b);
    var p := ProtectPass(b, '(', ')', []);
    ProtectKeepsNoLabel(b, '(', ')', []);
    ProtectKeepsNoLabel(p.text, '（', '）', p.saved);
    NoLabelSpacedNone(Protected(b).text);
  }

  /** A value with `strip()` and `rstrip(",、")` applied. */
  function Tidied(v: string): (r: string)
    ensures r == [] || r[|r| - 1] !in ",、"
  {
    var t := Strip(v);
    RStripChars(t, ",、")
  }

  /** An entry of the circled strategy. */
  function CircledEntry(it: Item): (e: string)
    requires IsCircled(it.key)
    ensures IsEntry(e)
  {
    MakeEntry(CircledLetter(it.key), Tidied(it.value))
  }

  /** An entry of the comma strategy. */
  function CommaEntry(it: Item): (e: string)
    requires IsLetter(it.key)
    ensures IsEntry(e)
  {
    MakeEntry(Upper(it.key), Tidied(it.value))
  }

  /** An entry of the spaced strategy, its brackets restored. */
  function SpacedEntry(it: Item, saved: seq<string>): (e: string)
    requires IsLetter(it.key)
    ensures IsEntry(e)
  {
    MakeEntry(Upper(it.key), Unprotected(Strip(it.value), saved))
  }

  /** One entry per tuple, in order, each made by `entry`. */
  function Entries(entry: Item --> string, items: seq<Item>): (parts: seq<string>)
    requires forall k :: 0 <= k < |items| ==> entry.requires(items[k])
    decreases |items|
  {
    if items == [] then []
    else Entries(entry, items[..|items| - 1]) + [entry(items[|items| - 1])]
  }

  /** The entries of the circled tuples, in order. */
  function CircledEntries(items: seq<Item>): (parts: seq<string>)
    requires forall k :: 0 <= k < |items| ==> IsCircled(items[k].key)
  {
    Entries(CircledEntry, items)
  }

  /** The entries of the comma tuples, in order. */
  function CommaEntries(items: seq<Item>): (parts: seq<string>)
    requires forall k :: 0 <= k < |items| ==> IsLetter(items[k].key)
  {
    Entries(CommaEntry, items)
  }

  /** The entries of the spaced tuples, in order. */
  function SpacedEntries(items: seq<Item>, saved: seq<string>): (parts: seq<string>)
    requires forall k :: 0 <= k < |items| ==> IsLetter(items[k].key)
  {
    Entries((it: Item) requires IsLetter(it.key) => SpacedEntry(it, saved), items)
  }

  /** `parts` after the single-line strategies: the first one that finds
      anything supplies all the entries. */
  function SingleLineEntries(b: string): (parts: seq<string>)
  {
    var circled := CircledFindall(b);
    if circled != [] then CircledEntries(circled)
    else
      var comma := LabelFindall(Comma, b);
      if comma != [] then CommaEntries(comma)
      else
        var p := Protected(b);
        SpacedEntries(LabelFindall(Spaced, p.text), p.saved)
  }

  /** The loop over the circled tuples. */
  method CircledParts(items: seq<Item>) returns (parts: seq<string>)
    requires forall k :: 0 <= k < |items| ==> IsCircled(items[k].key)
    ensures parts == CircledEntries(items)
  {
    parts := [];
    for i := 0 to |items|
      invariant parts == CircledEntries(items[..i])
    {
      assert items[..i + 1][..i] == items[..i];
      parts := parts + [CircledEntry(items[i])];
    }
    assert items[..|items|] == items;
  }

  /** The loop over the comma tuples. */
  method CommaParts(items: seq<Item>) returns (parts: seq<string>)
    requires forall k :: 0 <= k < |items| ==> IsLetter(items[k].key)
    ensures parts == CommaEntries(items)
  {
    parts := [];
    for i := 0 to |items|
      invariant parts == CommaEntries(items[..i])
    {
      assert items[..i + 1][..i] == items[..i];
      parts := parts + [CommaEntry(items[i])];
    }
    assert items[..|items|] == items;
  }

  /** The loop over the spaced tuples, restoring the brackets of each. */
  method SpacedParts(items: seq<Item>, saved: seq<string>) returns (parts: seq<string>)
    requires forall k :: 0 <= k < |items| ==> IsLetter(items[k].key)
    ensures parts == SpacedEntries(items, saved)
  {
    parts := [];
    for i := 0 to |items|
      invariant parts == SpacedEntries(items[..i], saved)
    {
      assert items[..i + 1][..i] == items[..i];
      var restored := RestoreBrackets(Strip(items[i].value), saved);
      parts := parts + [MakeEntry(Upper(items[i].key), restored)];
    }
    assert items[..|items|] == items;
  }

  /** The single-line branch of `format_answer`. */
  method SingleLineParts(b: string) returns (parts: seq<string>)
    ensures parts == SingleLineEntries(b)
  {
    var circled := CircledFindall(b);
    if circled != [] {
      parts := CircledParts(circled);
    } else {
      var comma := LabelFindall(Comma, b);
      if comma != [] {
        parts := CommaParts(comma);
      } else {
        var p := Protected(b);
        parts := SpacedParts(LabelFindall(Spaced, p.text), p.saved);
      }
    }
  }

  /** `parts` for an answer with the label removed: the multi-line parser
      when it has several lines, the single-line strategies otherwise. */
  function AnswerParts(b: string): (parts: seq<string>)
  {
    var lines := Split(Strip(b), '\n');
    if |lines| >= 2 then LineEntries(lines)
    else SingleLineEntries(b)
  }

  /** `f'正解：{x}'`. */
  function Prefixed(x: string): (r: string)
    ensures |r| == 3 + |x| && r[..3] == Prefix && r[3..] == x
  {
    Prefix + x
  }

  /** The answer for several blanks, its label already removed. */
  function Relabelled(b: string): (r: string)
    ensures |r| >= 3 && r[..3] == Prefix
  {
    var parts := AnswerParts(b);
    if parts != [] then Prefixed(Join(parts, Gap)) else Prefixed(b)
  }

  /** The branch of `format_answer` for several blanks. */
  method Relabel(b: string) returns (r: string)
    ensures r == Relabelled(b)
  {
    var lines := Split(Strip(b), '\n');
    var parts;
    if |lines| >= 2 {
      parts := ParseLines(lines);
    } else {
      parts := SingleLineParts(b);
    }
    r := if parts != [] then Prefixed(Join(parts, Gap)) else Prefixed(b);
  }

  /** `format_answer(answer, blank_count)`. */
  function FormattedAnswer(answer: string, count: nat): (r: string)
    ensures |r| >= 3 && r[..3] == Prefix
  {
    var a := Strip(answer);
    PrefixWhole();
    if count == 0 then (if a != [] then Prefixed(a) else Prefix)
    else
      var b := StripAnswerPrefix(a);
      if count == 1 then Prefixed(b) else Relabelled(b)
  }

  /** The prefix is three characters long. */
  lemma PrefixWhole()
    ensures |Prefix| == 3 && Prefix[..3] == Prefix
  {
  }

  /** Without blanks the answer is only stripped and prefixed, also when it
      is empty. */
  lemma NoBlankAnswer(answer: string)
    ensures FormattedAnswer(answer, 0) == Prefix + Strip(answer)
  {
    assert Prefix + [] == Prefix;
  }

  /** `format_answer`. */
  method FormatAnswer(answer: string, count: nat) returns (r: string)
    ensures r == FormattedAnswer(answer, count)
  {
    var a := Strip(answer);
    if count == 0 {
      r := if a != [] then Prefixed(a) else Prefix;
    } else {
      var b := StripAnswerPrefix(a);
      if count == 1 {
        r := Prefixed(b);
      } else {
        r := Relabel(b);
      }
    }
  }

  /** Removing the label of a trimmed answer leaves it trimmed. */
  lemma UnlabelledTrimmed(a: string)
    requires Trimmed(a)
    ensures Trimmed(StripAnswerPrefix(a))
  {
    var b := StripAnswerPrefix(a);
    assert b != [] ==> b[|b| - 1] == a[|a| - 1];
  }

  /** A trimmed answer with its prefix is still trimmed. */
  lemma PrefixedTrimmed(b: string)
    requires Trimmed(b)
    ensures Strip(Prefixed(b)) == Prefixed(b)
  {
    var y := Prefixed(b);
    assert y[0] == '正' && y[2] == '：';
    assert b != [] ==> y[|y| - 1] == b[|b| - 1];
    TrimmedStrip(y);
  }

  /** The prefix is exactly what the label removal takes off again. */
  lemma PrefixRemoved(b: string)
    requires b == [] || !IsSpace(b[0])
    ensures StripAnswerPrefix(Prefixed(b)) == b
  {
    var y := Prefixed(b);
    assert y[0] == '正' && y[1] == '解' && y[2] == '：';
    assert y[3..] == b;
    assert SpaceRun(b) == 0;
  }

  /** With one blank, formatting an already formatted answer changes
      nothing: the label it carries is removed and put back. */
  lemma SingleBlankIdempotent(answer: string)
    ensures FormattedAnswer(FormattedAnswer(answer, 1), 1) == FormattedAnswer(answer, 1)
  {
    var b := StripAnswerPrefix(Strip(answer));
    var y := Prefixed(b);
    OneBlank(answer);
    OneBlank(y);
    OneBlankFixed(answer);
  }

  /** Re-reading a one-blank answer gives back its stripped value. */
  lemma OneBlankFixed(answer: string)
    ensures StripAnswerPrefix(Strip(Prefixed(StripAnswerPrefix(Strip(answer)))))
      == StripAnswerPrefix(Strip(answer))
  {
    var a := Strip(answer);
    assert Trimmed(a);
    UnlabelledTrimmed(a);
    var b := StripAnswerPrefix(a);
    assert b == [] || !IsSpace(b[0]);
    PrefixedTrimmed(b);
    PrefixRemoved(b);
  }

  lemma OneBlank(answer: string)
    ensures FormattedAnswer(answer, 1) == Prefixed(StripAnswerPrefix(Strip(answer)))
  {
  }

  /** Each fold gives one entry per tuple, in order. */
  lemma {:induction false} EntriesAt(entry: Item --> string, items: seq<Item>)
    requires forall k :: 0 <= k < |items| ==> entry.requires(items[k])
    ensures |Entries(entry, items)| == |items|
    ensures forall k :: 0 <= k < |items| ==> Entries(entry, items)[k] == entry(items[k])
    decreases |items|
  {
    if items != [] {
      EntriesAt(entry, items[..|items| - 1]);
    }
  }

  lemma CircledEntriesAt(items: seq<Item>)
    requires forall k :: 0 <= k < |items| ==> IsCircled(items[k].key)
    ensures |CircledEntries(items)| == |items|
    ensures forall k :: 0 <= k < |items| ==> CircledEntries(items)[k] == CircledEntry(items[k])
  {
    EntriesAt(CircledEntry, items);
  }

  lemma CommaEntriesAt(items: seq<Item>)
    requires forall k :: 0 <= k < |items| ==> IsLetter(items[k].key)
    ensures |CommaEntries(items)| == |items|
    ensures forall k :: 0 <= k < |items| ==> CommaEntries(items)[k] == CommaEntry(items[k])
  {
    EntriesAt(CommaEntry, items);
  }

  lemma SpacedEntriesAt(items: seq<Item>, saved: seq<string>)
    requires forall k :: 0 <= k < |items| ==> IsLetter(items[k].key)
    ensures |SpacedEntries(items, saved)| == |items|
    ensures forall k :: 0 <= k < |items| ==> SpacedEntries(items, saved)[k] == SpacedEntry(items[k], saved)
  {
    EntriesAt((it: Item) requires IsLetter(it.key) => SpacedEntry(it, saved), items);
  }

  lemma SingleLineLabelled(b: string)
    ensures forall k :: 0 <= k < |SingleLineEntries(b)| ==> IsEntry(SingleLineEntries(b)[k])
  {
    var circled := CircledFindall(b);
    if circled != [] {
      CircledEntriesAt(circled);
    } else {
      var comma := LabelFindall(Comma, b);
      if comma != [] {
        CommaEntriesAt(comma);
      } else {
        var p := Protected(b);
        SpacedEntriesAt(LabelFindall(Spaced, p.text), p.saved);
      }
    }
  }

  /** With several blanks every entry, whatever strategy made it, is an
      upper-case letter, a dot, a space and the value. */
  lemma AnswerPartsLabelled(b: string)
    ensures forall k :: 0 <= k < |AnswerParts(b)| ==> IsEntry(AnswerParts(b)[k])
  {
    var lines := Split(Strip(b), '\n');
    if |lines| >= 2 {
      LineEntriesLabelled(lines);
    } else {
      SingleLineLabelled(b);
    }
  }

  /** The lazy circled value ends at the first place where the lookahead
      holds. */
  lemma {:induction false} CircledLazyStops(u: string, m: nat, e: nat)
    requires 1 <= m <= e <= |u|
    requires forall j :: 0 <= j < e ==> !IsCircled(u[j])
    requires forall j :: m <= j < e ==> !CircledAhead(u[j..])
    requires CircledAhead(u[e..])
    ensures CircledLazy(u, m) == e
    decreases e - m
  {
    if m < e {
      CircledLazyStops(u, m + 1, e);
    }
  }

  /** A value the circled strategy reads back whole: no whitespace, no
      circled number, no separator in front, no `,` or `、` at the end. */
  predicate CircledWord(v: string) {
    v != [] && v[0] !in ".:：" && v[|v| - 1] !in ",、" &&
    forall j :: 0 <= j < |v| ==> !IsSpace(v[j]) && !IsCircled(v[j])
  }

  predicate CircledItems(items: seq<Item>) {
    forall k :: 0 <= k < |items| ==> IsCircled(items[k].key) && CircledWord(items[k].value)
  }

  /** The items written out as `①v1 ②v2 …`. */
  function CircledText(items: seq<Item>): string
    decreases |items|
  {
    if items == [] then []
    else if |items| == 1 then [items[0].key] + items[0].value
    else [items[0].key] + items[0].value + " " + CircledText(items[1..])
  }

  /** Inside a circled word the lookahead never holds; after it, it does. */
  lemma CircledWordEnds(v: string, rest: string)
    requires CircledWord(v)
    requires rest == [] || (|rest| >= 2 && rest[0] == ' ' && IsCircled(rest[1]))
    ensures forall j :: 0 <= j < |v| ==> !IsCircled((v + rest)[j])
    ensures forall j :: 1 <= j < |v| ==> !CircledAhead((v + rest)[j..])
    ensures CircledAhead((v + rest)[|v|..])
  {
    var u := v + rest;
    forall j | 1 <= j < |v|
      ensures !CircledAhead(u[j..])
    {
      assert u[j..][0] == v[j];
      assert SpaceRun(u[j..]) == 0;
    }
    assert u[|v|..] == rest;
    if rest != [] {
      assert rest == " " + rest[1..];
      SepRunOver(" ", rest[1..], "");
    }
  }

  /** One written-out item is one match. */
  lemma CircledAtItem(c: char, v: string, rest: string)
    requires IsCircled(c) && CircledWord(v)
    requires rest == [] || (|rest| >= 2 && rest[0] == ' ' && IsCircled(rest[1]))
    ensures CircledAt([c] + v + rest) == Some(Hit(Item(c, v), 1 + |v|))
  {
    var s := [c] + v + rest;
    var t := v + rest;
    assert s[1..] == t && s[0] == c;
    CircledWordScan(v, rest);
    assert t[..|v|] == v;
    CircledAtShape(s, t, |v|);
  }

  /** After a circled number, no separator is read and the value is the
      whole word. */
  lemma CircledWordScan(v: string, rest: string)
    requires CircledWord(v)
    requires rest == [] || (|rest| >= 2 && rest[0] == ' ' && IsCircled(rest[1]))
    ensures !IsCircled((v + rest)[0])
    ensures SepRun(v + rest, ".:：") == 0 && CircledLazy(v + rest, 1) == |v|
  {
    var t := v + rest;
    SepRunOver([], t, ".:：");
    assert [] + t == t;
    CircledWordEnds(v, rest);
    CircledLazyStops(t, 1, |v|);
  }

  /** A circled number, no separator, then a value that ends at `e`. */
  lemma CircledAtShape(s: string, t: string, e: nat)
    requires |s| >= 2 && IsCircled(s[0]) && s[1..] == t && !IsCircled(t[0])
    requires SepRun(t, ".:：") == 0 && CircledLazy(t, 1) == e
    ensures CircledAt(s) == Some(Hit(Item(s[0], t[..e]), 1 + e))
  {
    assert t[0..] == t;
  }

  lemma CircledTextStart(items: seq<Item>)
    requires CircledItems(items) && items != []
    ensures |CircledText(items)| >= 2 && CircledText(items)[0] == items[0].key
  {
  }

  /** The circled strategy reads the written-out items back. */
  lemma {:induction false} CircledRoundTrip(items: seq<Item>)
    requires CircledItems(items)
    ensures CircledFindall(CircledText(items)) == items
    decreases |items|
  {
    if items != [] {
      CircledStep(items);
      CircledFindallHit(CircledText(items), Hit(items[0], 1 + |items[0].value|), CircledTail(items));
      if |items| > 1 {
        CircledRoundTrip(items[1..]);
      }
      CircledRest(items);
    }
  }

  /** The tuples found after the first circled item are the other items. */
  lemma CircledRest(items: seq<Item>)
    requires items != []
    requires |items| > 1 ==> CircledFindall(CircledText(items[1..])) == items[1..]
    ensures [items[0]] + CircledFindall(CircledTail(items)) == items
  {
    if |items| > 1 {
      CircledSkipSpace(CircledText(items[1..]));
    }
    assert [items[0]] + items[1..] == items;
  }

  /** What follows the first written-out circled item. */
  function CircledTail(items: seq<Item>): string
    requires items != []
  {
    if |items| == 1 then [] else " " + CircledText(items[1..])
  }

  /** The first circled item is read back whole, and the scan goes on after
      it. */
  lemma CircledStep(items: seq<Item>)
    requires CircledItems(items) && items != []
    ensures var s := CircledText(items); var e := 1 + |items[0].value|;
      CircledAt(s) == Some(Hit(items[0], e)) && e <= |s| && s[e..] == CircledTail(items)
  {
    var c := items[0].key;
    var v := items[0].value;
    var rest := CircledTail(items);
    var s := [c] + v + rest;
    assert CircledText(items) == s;
    if |items| > 1 {
      CircledTextStart(items[1..]);
      assert rest[1] == CircledText(items[1..])[0];
    }
    CircledAtItem(c, v, rest);
    assert s[1 + |v|..] == rest;
  }

  /** A match at the start of the text is the first circled tuple found. */
  lemma CircledFindallHit(s: string, h: Hit, t: string)
    requires s != [] && CircledAt(s) == Some(h) && h.end <= |s| && s[h.end..] == t
    ensures CircledFindall(s) == [h.item] + CircledFindall(t)
  {
  }

  /** A space is skipped by the circled scan. */
  lemma CircledSkipSpace(t: string)
    ensures CircledFindall(" " + t) == CircledFindall(t)
  {
    assert (" " + t)[1..] == t;
  }

  /** A written-out answer holds no newline and no whitespace at its ends. */
  lemma {:induction false} CircledTextShape(items: seq<Item>)
    requires CircledItems(items) && items != []
    ensures '\n' !in CircledText(items)
    ensures !IsSpace(CircledText(items)[|CircledText(items)| - 1])
    decreases |items|
  {
    var v := items[0].value;
    var head := [items[0].key] + v;
    assert '\n' !in v by {
      assert forall j :: 0 <= j < |v| ==> v[j] != '\n';
    }
    if |items| > 1 {
      CircledTextShape(items[1..]);
      var t := CircledText(items[1..]);
      assert CircledText(items) == head + " " + t;
    } else {
      assert CircledText(items) == head;
    }
  }

  /** A value with nothing to strip is kept as it is. */
  lemma TidiedWord(v: string)
    requires v != [] && v[|v| - 1] !in ",、"
    requires forall j :: 0 <= j < |v| ==> !IsSpace(v[j])
    ensures Tidied(v) == v
  {
    TrimmedStrip(v);
  }

  /** A one-line answer that needs no stripping and carries no label reaches
      the single-line strategies unchanged. */
  lemma OneLineAnswer(s: string, count: nat)
    requires s != [] && Trimmed(s) && '\n' !in s && s[0] != '正' && count >= 2
    ensures FormattedAnswer(s, count) == Relabelled(s)
    ensures AnswerParts(s) == SingleLineEntries(s)
  {
    TrimmedStrip(s);
    assert StripAnswerPrefix(s) == s;
    assert |Split(s, '\n')| == 1;
  }

  lemma RelabelledParts(s: string)
    requires AnswerParts(s) != []
    ensures Relabelled(s) == Prefixed(Join(AnswerParts(s), Gap))
  {
  }

  lemma CircledSingleLine(items: seq<Item>)
    requires CircledItems(items) && items != []
    ensures SingleLineEntries(CircledText(items)) == CircledEntries(items)
  {
    CircledRoundTrip(items);
  }

  lemma CircledWords(items: seq<Item>)
    requires CircledItems(items)
    ensures |CircledEntries(items)| == |items|
    ensures forall k :: 0 <= k < |items| ==>
      CircledEntries(items)[k] == MakeEntry(CircledLetter(items[k].key), items[k].value)
  {
    CircledEntriesAt(items);
    forall k | 0 <= k < |items|
      ensures Tidied(items[k].value) == items[k].value
    {
      TidiedWord(items[k].value);
    }
  }

  /** Several blanks and a non-empty list of parts: the parts joined. */
  lemma PartsAnswer(s: string, count: nat, parts: seq<string>)
    requires FormattedAnswer(s, count) == Relabelled(s) && AnswerParts(s) == parts && parts != []
    ensures FormattedAnswer(s, count) == Prefixed(Join(parts, Gap))
  {
    RelabelledParts(s);
  }

  /** `①v1 ②v2 …` with several blanks becomes `正解：A. v1　　B. v2 …`. */
  lemma CircledAnswer(items: seq<Item>, count: nat)
    requires CircledItems(items) && items != [] && count >= 2
    ensures FormattedAnswer(CircledText(items), count) == Prefixed(Join(CircledEntries(items), Gap))
    ensures |CircledEntries(items)| == |items|
    ensures forall k :: 0 <= k < |items| ==>
      CircledEntries(items)[k] == MakeEntry(CircledLetter(items[k].key), items[k].value)
  {
    CircledRelabelled(items, count);
    CircledWords(items);
    PartsAnswer(CircledText(items), count, CircledEntries(items));
  }

  lemma CircledRelabelled(items: seq<Item>, count: nat)
    requires CircledItems(items) && items != [] && count >= 2
    ensures FormattedAnswer(CircledText(items), count) == Relabelled(CircledText(items))
    ensures AnswerParts(CircledText(items)) == CircledEntries(items)
  {
    var s := CircledText(items);
    CircledTextStart(items);
    CircledTextShape(items);
    OneLineAnswer(s, count);
    CircledSingleLine(items);
  }

  lemma CircledPairText(c1: char, v1: string, c2: char, v2: string)
    ensures CircledText([Item(c1, v1), Item(c2, v2)]) == [c1] + v1 + " " + [c2] + v2
  {
    assert [Item(c1, v1), Item(c2, v2)][1..] == [Item(c2, v2)];
  }

  lemma CircledPairEntries(c1: char, v1: string, c2: char, v2: string)
    requires IsCircled(c1) && CircledWord(v1) && IsCircled(c2) && CircledWord(v2)
    ensures CircledEntries([Item(c1, v1), Item(c2, v2)])
      == [MakeEntry(CircledLetter(c1), v1), MakeEntry(CircledLetter(c2), v2)]
  {
    CircledEntriesPair(Item(c1, v1), Item(c2, v2));
    TidiedWord(v1);
    TidiedWord(v2);
  }

  /** The first item of a pair, alone. */
  lemma PairFront(a: Item, b: Item)
    ensures [a, b][..1] == [a] && [a, b][1] == b && [a][..0] == [] && [a][0] == a
  {
  }

  /** A fold over two tuples. */
  lemma EntriesPair(entry: Item --> string, a: Item, b: Item)
    requires entry.requires(a) && entry.requires(b)
    ensures Entries(entry, [a, b]) == [entry(a), entry(b)]
  {
    PairFront(a, b);
    EntriesOne(entry, a);
  }

  /** A fold over one tuple. */
  lemma EntriesOne(entry: Item --> string, a: Item)
    requires entry.requires(a)
    ensures Entries(entry, [a]) == [entry(a)]
  {
    assert [a][..0] == [];
  }

  lemma CircledEntriesPair(a: Item, b: Item)
    requires IsCircled(a.key) && IsCircled(b.key)
    ensures CircledEntries([a, b]) == [CircledEntry(a), CircledEntry(b)]
  {
    EntriesPair(CircledEntry, a, b);
  }

  lemma JoinPair(x: string, y: string)
    ensures Prefixed(Join([x, y], Gap)) == Prefix + x + Gap + y
  {
    assert [x, y][1..] == [y];
    Regroup(Prefix, x, Gap, y);
  }

  /** Two circled items, the shape of the example below. */
  lemma CircledPair(c1: char, v1: string, c2: char, v2: string)
    requires IsCircled(c1) && CircledWord(v1) && IsCircled(c2) && CircledWord(v2)
    ensures FormattedAnswer([c1] + v1 + " " + [c2] + v2, 2)
      == Prefix + MakeEntry(CircledLetter(c1), v1) + Gap + MakeEntry(CircledLetter(c2), v2)
  {
    var items := [Item(c1, v1), Item(c2, v2)];
    CircledAnswer(items, 2);
    CircledPairText(c1, v1, c2, v2);
    CircledPairEntries(c1, v1, c2, v2);
    JoinPair(MakeEntry(CircledLetter(c1), v1), MakeEntry(CircledLetter(c2), v2));
  }

  lemma Regroup(p: string, x: string, g: string, y: string)
    ensures p + (x + g + y) == p + x + g + y
  {
  }

  /** `①赤血球 ②白血球` → `正解：A. 赤血球　　B. 白血球`. */
  lemma CircledExample(s: string)
    requires s == "①赤血球 ②白血球"
    ensures FormattedAnswer(s, 2) == "正解：A. 赤血球　　B. 白血球"
  {
    var v1, v2 := "赤血球", "白血球";
    assert FormattedAnswer(s, 2) == Prefix + MakeEntry('A', v1) + Gap + MakeEntry('B', v2) by {
      assert s == ['①'] + v1 + " " + ['②'] + v2;
      assert CircledWord(v1) && CircledWord(v2);
      CircledPair('①', v1, '②', v2);
      assert CircledLetter('①') == 'A' && CircledLetter('②') == 'B';
    }
    ExampleText('A', v1, 'B', v2);
  }

  lemma ExampleText(l1: char, v1: string, l2: char, v2: string)
    requires l1 == 'A' && v1 == "赤血球" && l2 == 'B' && v2 == "白血球"
    ensures Prefix + MakeEntry(l1, v1) + Gap + MakeEntry(l2, v2) == "正解：A. 赤血球　　B. 白血球"
  {
  }

  /** The lazy letter-label value ends at the first place where the
      lookahead holds. */
  lemma LabelLazyStops(st: Style, u: string, m: nat, e: nat)
    requires 1 <= m <= e <= |u|
    requires forall j :: m <= j < e ==> ValueAt(st, u, j)
    requires forall j :: m <= j < e ==> !EndsAt(st, u, j)
    requires EndsAt(st, u, e)
    ensures LabelLazy(st, u, m) == Some(e)
  {
    LazyStops(Ahead(st, u), InValue(st, u), |u|, m, e);
  }

  /** A lazy scan stops at the first position where the lookahead holds. */
  lemma {:induction false} LazyStops(ends: nat -> bool, ok: nat -> bool, n: nat, m: nat, e: nat)
    requires m <= e <= n && ends(e)
    requires forall j :: m <= j < e ==> ok(j) && !ends(j)
    ensures LazyEnd(ends, ok, n, m) == Some(e)
    decreases e - m
  {
    if m < e {
      LazyStops(ends, ok, n, m + 1, e);
    }
  }

  /** A value the comma strategy reads back whole: no whitespace, no `,` or
      `、` and no circled number. */
  predicate CommaWord(v: string) {
    v != [] && forall j :: 0 <= j < |v| ==> !IsSpace(v[j]) && v[j] !in ",、" && !IsCircled(v[j])
  }

  predicate CommaItems(items: seq<Item>) {
    forall k :: 0 <= k < |items| ==> IsLetter(items[k].key) && CommaWord(items[k].value)
  }

  /** The items written out as `A. v1, B. v2, …`. */
  function CommaText(items: seq<Item>): string
    decreases |items|
  {
    if items == [] then []
    else if |items| == 1 then [items[0].key] + ". " + items[0].value
    else [items[0].key] + ". " + items[0].value + ", " + CommaText(items[1..])
  }

  /** What may follow a comma value: the end, or `, ` and the next label. */
  predicate CommaRest(rest: string) {
    rest == [] || (|rest| >= 4 && rest[0] == ',' && rest[1] == ' ' && LabelStart(rest[2..]))
  }

  /** The comma lookahead holds at `, ` followed by a label. */
  lemma CommaRestAhead(rest: string)
    requires CommaRest(rest)
    ensures LabelAhead(Comma, rest)
  {
    if rest != [] {
      var t := rest[2..];
      assert SpaceRun(rest) == 0;
      assert rest[1..] == " " + t;
      SepRunOver(" ", t, "");
      assert SpaceRun(t) == 0;
    }
  }

  /** Inside a comma word the lookahead never holds; after it, it does. */
  lemma CommaWordEnds(v: string, rest: string)
    requires CommaWord(v) && CommaRest(rest)
    ensures forall j :: 0 <= j < |v| ==> ValueAt(Comma, v + rest, j)
    ensures forall j :: 1 <= j < |v| ==> !EndsAt(Comma, v + rest, j)
    ensures EndsAt(Comma, v + rest, |v|)
  {
    var u := v + rest;
    forall j | 1 <= j < |v|
      ensures !EndsAt(Comma, u, j)
    {
      assert u[j..][0] == v[j];
      assert SpaceRun(u[j..]) == 0;
    }
    assert u[|v|..] == rest;
    CommaRestAhead(rest);
  }

  /** After a single space the value is the whole comma word. */
  lemma CommaTry(v: string, rest: string)
    requires CommaWord(v) && CommaRest(rest)
    ensures LabelTry(Comma, " " + (v + rest), 1) == Some((1 as nat, (1 + |v|) as nat))
  {
    var w := " " + (v + rest);
    assert w[1..] == v + rest && w[1] == v[0];
    CommaWordScan(v, rest);
    LabelTryAt(Comma, w, 1, |v|);
  }

  /** The comma value of a comma word is the whole word. */
  lemma CommaWordScan(v: string, rest: string)
    requires CommaWord(v) && CommaRest(rest)
    ensures LabelLazy(Comma, v + rest, 1) == Some(|v|)
  {
    CommaWordEnds(v, rest);
    LabelLazyStops(Comma, v + rest, 1, |v|);
  }

  /** A value that starts at `k` and ends `e` characters on. */
  lemma LabelTryAt(st: Style, w: string, k: nat, e: nat)
    requires k < |w| && ValueChar(st, w[k]) && LabelLazy(st, w[k..], 1) == Some(e)
    ensures LabelTry(st, w, k) == Some((k, k + e))
  {
  }

  /** One written-out comma item is one match. */
  lemma CommaAtItem(l: char, v: string, rest: string)
    requires IsLetter(l) && CommaWord(v) && CommaRest(rest)
    ensures LabelAt(Comma, [l] + ". " + v + rest) == Some(Hit(Item(l, v), 3 + |v|))
  {
    var s := [l] + ". " + v + rest;
    var w := " " + (v + rest);
    assert s[2..] == w;
    assert LabelStart(s);
    assert SpaceRun(w) == 1 by {
      SepRunOver(" ", v + rest, "");
    }
    CommaTry(v, rest);
    assert w[1..1 + |v|] == v;
  }

  /** The separator `, ` between two items is passed over. */
  lemma CommaSkipped(t: string)
    ensures LabelFindall(Comma, ", " + t) == LabelFindall(Comma, t)
  {
    assert (", " + t)[1..] == " " + t;
    assert (" " + t)[1..] == t;
  }

  lemma CommaTextStart(items: seq<Item>)
    requires CommaItems(items) && items != []
    ensures |CommaText(items)| >= 3 && LabelStart(CommaText(items))
  {
  }

  /** The comma strategy reads the written-out items back. */
  lemma {:induction false} CommaRoundTrip(items: seq<Item>)
    requires CommaItems(items)
    ensures LabelFindall(Comma, CommaText(items)) == items
    decreases |items|
  {
    if items != [] {
      var s := CommaText(items);
      var rest := CommaTail(items);
      CommaStep(items);
      FindallHit(Comma, s, Hit(items[0], 3 + |items[0].value|), rest);
      if |items| > 1 {
        CommaRoundTrip(items[1..]);
        CommaSkipped(CommaText(items[1..]));
        assert [items[0]] + items[1..] == items;
      }
    }
  }

  /** What follows the first written-out comma item. */
  function CommaTail(items: seq<Item>): string
    requires items != []
  {
    if |items| == 1 then [] else ", " + CommaText(items[1..])
  }

  /** The first comma item is read back whole, and the scan goes on after
      it. */
  lemma CommaStep(items: seq<Item>)
    requires CommaItems(items) && items != []
    ensures var s := CommaText(items); var e := 3 + |items[0].value|;
      LabelAt(Comma, s) == Some(Hit(items[0], e)) && e <= |s| && s[e..] == CommaTail(items)
  {
    var l := items[0].key;
    var v := items[0].value;
    var rest := CommaTail(items);
    var s := [l] + ". " + v + rest;
    assert CommaText(items) == s;
    if |items| > 1 {
      CommaTextStart(items[1..]);
      assert rest[2..] == CommaText(items[1..]);
    }
    CommaAtItem(l, v, rest);
    assert s[3 + |v|..] == rest;
  }

  /** A match at the start of the text is the first tuple found. */
  lemma FindallHit(st: Style, s: string, h: Hit, t: string)
    requires s != [] && LabelAt(st, s) == Some(h) && h.end <= |s| && s[h.end..] == t
    ensures LabelFindall(st, s) == [h.item] + LabelFindall(st, t)
  {
  }

  /** No circled number in the text: the circled strategy finds nothing. */
  lemma {:induction false} NoCircledFindall(s: string)
    requires forall j :: 0 <= j < |s| ==> !IsCircled(s[j])
    ensures CircledFindall(s) == []
    decreases |s|
  {
    if s != [] {
      NoCircledFindall(s[1..]);
    }
  }

  /** A written-out comma answer holds no circled number and no newline and
      ends in a non-space. */
  lemma {:induction false} CommaTextShape(items: seq<Item>)
    requires CommaItems(items) && items != []
    ensures forall j :: 0 <= j < |CommaText(items)| ==> !IsCircled(CommaText(items)[j])
    ensures '\n' !in CommaText(items)
    ensures !IsSpace(CommaText(items)[|CommaText(items)| - 1])
    decreases |items|
  {
    var v := items[0].value;
    var head := [items[0].key] + ". " + v;
    assert forall j :: 0 <= j < |head| ==> !IsCircled(head[j]) && head[j] != '\n';
    if |items| > 1 {
      CommaTextShape(items[1..]);
      var t := CommaText(items[1..]);
      assert CommaText(items) == head + ", " + t;
    } else {
      assert CommaText(items) == head;
    }
  }

  lemma CommaSingleLine(items: seq<Item>)
    requires CommaItems(items) && items != []
    ensures SingleLineEntries(CommaText(items)) == CommaEntries(items)
  {
    CommaTextShape(items);
    NoCircledFindall(CommaText(items));
    CommaRoundTrip(items);
  }

  lemma CommaWords(items: seq<Item>)
    requires CommaItems(items)
    ensures |CommaEntries(items)| == |items|
    ensures forall k :: 0 <= k < |items| ==>
      CommaEntries(items)[k] == MakeEntry(Upper(items[k].key), items[k].value)
  {
    CommaEntriesAt(items);
    forall k | 0 <= k < |items|
      ensures Tidied(items[k].value) == items[k].value
    {
      TidiedWord(items[k].value);
    }
  }

  /** `A. v1, B. v2, …` with several blanks becomes `正解：A. v1　　B. v2 …`,
      lower-case labels upper-cased. */
  lemma CommaAnswer(items: seq<Item>, count: nat)
    requires CommaItems(items) && items != [] && count >= 2
    ensures FormattedAnswer(CommaText(items), count) == Prefixed(Join(CommaEntries(items), Gap))
    ensures |CommaEntries(items)| == |items|
    ensures forall k :: 0 <= k < |items| ==>
      CommaEntries(items)[k] == MakeEntry(Upper(items[k].key), items[k].value)
  {
    CommaRelabelled(items, count);
    CommaWords(items);
    PartsAnswer(CommaText(items), count, CommaEntries(items));
  }

  lemma CommaRelabelled(items: seq<Item>, count: nat)
    requires CommaItems(items) && items != [] && count >= 2
    ensures FormattedAnswer(CommaText(items), count) == Relabelled(CommaText(items))
    ensures AnswerParts(CommaText(items)) == CommaEntries(items)
  {
    var s := CommaText(items);
    CommaTextStart(items);
    CommaTextShape(items);
    OneLineAnswer(s, count);
    CommaSingleLine(items);
  }

  lemma CommaPairText(l1: char, v1: string, l2: char, v2: string)
    ensures CommaText([Item(l1, v1), Item(l2, v2)]) == [l1] + ". " + v1 + ", " + [l2] + ". " + v2
  {
    assert [Item(l1, v1), Item(l2, v2)][1..] == [Item(l2, v2)];
  }

  lemma CommaPairEntries(l1: char, v1: string, l2: char, v2: string)
    requires IsLetter(l1) && CommaWord(v1) && IsLetter(l2) && CommaWord(v2)
    ensures CommaEntries([Item(l1, v1), Item(l2, v2)])
      == [MakeEntry(Upper(l1), v1), MakeEntry(Upper(l2), v2)]
  {
    CommaEntriesPair(Item(l1, v1), Item(l2, v2));
    TidiedWord(v1);
    TidiedWord(v2);
  }

  lemma CommaEntriesPair(a: Item, b: Item)
    requires IsLetter(a.key) && IsLetter(b.key)
    ensures CommaEntries([a, b]) == [CommaEntry(a), CommaEntry(b)]
  {
    EntriesPair(CommaEntry, a, b);
  }

  /** Two comma items, the shape of the example below. */
  lemma CommaPair(l1: char, v1: string, l2: char, v2: string)
    requires IsLetter(l1) && CommaWord(v1) && IsLetter(l2) && CommaWord(v2)
    ensures FormattedAnswer([l1] + ". " + v1 + ", " + [l2] + ". " + v2, 2)
      == Prefix + MakeEntry(Upper(l1), v1) + Gap + MakeEntry(Upper(l2), v2)
  {
    var items := [Item(l1, v1), Item(l2, v2)];
    CommaAnswer(items, 2);
    CommaPairText(l1, v1, l2, v2);
    CommaPairEntries(l1, v1, l2, v2);
    JoinPair(MakeEntry(Upper(l1), v1), MakeEntry(Upper(l2), v2));
  }

  /** `A. foo, B. bar` → `正解：A. foo　　B. bar`. */
  lemma CommaExample(s: string)
    requires s == "A. foo, B. bar"
    ensures FormattedAnswer(s, 2) == "正解：A. foo　　B. bar"
  {
    var v1, v2 := "foo", "bar";
    assert FormattedAnswer(s, 2) == Prefix + MakeEntry('A', v1) + Gap + MakeEntry('B', v2) by {
      assert s == ['A'] + ". " + v1 + ", " + ['B'] + ". " + v2;
      assert CommaWord(v1) && CommaWord(v2);
      CommaPair('A', v1, 'B', v2);
    }
    CommaExampleText('A', v1, 'B', v2);
  }

  lemma CommaExampleText(l1: char, v1: string, l2: char, v2: string)
    requires l1 == 'A' && v1 == "foo" && l2 == 'B' && v2 == "bar"
    ensures Prefix + MakeEntry(l1, v1) + Gap + MakeEntry(l2, v2) == "正解：A. foo　　B. bar"
  {
  }
}
