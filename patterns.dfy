/** The fixed regular expressions that the formatter passes to `re.sub`, each
    as its own matcher, and the leftmost non-overlapping rewriting scan that
    `re.sub` performs with them. This is not a regex engine: every
    constructor of `Pattern` stands for one shape of expression in the
    formatter, and `MatchLen` encodes by hand what Python's greedy, lazy and
    backtracking operators make of it. */
module Patterns {
  import opened Text

  /** The in-band blank marker. */
  const Marker := "{{BLANK}}"

  /** The canonical question ending. */
  const Nanika := "はなにか。"

  /** `[、,とや・]`, the characters allowed before a standalone letter. */
  predicate IsBefore(c: char) { IsJapanese(c) || c in "、,とや・" }

  /** `[、,とや・など]`, the characters allowed after a standalone letter. */
  predicate IsAfter(c: char) { IsJapanese(c) || c in "、,とや・など" }

  /** The alternation `細胞|リンパ球|抗原|受容体` of protected cell terms. */
  const CellSuffixes: seq<string> := ["細胞", "リンパ球", "抗原", "受容体"]

  /** The alternation `exclude_suffixes` of technical-term endings. */
  const TechSuffixes: seq<string> := [
    "型", "群", "細胞", "抗原", "受容体", "リンパ球", "ウイルス", "遺伝子", "タンパク", "蛋白",
    "因子", "鎖", "座", "領域", "ドメイン", "クラス", "サブ", "波", "線", "層", "帯", "管",
    "点", "面", "軸", "端", "相", "期", "染色体"]

  datatype Pattern =
    | EmptyBrackets(open: char, close: char)
      // open\s*close  ->  {{BLANK}}   (close is not whitespace)
    | Repeated(c: char)
      // c{2,}  ->  {{BLANK}}
    | BracketedLabel(opens: string, labels: string, closes: string)
      // [opens]\s*[labels]\s*[closes]  ->  {{BLANK}}   (no class holds whitespace)
    | Ending(phrase: string)
      // phrase[。？?]?  ->  はなにか。
    | Literal(word: string, replacement: string)
      // word  ->  replacement
    | CommaAny
      // ,.  ->  .   (the dot is the wildcard: any character but a newline)
    | Run(chars: string, single: char)
      // [chars]+  ->  single
    | BlankLine
      // \n\s*\n  ->  \n
    | Emphasis(delim: string)
      // delim(.+?)delim  ->  \1
    | Standalone
      // ([before])([A-Z])([after])  ->  \1{{BLANK}}\3
    | CellTerm(letter: string)
      // letter(細胞|リンパ球|抗原|受容体)  ->  __PROTECT_letter_\1__
    | TechTerm
      // ([japanese])([A-Z])(exclude_suffixes)  ->  \1__TECH_\2__\3
    | TechRestore
      // __TECH_([A-Z])__  ->  \1
    | CellRestore(letter: string)
      // __PROTECT_letter_(.+?)__  ->  letter\1

  /** Length of the first alternative of `alts` that `s` starts with, 0 if none. */
  function AltLen(s: string, alts: seq<string>): (k: nat)
    ensures k <= |s|
    ensures k > 0 ==> exists j :: 0 <= j < |alts| && alts[j] != [] && |alts[j]| == k && StartsWith(s, alts[j])
    decreases |alts|
  {
    if alts == [] then 0
    else if alts[0] != [] && StartsWith(s, alts[0]) then |alts[0]|
    else AltLen(s, alts[1..])
  }

  /** The alternative `AltLen` finds is the prefix it measures. */
  lemma {:induction false} AltFound(s: string, alts: seq<string>)
    requires AltLen(s, alts) > 0
    ensures s[..AltLen(s, alts)] in alts
    decreases |alts|
  {
    if !(alts[0] != [] && StartsWith(s, alts[0])) {
      AltFound(s, alts[1..]);
    }
  }

  /** The lazy `(.+?)delim` after position 0 of `t`: the least `k >= 1` such
      that `t[..k]` holds no newline and `t[k..]` starts with `delim`; 0 when
      there is none. The search starts at candidate length `k`. */
  function LazyClose(t: string, delim: string, k: nat): (r: nat)
    requires 1 <= k
    ensures r == 0 || (k <= r && r + |delim| <= |t| && StartsWith(t[r..], delim))
    decreases |t| - k
  {
    if k > |t| || t[k - 1] == '\n' then 0
    else if StartsWith(t[k..], delim) then k
    else LazyClose(t, delim, k + 1)
  }

  /** The lazy search stops at the first place `K` where `delim` starts, when
      the text before it holds no newline and no first character of `delim`. */
  lemma {:induction false} LazyCloseAt(t: string, delim: string, k: nat, K: nat)
    requires 1 <= k <= K && delim != [] && K + |delim| <= |t| && t[K..K + |delim|] == delim
    requires forall j :: 0 <= j < K ==> t[j] != '\n' && t[j] != delim[0]
    ensures LazyClose(t, delim, k) == K
    decreases K - k
  {
    assert t[K..][..|delim|] == t[K..K + |delim|];
    if k < K {
      assert t[k..][0] == t[k];
      LazyCloseAt(t, delim, k + 1, K);
    }
  }

  /** Index of the last newline in `t`, -1 when there is none. */
  function LastNewline(t: string): (j: int)
    ensures -1 <= j < |t|
    ensures j >= 0 ==> t[j] == '\n'
    ensures forall i :: j < i < |t| ==> t[i] != '\n'
    decreases |t|
  {
    if t == [] then -1
    else if t[|t| - 1] == '\n' then |t| - 1
    else LastNewline(t[..|t| - 1])
  }

  /** The placeholder prefix `__PROTECT_<letter>_`. */
  function CellHead(letter: string): string {
    "__PROTECT_" + letter + "_"
  }

  function EmptyBracketsLen(s: string, o: char, c: char): (n: nat)
    ensures n <= |s|
  {
    if s != [] && s[0] == o then
      var k := SpaceRun(s[1..]);
      if 1 + k < |s| && s[1 + k] == c then 2 + k else 0
    else 0
  }

  function RepeatedLen(s: string, c: char): (n: nat)
    ensures n <= |s|
  {
    var k := ClassRun(s, [c]);
    if k >= 2 then k else 0
  }

  function BracketedLabelLen(s: string, os: string, ls: string, cs: string): (n: nat)
    ensures n <= |s|
  {
    if s != [] && s[0] in os then
      var i := 1 + SpaceRun(s[1..]);
      if i < |s| && s[i] in ls then
        var j := i + 1 + SpaceRun(s[i + 1..]);
        if j < |s| && s[j] in cs then j + 1 else 0
      else 0
    else 0
  }

  function EndingLen(s: string, w: string): (n: nat)
    ensures n <= |s|
  {
    if w != [] && StartsWith(s, w) then
      if |w| < |s| && s[|w|] in "。？?" then |w| + 1 else |w|
    else 0
  }

  function BlankLineLen(s: string): (n: nat)
    ensures n <= |s|
  {
    if s != [] && s[0] == '\n' then
      var k := SpaceRun(s[1..]);
      var j := LastNewline(s[1..1 + k]);
      if j >= 0 then j + 2 else 0
    else 0
  }

  function EmphasisLen(s: string, d: string): (n: nat)
    ensures n <= |s|
    ensures n > 0 ==> n >= 2 * |d| + 1
  {
    if d != [] && StartsWith(s, d) then
      var k := LazyClose(s[|d|..], d, 1);
      if k > 0 then |d| + k + |d| else 0
    else 0
  }

  function StandaloneLen(s: string): (n: nat)
    ensures n <= |s|
  {
    if |s| >= 3 && IsBefore(s[0]) && IsUpper(s[1]) && IsAfter(s[2]) then 3 else 0
  }

  function CellTermLen(s: string, l: string): (n: nat)
    ensures n <= |s|
    ensures n > 0 ==> |l| < n
  {
    if l != [] && StartsWith(s, l) then
      var k := AltLen(s[|l|..], CellSuffixes);
      if k > 0 then |l| + k else 0
    else 0
  }

  function TechTermLen(s: string): (n: nat)
    ensures n <= |s|
    ensures n > 0 ==> n > 2
  {
    if |s| >= 2 && IsJapanese(s[0]) && IsUpper(s[1]) then
      var k := AltLen(s[2..], TechSuffixes);
      if k > 0 then 2 + k else 0
    else 0
  }

  function TechRestoreLen(s: string): (n: nat)
    ensures n <= |s|
    ensures n > 0 ==> n == 10
  {
    if |s| >= 10 && s[..7] == "__TECH_" && IsUpper(s[7]) && s[8..10] == "__" then 10 else 0
  }

  function CellRestoreLen(s: string, l: string): (n: nat)
    ensures n <= |s|
    ensures n > 0 ==> n >= |CellHead(l)| + 3
  {
    var h := CellHead(l);
    if StartsWith(s, h) then
      var k := LazyClose(s[|h|..], "__", 1);
      if k > 0 then |h| + k + 2 else 0
    else 0
  }

  /** Length of the match of `p` at the start of `s`, 0 when `p` does not
      match there. Every pattern here matches at least one character. */
  function MatchLen(p: Pattern, s: string): (n: nat)
    ensures n <= |s|
  {
    match p
    case EmptyBrackets(o, c) => EmptyBracketsLen(s, o, c)
    case Repeated(c) => RepeatedLen(s, c)
    case BracketedLabel(os, ls, cs) => BracketedLabelLen(s, os, ls, cs)
    case Ending(w) => EndingLen(s, w)
    case Literal(w, _) => if w != [] && StartsWith(s, w) then |w| else 0
    case CommaAny => if |s| >= 2 && s[0] == ',' && s[1] != '\n' then 2 else 0
    case Run(cs, _) => ClassRun(s, cs)
    case BlankLine => BlankLineLen(s)
    case Emphasis(d) => EmphasisLen(s, d)
    case Standalone => StandaloneLen(s)
    case CellTerm(l) => CellTermLen(s, l)
    case TechTerm => TechTermLen(s)
    case TechRestore => TechRestoreLen(s)
    case CellRestore(l) => CellRestoreLen(s, l)
  }

  /** What `re.sub` puts in place of the match of `p` at the start of `s`. */
  function Rewrite(p: Pattern, s: string): string
    requires MatchLen(p, s) > 0
  {
    var n := MatchLen(p, s);
    match p
    case EmptyBrackets(_, _) => Marker
    case Repeated(_) => Marker
    case BracketedLabel(_, _, _) => Marker
    case Ending(_) => Nanika
    case Literal(_, r) => r
    case CommaAny => "."
    case Run(_, r) => [r]
    case BlankLine => "\n"
    case Emphasis(d) => s[|d|..n - |d|]
    case Standalone => [s[0]] + Marker + [s[2]]
    case CellTerm(l) => CellHead(l) + s[|l|..n] + "__"
    case TechTerm => [s[0]] + "__TECH_" + [s[1]] + "__" + s[2..n]
    case TechRestore => [s[7]]
    case CellRestore(l) => l + s[|CellHead(l)|..n - 2]
  }

  /** `re.sub(p, ..., s)`: scan left to right; where `p` matches, emit its
      rewrite and resume after the match, otherwise keep one character. */
  function Sub(p: Pattern, s: string): string
    decreases |s|
  {
    if s == [] then []
    else if MatchLen(p, s) > 0 then Rewrite(p, s) + Sub(p, s[MatchLen(p, s)..])
    else [s[0]] + Sub(p, s[1..])
  }

  /** The fold `for p in ps: s = re.sub(p, ..., s)`. */
  function SubAll(s: string, ps: seq<Pattern>): string
    decreases |ps|
  {
    if ps == [] then s else Sub(ps[|ps| - 1], SubAll(s, ps[..|ps| - 1]))
  }

  /** One more pass of the table. */
  lemma SubAllSnoc(s: string, ps: seq<Pattern>, i: nat)
    requires i < |ps|
    ensures SubAll(s, ps[..i + 1]) == Sub(ps[i], SubAll(s, ps[..i]))
  {
    assert ps[..i + 1][..i] == ps[..i];
  }

  /** Every pass of the table. */
  lemma SubAllWhole(s: string, ps: seq<Pattern>)
    ensures SubAll(s, ps[..|ps|]) == SubAll(s, ps)
  {
    assert ps[..|ps|] == ps;
  }

  /** `p` matches nowhere in `s`. */
  predicate NoMatch(p: Pattern, s: string) {
    forall i :: 0 <= i < |s| ==> MatchLen(p, s[i..]) == 0
  }

  /** `NoMatch` unfolded at the first character. */
  lemma NoMatchCons(p: Pattern, s: string)
    requires s != []
    ensures NoMatch(p, s) <==> MatchLen(p, s) == 0 && NoMatch(p, s[1..])
  {
    var u := s[1..];
    if NoMatch(p, s) {
      assert MatchLen(p, s[0..]) == 0 && s[0..] == s;
      forall i | 0 <= i < |u| ensures MatchLen(p, u[i..]) == 0 {
        assert MatchLen(p, s[i + 1..]) == 0 && u[i..] == s[i + 1..];
      }
    }
    if MatchLen(p, s) == 0 && NoMatch(p, u) {
      forall i | 0 <= i < |s| ensures MatchLen(p, s[i..]) == 0 {
        if i == 0 {
          assert s[0..] == s;
        } else {
          assert MatchLen(p, u[i - 1..]) == 0 && u[i - 1..] == s[i..];
        }
      }
    }
  }

  /** A pass of a pattern that matches nowhere changes nothing. */
  lemma {:induction false} SubNoMatch(p: Pattern, s: string)
    requires NoMatch(p, s)
    ensures Sub(p, s) == s
    decreases |s|
  {
    if s != [] {
      assert MatchLen(p, s[0..]) == 0 && s[0..] == s;
      forall i | 0 <= i < |s[1..]| ensures MatchLen(p, s[1..][i..]) == 0 {
        assert s[1..][i..] == s[1 + i..];
      }
      SubNoMatch(p, s[1..]);
      assert s == [s[0]] + s[1..];
    }
  }

  /** Passes of patterns that match nowhere change nothing. */
  lemma {:induction false} SubAllNoMatch(s: string, ps: seq<Pattern>)
    requires forall k :: 0 <= k < |ps| ==> NoMatch(ps[k], s)
    ensures SubAll(s, ps) == s
    decreases |ps|
  {
    if ps != [] {
      SubAllNoMatch(s, ps[..|ps| - 1]);
      SubNoMatch(ps[|ps| - 1], s);
    }
  }

  /** `p` rewrites every match into something non-empty. */
  ghost predicate NonEmptyRewrites(p: Pattern) {
    forall t :: MatchLen(p, t) > 0 ==> Rewrite(p, t) != []
  }

  /** The first character a pass emits: the rewrite's or the kept one. */
  lemma SubHead(p: Pattern, s: string)
    requires s != [] && NonEmptyRewrites(p)
    ensures Sub(p, s) != []
    ensures Sub(p, s)[0] == if MatchLen(p, s) > 0 then Rewrite(p, s)[0] else s[0]
  {
  }

  lemma NoPairConcat(x: string, y: string, a: char, b: char)
    requires NoPair(x, a, b) && NoPair(y, a, b)
    requires x == [] || y == [] || !(x[|x| - 1] == a && y[0] == b)
    ensures NoPair(x + y, a, b)
  {
    var z := x + y;
    forall i | 0 <= i < |z| - 1 ensures !(z[i] == a && z[i + 1] == b) {
      if i + 1 < |x| {
        assert z[i] == x[i] && z[i + 1] == x[i + 1];
      } else if i >= |x| {
        assert z[i] == y[i - |x|] && z[i + 1] == y[i - |x| + 1];
      }
    }
  }

  /** Where every `ab` pair of `s` starts a match, and no rewrite contains
      `ab`, starts with `b` or ends with `a`, the pass leaves no `ab`. */
  lemma {:induction false} SubNoPair(p: Pattern, s: string, a: char, b: char)
    requires forall i :: 0 <= i < |s| - 1 && s[i] == a && s[i + 1] == b ==> MatchLen(p, s[i..]) > 0
    requires forall t :: MatchLen(p, t) > 0 ==>
      var r := Rewrite(p, t); r != [] && NoPair(r, a, b) && r[0] != b && r[|r| - 1] != a
    ensures NoPair(Sub(p, s), a, b)
    decreases |s|
  {
    if s != [] {
      var n := MatchLen(p, s);
      var m := if n > 0 then n else 1;
      var u := s[m..];
      PairsTail(p, s, a, b, m);
      SubNoPair(p, u, a, b);
      if n > 0 {
        var r := Rewrite(p, s);
        assert r != [] && NoPair(r, a, b) && r[|r| - 1] != a;
        SubMatchNoPair(p, s, u, n, r, a, b);
      } else {
        assert s[0..] == s;
        assert NonEmptyRewrites(p);
        SubKeepNoPair(p, s, a, b);
      }
    }
  }

  /** A match whose rewrite ends safely does not start a pair. */
  lemma SubMatchNoPair(p: Pattern, s: string, u: string, n: nat, r: string, a: char, b: char)
    requires s != [] && n == MatchLen(p, s) > 0 && r == Rewrite(p, s) && s[n..] == u
    requires r != [] && NoPair(r, a, b) && r[|r| - 1] != a && NoPair(Sub(p, u), a, b)
    ensures NoPair(Sub(p, s), a, b)
  {
    SubMatchAt(p, s, u, n, r);
    NoPairConcat(r, Sub(p, u), a, b);
  }

  /** The pairs that start a match in `s` still do so in its tail. */
  lemma PairsTail(p: Pattern, s: string, a: char, b: char, m: nat)
    requires m <= |s|
    requires forall i :: 0 <= i < |s| - 1 && s[i] == a && s[i + 1] == b ==> MatchLen(p, s[i..]) > 0
    ensures forall i :: 0 <= i < |s[m..]| - 1 && s[m..][i] == a && s[m..][i + 1] == b ==>
      MatchLen(p, s[m..][i..]) > 0
  {
    var u := s[m..];
    forall i | 0 <= i < |u| - 1 && u[i] == a && u[i + 1] == b ensures MatchLen(p, u[i..]) > 0 {
      assert u[i..] == s[m + i..];
    }
  }

  /** The step of `SubNoPair` where the pass keeps the first character. */
  lemma SubKeepNoPair(p: Pattern, s: string, a: char, b: char)
    requires s != [] && MatchLen(p, s) == 0
    requires |s| >= 2 && s[0] == a && s[1] == b ==> MatchLen(p, s) > 0
    requires NonEmptyRewrites(p) && forall t :: MatchLen(p, t) > 0 ==> Rewrite(p, t)[0] != b
    requires NoPair(Sub(p, s[1..]), a, b)
    ensures NoPair(Sub(p, s), a, b)
  {
    var u := s[1..];
    SubKeepAt(p, s, u, s[0]);
    if u != [] {
      SubHead(p, u);
    }
    NoPairConcat([s[0]], Sub(p, u), a, b);
  }

  /** Where every `c` of `s` starts a match and no rewrite holds `c`, the pass
      leaves no `c`. */
  lemma {:induction false} SubNoChar(p: Pattern, s: string, c: char)
    requires forall i :: 0 <= i < |s| && s[i] == c ==> MatchLen(p, s[i..]) > 0
    requires forall t :: MatchLen(p, t) > 0 ==> c !in Rewrite(p, t)
    ensures c !in Sub(p, s)
    decreases |s|
  {
    if s != [] {
      var n := MatchLen(p, s);
      var m := if n > 0 then n else 1;
      var u := s[m..];
      CharsTail(p, s, c, m);
      SubNoChar(p, u, c);
      if n > 0 {
        SubMatchAt(p, s, u, n, Rewrite(p, s));
      } else {
        SubKeepAt(p, s, u, s[0]);
      }
    }
  }

  /** The characters that start a match in `s` still do so in its tail, and
      the first one of `s` does. */
  lemma CharsTail(p: Pattern, s: string, c: char, m: nat)
    requires m <= |s|
    requires forall i :: 0 <= i < |s| && s[i] == c ==> MatchLen(p, s[i..]) > 0
    ensures forall i :: 0 <= i < |s[m..]| && s[m..][i] == c ==> MatchLen(p, s[m..][i..]) > 0
    ensures s != [] && s[0] == c ==> MatchLen(p, s) > 0
  {
    assert s[0..] == s;
    var u := s[m..];
    forall i | 0 <= i < |u| && u[i] == c ensures MatchLen(p, u[i..]) > 0 {
      assert u[i..] == s[m + i..];
    }
  }

  /** At position `i` of `x` the scan of `x + y` sees the match that the scan
      of `x` alone sees, rewritten the same. */
  ghost predicate SeparableAt(p: Pattern, x: string, y: string, i: nat)
    requires i < |x|
  {
    MatchLen(p, (x + y)[i..]) == MatchLen(p, x[i..])
    && (MatchLen(p, x[i..]) > 0 ==> Rewrite(p, (x + y)[i..]) == Rewrite(p, x[i..]))
  }

  /** No match of the scan of `x + y` that starts in `x` reaches into `y`. */
  ghost predicate Separable(p: Pattern, x: string, y: string) {
    forall i :: 0 <= i < |x| ==> SeparableAt(p, x, y, i)
  }

  /** A pass distributes over a separable concatenation. */
  lemma {:induction false} SubAppend(p: Pattern, x: string, y: string)
    requires Separable(p, x, y)
    ensures Sub(p, x + y) == Sub(p, x) + Sub(p, y)
    decreases |x|
  {
    if x == [] {
      assert x + y == y;
    } else {
      assert SeparableAt(p, x, y, 0);
      assert (x + y)[0..] == x + y && x[0..] == x;
      var n := MatchLen(p, x);
      var m := if n > 0 then n else 1;
      SeparableTail(p, x, y, m);
      SubAppend(p, x[m..], y);
      SubAppendStep(p, x, y, m);
    }
  }

  /** The step of `SubAppend`: both scans start alike, and their tails agree. */
  lemma SubAppendStep(p: Pattern, x: string, y: string, m: nat)
    requires x != [] && MatchLen(p, x + y) == MatchLen(p, x)
    requires MatchLen(p, x) > 0 ==> Rewrite(p, x + y) == Rewrite(p, x)
    requires m == if MatchLen(p, x) > 0 then MatchLen(p, x) else 1
    requires Sub(p, x[m..] + y) == Sub(p, x[m..]) + Sub(p, y)
    ensures Sub(p, x + y) == Sub(p, x) + Sub(p, y)
  {
    if MatchLen(p, x) > 0 {
      SubAppendMatch(p, x, y, m);
    } else {
      SubAppendKeep(p, x, y);
    }
  }

  /** `SubAppendStep` where both scans start with the same match. */
  lemma SubAppendMatch(p: Pattern, x: string, y: string, m: nat)
    requires x != [] && m == MatchLen(p, x) > 0 && MatchLen(p, x + y) == m
    requires Rewrite(p, x + y) == Rewrite(p, x)
    requires Sub(p, x[m..] + y) == Sub(p, x[m..]) + Sub(p, y)
    ensures Sub(p, x + y) == Sub(p, x) + Sub(p, y)
  {
    DropAppend(x, y, m);
    SubMatchAt(p, x + y, x[m..] + y, m, Rewrite(p, x));
    SubMatchAt(p, x, x[m..], m, Rewrite(p, x));
    Glue(Sub(p, x + y), Sub(p, x), Sub(p, x[m..]), Sub(p, y), Rewrite(p, x));
  }

  /** `SubAppendStep` where both scans keep the first character. */
  lemma SubAppendKeep(p: Pattern, x: string, y: string)
    requires x != [] && MatchLen(p, x) == 0 && MatchLen(p, x + y) == 0
    requires Sub(p, x[1..] + y) == Sub(p, x[1..]) + Sub(p, y)
    ensures Sub(p, x + y) == Sub(p, x) + Sub(p, y)
  {
    DropAppend(x, y, 1);
    SubKeepAt(p, x + y, x[1..] + y, x[0]);
    SubKeepAt(p, x, x[1..], x[0]);
    Glue(Sub(p, x + y), Sub(p, x), Sub(p, x[1..]), Sub(p, y), [x[0]]);
  }

  /** A step of the scan where `p` matches `m` characters, rewritten to `h`,
      leaving `t`. */
  lemma SubMatchAt(p: Pattern, s: string, t: string, m: nat, h: string)
    requires s != [] && m == MatchLen(p, s) > 0 && h == Rewrite(p, s) && s[m..] == t
    ensures Sub(p, s) == h + Sub(p, t)
  {
  }

  /** A step of the scan that keeps the first character `c`, leaving `t`. */
  lemma SubKeepAt(p: Pattern, s: string, t: string, c: char)
    requires s != [] && MatchLen(p, s) == 0 && s[0] == c && s[1..] == t
    ensures Sub(p, s) == [c] + Sub(p, t)
  {
  }

  /** A pattern matching the whole of a text rewrites all of it. */
  lemma SubWhole(p: Pattern, s: string)
    requires MatchLen(p, s) == |s| > 0
    ensures Sub(p, s) == Rewrite(p, s)
  {
    SubMatchAt(p, s, [], |s|, Rewrite(p, s));
  }

  /** One step of the scan. */
  lemma SubStep(p: Pattern, s: string)
    requires s != []
    ensures MatchLen(p, s) > 0 ==> Sub(p, s) == Rewrite(p, s) + Sub(p, s[MatchLen(p, s)..])
    ensures MatchLen(p, s) == 0 ==> Sub(p, s) == [s[0]] + Sub(p, s[1..])
  {
  }

  lemma SeparableTail(p: Pattern, x: string, y: string, m: nat)
    requires Separable(p, x, y) && m <= |x|
    ensures Separable(p, x[m..], y)
  {
    forall i | 0 <= i < |x[m..]| ensures SeparableAt(p, x[m..], y, i) {
      assert SeparableAt(p, x, y, m + i);
      assert (x[m..] + y)[i..] == (x + y)[m + i..];
      assert x[m..][i..] == x[m + i..];
    }
  }

  // ---- The blank idioms ----

  /** What `[o]\s*[c]` matches: the opening bracket, whitespace only, the
      closing bracket. */
  lemma EmptyBracketsShape(s: string, o: char, c: char)
    ensures var n := EmptyBracketsLen(s, o, c);
      n > 0 ==> (n >= 2 && s[0] == o && s[n - 1] == c &&
                 forall j :: 0 < j < n - 1 ==> IsSpace(s[j]))
  {
    var n := EmptyBracketsLen(s, o, c);
    if n > 0 {
      forall j | 0 < j < n - 1 ensures IsSpace(s[j]) {
        assert s[1..][j - 1] == s[j];
      }
    }
  }

  /** Conversely, the opening bracket, whitespace and a closing bracket that
      is not whitespace form a match ending at that bracket. */
  lemma EmptyBracketsOf(s: string, o: char, c: char, m: nat)
    requires 0 < m < |s| && s[0] == o && s[m] == c && !IsSpace(c)
    requires forall j :: 0 < j < m ==> IsSpace(s[j])
    ensures EmptyBracketsLen(s, o, c) == m + 1
  {
    var k := SpaceRun(s[1..]);
  }

  /** What `c{2,}` matches: the whole run of `c` at the start, when it is at
      least two long. */
  lemma RepeatedShape(s: string, c: char)
    ensures var n := RepeatedLen(s, c);
      (n > 0 <==> |s| >= 2 && s[0] == c && s[1] == c) &&
      (n > 0 ==> (forall j :: 0 <= j < n ==> s[j] == c) && (n < |s| ==> s[n] != c))
  {
  }

  /** What `[os]\s*[ls]\s*[cs]` matches: an opening bracket, a label between
      whitespace, a closing bracket. */
  lemma BracketedLabelShape(s: string, os: string, ls: string, cs: string)
    ensures var n := BracketedLabelLen(s, os, ls, cs);
      n > 0 ==> (n >= 3 && s[0] in os && s[n - 1] in cs &&
                 exists i :: 0 < i < n - 1 && s[i] in ls &&
                   forall j :: 0 < j < n - 1 && j != i ==> IsSpace(s[j]))
  {
    var n := BracketedLabelLen(s, os, ls, cs);
    if n > 0 {
      var i := 1 + SpaceRun(s[1..]);
      forall j | 0 < j < n - 1 && j != i ensures IsSpace(s[j]) {
        if j < i {
          assert s[1..][j - 1] == s[j];
        } else {
          assert s[i + 1..][j - i - 1] == s[j];
        }
      }
    }
  }

  /** Conversely, such a window whose label and closing bracket are not
      whitespace is a match. */
  lemma BracketedLabelOf(s: string, os: string, ls: string, cs: string, i: nat, m: nat)
    requires 0 < i < m < |s| && s[0] in os && s[i] in ls && s[m] in cs
    requires !IsSpace(s[i]) && !IsSpace(s[m])
    requires forall j :: 0 < j < m && j != i ==> IsSpace(s[j])
    ensures BracketedLabelLen(s, os, ls, cs) == m + 1
  {
    var k := SpaceRun(s[1..]);
    var k2 := SpaceRun(s[i + 1..]);
  }

  /** The patterns of the blank-idiom table: they rewrite their match to the
      marker, and no character of a match is `{`, nor its first a character
      of the marker. */
  predicate IsIdiom(p: Pattern) {
    match p
    case EmptyBrackets(o, c) => o !in Marker && !IsSpace(c) && c != '{'
    case Repeated(c) => c !in Marker
    case BracketedLabel(os, ls, cs) => Outside(os) && Solid(ls) && Solid(cs)
    case _ => false
  }

  /** No character of `cs` occurs in the marker. */
  predicate Outside(cs: string) {
    forall ch :: ch in cs ==> ch !in Marker
  }

  /** No character of `cs` is whitespace or `{`. */
  predicate Solid(cs: string) {
    forall ch :: ch in cs ==> !IsSpace(ch) && ch != '{'
  }

  /** An idiom's match starts outside the marker's alphabet and becomes the
      marker. */
  lemma IdiomHead(p: Pattern, t: string)
    requires IsIdiom(p) && MatchLen(p, t) > 0
    ensures t[0] !in Marker && Rewrite(p, t) == Marker
  {
  }

  /** An idiom matching the whole of a text turns it into one marker. */
  lemma IdiomWhole(p: Pattern, s: string)
    requires IsIdiom(p) && MatchLen(p, s) == |s| > 0
    ensures Sub(p, s) == Marker
  {
    IdiomHead(p, s);
    SubMatchAt(p, s, [], |s|, Marker);
  }

  lemma EmptyBracketsWhole(s: string, o: char, c: char)
    requires IsIdiom(EmptyBrackets(o, c)) && EmptyBracketsLen(s, o, c) == |s| > 0
    ensures Sub(EmptyBrackets(o, c), s) == Marker
  {
    IdiomWhole(EmptyBrackets(o, c), s);
  }

  lemma BracketedLabelWhole(s: string, os: string, ls: string, cs: string)
    requires IsIdiom(BracketedLabel(os, ls, cs)) && BracketedLabelLen(s, os, ls, cs) == |s| > 0
    ensures Sub(BracketedLabel(os, ls, cs), s) == Marker
  {
    IdiomWhole(BracketedLabel(os, ls, cs), s);
  }

  /** An empty bracket pair, with any whitespace inside, is one match. */
  lemma EmptyBracketsSpan(o: char, c: char, w: string)
    requires IsIdiom(EmptyBrackets(o, c))
    requires forall j :: 0 <= j < |w| ==> IsSpace(w[j])
    ensures EmptyBracketsLen([o] + w + [c], o, c) == |w| + 2
  {
    var s := [o] + w + [c];
    forall j | 0 < j < |w| + 1 ensures IsSpace(s[j]) {
      assert s[j] == w[j - 1];
    }
    EmptyBracketsOf(s, o, c, |w| + 1);
  }

  /** A bracketed label, with any whitespace around the label, is one match. */
  lemma BracketedLabelSpan(os: string, ls: string, cs: string, o: char, w1: string,
                           l: char, w2: string, e: char)
    requires IsIdiom(BracketedLabel(os, ls, cs)) && o in os && l in ls && e in cs
    requires forall j :: 0 <= j < |w1| ==> IsSpace(w1[j])
    requires forall j :: 0 <= j < |w2| ==> IsSpace(w2[j])
    ensures BracketedLabelLen([o] + w1 + [l] + w2 + [e], os, ls, cs) == |w1| + |w2| + 3
  {
    var s := [o] + w1 + [l] + w2 + [e];
    var i := |w1| + 1;
    forall j | 0 < j < |s| - 1 && j != i ensures IsSpace(s[j]) {
      if j < i {
        assert s[j] == w1[j - 1];
      } else {
        assert s[j] == w2[j - i - 1];
      }
    }
    assert s[i] == l && s[|s| - 1] == e;
    BracketedLabelOf(s, os, ls, cs, i, |s| - 1);
  }

  /** No character of an idiom's match is `{`. */
  lemma IdiomWindow(p: Pattern, a: string)
    requires IsIdiom(p) && MatchLen(p, a) > 0
    ensures forall j :: 0 <= j < MatchLen(p, a) ==> a[j] != '{'
  {
    match p
    case EmptyBrackets(o, c) => EmptyBracketsWindow(a, o, c);
    case Repeated(c) => RepeatedShape(a, c);
    case BracketedLabel(os, ls, cs) => BracketedLabelWindow(a, os, ls, cs);
  }

  lemma EmptyBracketsWindow(a: string, o: char, c: char)
    requires IsIdiom(EmptyBrackets(o, c)) && EmptyBracketsLen(a, o, c) > 0
    ensures forall j :: 0 <= j < EmptyBracketsLen(a, o, c) ==> a[j] != '{'
  {
    assert '{' in Marker;
    EmptyBracketsShape(a, o, c);
  }

  lemma BracketedLabelWindow(a: string, os: string, ls: string, cs: string)
    requires IsIdiom(BracketedLabel(os, ls, cs)) && BracketedLabelLen(a, os, ls, cs) > 0
    ensures forall j :: 0 <= j < BracketedLabelLen(a, os, ls, cs) ==> a[j] != '{'
  {
    assert '{' in Marker;
    BracketedLabelShape(a, os, ls, cs);
  }

  /** An idiom's match is decided by the characters it covers. */
  lemma IdiomPrefix(p: Pattern, a: string, b: string)
    requires IsIdiom(p) && MatchLen(p, a) > 0 && MatchLen(p, a) <= |b|
    requires forall j :: 0 <= j < MatchLen(p, a) ==> a[j] == b[j]
    ensures MatchLen(p, b) > 0
  {
    match p
    case EmptyBrackets(o, c) => EmptyBracketsPrefix(a, b, o, c);
    case Repeated(c) =>
      RepeatedShape(a, c);
      RepeatedShape(b, c);
    case BracketedLabel(os, ls, cs) => BracketedLabelPrefix(a, b, os, ls, cs);
  }

  lemma EmptyBracketsPrefix(a: string, b: string, o: char, c: char)
    requires IsIdiom(EmptyBrackets(o, c))
    requires 0 < EmptyBracketsLen(a, o, c) <= |b|
    requires forall j :: 0 <= j < EmptyBracketsLen(a, o, c) ==> a[j] == b[j]
    ensures EmptyBracketsLen(b, o, c) > 0
  {
    EmptyBracketsShape(a, o, c);
    EmptyBracketsOf(b, o, c, EmptyBracketsLen(a, o, c) - 1);
  }

  lemma BracketedLabelPrefix(a: string, b: string, os: string, ls: string, cs: string)
    requires IsIdiom(BracketedLabel(os, ls, cs))
    requires 0 < BracketedLabelLen(a, os, ls, cs) <= |b|
    requires forall j :: 0 <= j < BracketedLabelLen(a, os, ls, cs) ==> a[j] == b[j]
    ensures BracketedLabelLen(b, os, ls, cs) > 0
  {
    var n := BracketedLabelLen(a, os, ls, cs);
    BracketedLabelShape(a, os, ls, cs);
    var i :| 0 < i < n - 1 && a[i] in ls &&
      forall j :: 0 < j < n - 1 && j != i ==> IsSpace(a[j]);
    BracketedLabelOf(b, os, ls, cs, i, n - 1);
  }

  /** An idiom that matches `x + y`, where `y` is empty or starts with `{`,
      already matches within `x`, so it matches `x + z` too. */
  lemma IdiomCut(p: Pattern, x: string, y: string, z: string)
    requires IsIdiom(p) && MatchLen(p, x + y) > 0 && (y == [] || y[0] == '{')
    ensures MatchLen(p, x + z) > 0
  {
    var n := MatchLen(p, x + y);
    IdiomWindow(p, x + y);
    if y != [] {
      assert (x + y)[|x|] == '{';
    }
    assert n <= |x|;
    IdiomPrefix(p, x + y, x + z);
  }

  /** `p` matches nowhere in `s`, and so nowhere after any cut. */
  lemma NoMatchDrop(p: Pattern, s: string, n: nat)
    requires NoMatch(p, s) && n <= |s|
    ensures NoMatch(p, s[n..])
  {
    forall i | 0 <= i < |s[n..]| ensures MatchLen(p, s[n..][i..]) == 0 {
      assert s[n..][i..] == s[n + i..];
    }
  }

  /** Characters of the marker in front of a text create no idiom match. */
  lemma {:induction false} FrontClear(p: Pattern, a: string, t: string)
    requires IsIdiom(p) && NoMatch(p, t)
    requires forall j :: 0 <= j < |a| ==> a[j] in Marker
    ensures NoMatch(p, a + t)
    decreases |a|
  {
    if a == [] {
      assert a + t == t;
    } else {
      FrontClear(p, a[1..], t);
      assert (a + t)[1..] == a[1..] + t;
      if MatchLen(p, a + t) > 0 {
        IdiomHead(p, a + t);
      }
      NoMatchCons(p, a + t);
    }
  }

  /** A pass of the idiom `q` creates no match of the idiom `p` at a position
      behind `x`: whatever `q` writes starts with `{`. */
  lemma {:induction false} PassKeepsMiss(p: Pattern, q: Pattern, x: string, s: string)
    requires IsIdiom(p) && IsIdiom(q) && MatchLen(p, x + s) == 0
    ensures MatchLen(p, x + Sub(q, s)) == 0
    decreases |s|
  {
    if s == [] {
      assert x + Sub(q, s) == x + s;
    } else if MatchLen(q, s) > 0 {
      var m := MatchLen(q, s);
      var t := Sub(q, s[m..]);
      IdiomHead(q, s);
      SubMatchAt(q, s, s[m..], m, Marker);
      assert x + Sub(q, s) == x + (Marker + t);
      if MatchLen(p, x + (Marker + t)) > 0 {
        IdiomCut(p, x, Marker + t, s);
      }
    } else {
      SubKeepAt(q, s, s[1..], s[0]);
      assert (x + [s[0]]) + s[1..] == x + s;
      PassKeepsMiss(p, q, x + [s[0]], s[1..]);
      assert x + Sub(q, s) == (x + [s[0]]) + Sub(q, s[1..]);
    }
  }

  /** A pass of the idiom `q` leaves no match of itself, and creates no
      match of an idiom `p` that had none. */
  lemma {:induction false} SubKeepsClear(p: Pattern, q: Pattern, s: string)
    requires IsIdiom(p) && IsIdiom(q) && (p == q || NoMatch(p, s))
    ensures NoMatch(p, Sub(q, s))
    decreases |s|
  {
    if s != [] {
      var m := MatchLen(q, s);
      if m > 0 {
        if p != q {
          NoMatchDrop(p, s, m);
        }
        SubKeepsClear(p, q, s[m..]);
        IdiomHead(q, s);
        SubMatchAt(q, s, s[m..], m, Marker);
        FrontClear(p, Marker, Sub(q, s[m..]));
      } else {
        if p != q {
          NoMatchCons(p, s);
        }
        SubKeepsClear(p, q, s[1..]);
        assert [s[0]] + s[1..] == s;
        PassKeepsMiss(p, q, [s[0]], s[1..]);
        SubKeepAt(q, s, s[1..], s[0]);
        assert ([s[0]] + Sub(q, s[1..]))[1..] == Sub(q, s[1..]);
        NoMatchCons(p, [s[0]] + Sub(q, s[1..]));
      }
    }
  }

  /** After the passes of a table of idioms, none of them matches anywhere. */
  lemma {:induction false} FoldClears(s: string, ps: seq<Pattern>, i: nat)
    requires forall k :: 0 <= k < |ps| ==> IsIdiom(ps[k])
    requires i <= |ps|
    ensures forall k :: 0 <= k < i ==> NoMatch(ps[k], SubAll(s, ps[..i]))
  {
    if i > 0 {
      FoldClears(s, ps, i - 1);
      SubAllSnoc(s, ps, i - 1);
      PassClears(ps, i - 1, SubAll(s, ps[..i - 1]));
    }
  }

  /** The pass of the `i`-th idiom keeps the earlier ones cleared and clears
      its own. */
  lemma PassClears(ps: seq<Pattern>, i: nat, t: string)
    requires forall k :: 0 <= k < |ps| ==> IsIdiom(ps[k])
    requires i < |ps| && forall k :: 0 <= k < i ==> NoMatch(ps[k], t)
    ensures forall k :: 0 <= k <= i ==> NoMatch(ps[k], Sub(ps[i], t))
  {
    forall k | 0 <= k <= i ensures NoMatch(ps[k], Sub(ps[i], t)) {
      SubKeepsClear(ps[k], ps[i], t);
    }
  }

  /** A marker is left alone by every idiom. */
  lemma MarkerFixed(q: Pattern)
    requires IsIdiom(q)
    ensures Sub(q, Marker) == Marker
  {
    assert Marker + [] == Marker;
    FrontClear(q, Marker, []);
    SubNoMatch(q, Marker);
  }

  /** Once the passes so far have produced a lone marker, the rest of a table
      of idioms keeps it. */
  lemma {:induction false} MarkerKept(s: string, ps: seq<Pattern>, i: nat)
    requires forall k :: 0 <= k < |ps| ==> IsIdiom(ps[k])
    requires i <= |ps| && SubAll(s, ps[..i]) == Marker
    ensures SubAll(s, ps) == Marker
    decreases |ps| - i
  {
    if i < |ps| {
      SubAllSnoc(s, ps, i);
      MarkerFixed(ps[i]);
      MarkerKept(s, ps, i + 1);
    } else {
      SubAllWhole(s, ps);
    }
  }
}
