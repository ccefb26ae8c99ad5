/** Character classes and literal string operations shared by every stage of
    the question formatter. Text is a sequence of Unicode code points, as a
    Python `str` is. */
module Text {

  /** Python's `None` or a value. */
  datatype Option<T> = None | Some(value: T)

  /** Python's `str.isspace()`: also what `\s` matches in a `str` regex and
      what `strip()` removes. It includes the ideographic space U+3000. */
  predicate IsSpace(c: char) {
    c == ' ' || ('\t' <= c <= '\r') || ('\U{1C}' <= c <= '\U{1F}')
    || c == '\U{85}' || c == '\U{A0}' || c == '\U{1680}'
    || ('\U{2000}' <= c <= '\U{200A}') || c == '\U{2028}' || c == '\U{2029}'
    || c == '\U{202F}' || c == '\U{205F}' || c == '\U{3000}'
  }

  /** Hiragana, katakana and the CJK unified ideographs block. */
  predicate IsJapanese(c: char) {
    ('\U{3040}' <= c <= '\U{309F}') || ('\U{30A0}' <= c <= '\U{30FF}') || ('\U{4E00}' <= c <= '\U{9FFF}')
  }

  /** The regex class `[A-Z]`. */
  predicate IsUpper(c: char) { 'A' <= c <= 'Z' }

  /** The regex class `[A-Za-z]`. */
  predicate IsLetter(c: char) { ('A' <= c <= 'Z') || ('a' <= c <= 'z') }

  predicate IsDigit(c: char) { '0' <= c <= '9' }

  /** `str.upper()` on one ASCII letter. */
  function Upper(c: char): (u: char)
    ensures IsLetter(c) ==> IsUpper(u)
    ensures IsUpper(c) ==> u == c
  {
    if 'a' <= c <= 'z' then (c as int - 32) as char else c
  }

  /** `s.startswith(w)`, character by character. */
  predicate StartsWith(s: string, w: string)
    ensures StartsWith(s, w) <==> |w| <= |s| && s[..|w|] == w
    decreases |w|
  {
    w == [] || (s != [] && s[0] == w[0] && StartsWith(s[1..], w[1..]))
  }

  /** `w` occurs in `s` at index `i`. */
  predicate OccursAt(s: string, w: string, i: nat) {
    i + |w| <= |s| && s[i..i + |w|] == w
  }

  /** `w not in s`, for a non-empty `w`. */
  predicate Absent(s: string, w: string) {
    forall i :: 0 <= i <= |s| ==> !OccursAt(s, w, i)
  }

  /** Neither two adjacent characters of `s` are `a` followed by `b`. */
  predicate NoPair(s: string, a: char, b: char) {
    forall i :: 0 <= i < |s| - 1 ==> !(s[i] == a && s[i + 1] == b)
  }

  /** `s.replace(w, r)`: every leftmost non-overlapping occurrence. */
  function ReplaceAll(s: string, w: string, r: string): string
    requires w != []
    decreases |s|
  {
    if s == [] then []
    else if StartsWith(s, w) then r + ReplaceAll(s[|w|..], w, r)
    else [s[0]] + ReplaceAll(s[1..], w, r)
  }

  /** `s.replace(w, r, 1)`: the leftmost occurrence only. */
  function ReplaceFirst(s: string, w: string, r: string): string
    requires w != []
    decreases |s|
  {
    if s == [] then []
    else if StartsWith(s, w) then r + s[|w|..]
    else [s[0]] + ReplaceFirst(s[1..], w, r)
  }

  /** `s.count(w)`: leftmost non-overlapping occurrences. */
  function Count(s: string, w: string): nat
    requires w != []
    decreases |s|
  {
    if s == [] then 0
    else if StartsWith(s, w) then 1 + Count(s[|w|..], w)
    else Count(s[1..], w)
  }

  /** A prefix holding no first character of `w` is passed over by every
      search for `w`. */
  lemma SkipPrefix(p: string, x: string, w: string, r: string)
    requires w != [] && w[0] !in p
    ensures ReplaceFirst(p + x, w, r) == p + ReplaceFirst(x, w, r)
    ensures ReplaceAll(p + x, w, r) == p + ReplaceAll(x, w, r)
    ensures Count(p + x, w) == Count(x, w)
  {
    SkipFirst(p, x, w, r);
    SkipAll(p, x, w, r);
    SkipCount(p, x, w);
  }

  lemma {:induction false} SkipFirst(p: string, x: string, w: string, r: string)
    requires w != [] && w[0] !in p
    ensures ReplaceFirst(p + x, w, r) == p + ReplaceFirst(x, w, r)
    decreases |p|
  {
    if p == [] {
      assert p + x == x;
    } else {
      SkipFirst(p[1..], x, w, r);
      DropAppend(p, x, 1);
      KeepFirst(p + x, p[1..] + x, w, r);
      Glue(ReplaceFirst(p + x, w, r), p, [], ReplaceFirst(x, w, r), []);
    }
  }

  lemma {:induction false} SkipAll(p: string, x: string, w: string, r: string)
    requires w != [] && w[0] !in p
    ensures ReplaceAll(p + x, w, r) == p + ReplaceAll(x, w, r)
    decreases |p|
  {
    if p == [] {
      assert p + x == x;
    } else {
      SkipAll(p[1..], x, w, r);
      DropAppend(p, x, 1);
      KeepAll(p + x, p[1..] + x, w, r);
      Glue(ReplaceAll(p + x, w, r), p, [], ReplaceAll(x, w, r), []);
    }
  }

  lemma {:induction false} SkipCount(p: string, x: string, w: string)
    requires w != [] && w[0] !in p
    ensures Count(p + x, w) == Count(x, w)
    decreases |p|
  {
    if p == [] {
      assert p + x == x;
    } else {
      SkipCount(p[1..], x, w);
      DropAppend(p, x, 1);
      KeepCount(p + x, p[1..] + x, w);
    }
  }

  /** The scans for `w` pass over a first character that does not start `w`. */
  lemma KeepFirst(s: string, t: string, w: string, r: string)
    requires w != [] && s != [] && s[0] != w[0] && s[1..] == t
    ensures ReplaceFirst(s, w, r) == [s[0]] + ReplaceFirst(t, w, r)
  {
  }

  lemma KeepAll(s: string, t: string, w: string, r: string)
    requires w != [] && s != [] && s[0] != w[0] && s[1..] == t
    ensures ReplaceAll(s, w, r) == [s[0]] + ReplaceAll(t, w, r)
  {
  }

  lemma KeepCount(s: string, t: string, w: string)
    requires w != [] && s != [] && s[0] != w[0] && s[1..] == t
    ensures Count(s, w) == Count(t, w)
  {
  }

  /** The scans for `w` step over a first character at which `w` does not
      start. */
  lemma StepOver(s: string, t: string, w: string, r: string)
    requires w != [] && s != [] && !StartsWith(s, w) && s[1..] == t
    ensures ReplaceFirst(s, w, r) == [s[0]] + ReplaceFirst(t, w, r)
    ensures ReplaceAll(s, w, r) == [s[0]] + ReplaceAll(t, w, r)
    ensures Count(s, w) == Count(t, w)
  {
  }

  /** `w` does not start a text that differs from it at some index. */
  lemma MismatchAt(s: string, w: string, i: nat)
    requires i < |w| && i < |s| && s[i] != w[i]
    ensures !StartsWith(s, w)
  {
    if |w| <= |s| {
      assert s[..|w|][i] == s[i];
    }
  }

  /** Whether `w` starts a text is decided by a prefix at least as long. */
  lemma PrefixStart(p: string, x: string, w: string)
    requires |w| <= |p|
    ensures StartsWith(p + x, w) <==> StartsWith(p, w)
  {
    assert (p + x)[..|w|] == p[..|w|];
  }

  /** `w` starts no text whose `count` is 0. */
  lemma CountZeroStart(s: string, w: string)
    requires w != [] && s != [] && Count(s, w) == 0
    ensures !StartsWith(s, w) && Count(s[1..], w) == 0
  {
  }

  /** A text in which `s.count(w)` is 0 is left alone by both replaces. */
  lemma {:induction false} CountZero(s: string, w: string, r: string)
    requires w != [] && Count(s, w) == 0
    ensures ReplaceAll(s, w, r) == s && ReplaceFirst(s, w, r) == s
    decreases |s|
  {
    if s != [] {
      assert !StartsWith(s, w);
      CountZero(s[1..], w, r);
      assert s == [s[0]] + s[1..];
    }
  }

  /** Dropping a prefix of `x` from `x + y`. */
  lemma DropAppend(x: string, y: string, m: nat)
    requires m <= |x|
    ensures (x + y)[m..] == x[m..] + y
    ensures x != [] ==> (x + y)[0] == x[0]
  {
  }

  /** The last character survives dropping a shorter prefix. */
  lemma DropLast(s: string, m: nat)
    requires m < |s|
    ensures s[m..] != [] && s[m..][|s[m..]| - 1] == s[|s| - 1]
  {
  }

  /** The last character of a concatenation with a non-empty tail. */
  lemma AppendLast(a: string, b: string)
    requires b != []
    ensures a + b != [] && (a + b)[|a + b| - 1] == b[|b| - 1]
  {
  }

  /** Concatenation regrouped: `a` is `h + (c + d)` and `b` is `h + c`, or
      (when `b` is not empty and `h`, `c` are) `a` is `[b[0]] + (b[1..] + d)`. */
  lemma Glue(a: string, b: string, c: string, d: string, h: string)
    requires (a == h + (c + d) && b == h + c) || (b != [] && h == c == [] && a == [b[0]] + (b[1..] + d))
    ensures a == b + d
  {
    if h == c == [] && b != [] && a == [b[0]] + (b[1..] + d) {
      assert b == [b[0]] + b[1..];
    }
  }

  /** A text that starts with `w` has its first occurrence there. */
  lemma AtFront(x: string, w: string, r: string)
    requires w != []
    ensures StartsWith(w + x, w)
    ensures ReplaceFirst(w + x, w, r) == r + x
    ensures ReplaceAll(w + x, w, r) == r + ReplaceAll(x, w, r)
    ensures Count(w + x, w) == 1 + Count(x, w)
  {
    assert (w + x)[..|w|] == w;
    assert (w + x)[|w|..] == x;
  }

  /** Length of the longest prefix of `s` made of whitespace or of the
      characters in `extra`: a greedy `[\s<extra>]*`. */
  function SepRun(s: string, extra: string): (k: nat)
    ensures k <= |s|
    ensures forall j :: 0 <= j < k ==> IsSpace(s[j]) || s[j] in extra
    ensures k < |s| ==> !IsSpace(s[k]) && s[k] !in extra
    decreases |s|
  {
    if s != [] && (IsSpace(s[0]) || s[0] in extra) then 1 + SepRun(s[1..], extra) else 0
  }

  /** A greedy `\s*`. */
  function SpaceRun(s: string): (k: nat)
    ensures k <= |s|
    ensures forall j :: 0 <= j < k ==> IsSpace(s[j])
    ensures k < |s| ==> !IsSpace(s[k])
  {
    SepRun(s, "")
  }

  /** Length of the longest prefix of `s` made of characters in `cls`. */
  function ClassRun(s: string, cls: string): (k: nat)
    ensures k <= |s|
    ensures forall j :: 0 <= j < k ==> s[j] in cls
    ensures k < |s| ==> s[k] !in cls
    decreases |s|
  {
    if s != [] && s[0] in cls then 1 + ClassRun(s[1..], cls) else 0
  }

  /** `s.lstrip()`. */
  function LStrip(s: string): (r: string)
    ensures |r| <= |s| && r == s[|s| - |r|..]
    ensures r == [] || !IsSpace(r[0])
    ensures forall j :: 0 <= j < |s| - |r| ==> IsSpace(s[j])
    decreases |s|
  {
    if s != [] && IsSpace(s[0]) then LStrip(s[1..]) else s
  }

  /** `s.rstrip()`. */
  function RStrip(s: string): (r: string)
    ensures |r| <= |s| && r == s[..|r|]
    ensures r == [] || !IsSpace(r[|r| - 1])
    ensures forall j :: |r| <= j < |s| ==> IsSpace(s[j])
    decreases |s|
  {
    if s != [] && IsSpace(s[|s| - 1]) then RStrip(s[..|s| - 1]) else s
  }

  /** `s.strip()`: a contiguous piece of `s` with no whitespace at either end,
      everything cut away being whitespace. */
  function Strip(s: string): (r: string)
    ensures r == [] || (!IsSpace(r[0]) && !IsSpace(r[|r| - 1]))
  {
    RStrip(LStrip(s))
  }

  /** The trimmed text is a slice of the original. */
  lemma StripSlice(s: string)
    ensures exists i, j :: 0 <= i <= j <= |s| && Strip(s) == s[i..j]
  {
    var l := LStrip(s);
    var r := RStrip(l);
    var i := |s| - |l|;
    SliceOfSlice(s, i, |r|);
    SliceWitness(s, r, i);
  }

  /** A slice given by its start is a slice. */
  lemma SliceWitness(s: string, r: string, i: nat)
    requires i + |r| <= |s| && r == s[i..i + |r|]
    ensures exists a, b :: 0 <= a <= b <= |s| && r == s[a..b]
  {
  }

  /** A prefix of a suffix is a slice. */
  lemma SliceOfSlice(s: string, i: nat, n: nat)
    requires i + n <= |s|
    ensures s[i..][..n] == s[i..i + n]
  {
  }

  /** Stripping adds no character. */
  lemma StripWithin(s: string, c: char)
    requires c !in s
    ensures c !in Strip(s)
  {
    StripSlice(s);
    var i, j :| 0 <= i <= j <= |s| && Strip(s) == s[i..j];
    SliceWithout(s, i, j, c);
  }

  /** A slice adds no character. */
  lemma SliceWithout(s: string, i: nat, j: nat, c: char)
    requires i <= j <= |s| && c !in s
    ensures c !in s[i..j]
  {
    assert forall k :: 0 <= k < j - i ==> s[i..j][k] == s[i + k];
  }

  /** A text with no whitespace at either end. */
  predicate Trimmed(s: string) {
    s == [] || (!IsSpace(s[0]) && !IsSpace(s[|s| - 1]))
  }

  /** Stripping a trimmed text changes nothing. */
  lemma TrimmedStrip(s: string)
    requires Trimmed(s)
    ensures Strip(s) == s
  {
    assert LStrip(s) == s;
    assert RStrip(s) == s;
  }

  /** A run of whitespace and `extra` characters that ends before `v`. */
  lemma {:induction false} SepRunOver(sp: string, v: string, extra: string)
    requires forall j :: 0 <= j < |sp| ==> IsSpace(sp[j]) || sp[j] in extra
    requires v == [] || (!IsSpace(v[0]) && v[0] !in extra)
    ensures SepRun(sp + v, extra) == |sp|
    decreases |sp|
  {
    if sp == [] {
      assert sp + v == v;
    } else {
      SepRunOver(sp[1..], v, extra);
      assert (sp + v)[1..] == sp[1..] + v;
    }
  }

  /** A run of `cls` characters that ends before `v`. */
  lemma {:induction false} ClassRunOver(run: string, v: string, cls: string)
    requires forall j :: 0 <= j < |run| ==> run[j] in cls
    requires v == [] || v[0] !in cls
    ensures ClassRun(run + v, cls) == |run|
    decreases |run|
  {
    if run == [] {
      assert run + v == v;
    } else {
      ClassRunOver(run[1..], v, cls);
      assert (run + v)[1..] == run[1..] + v;
    }
  }

  /** `s.rstrip(chars)`. */
  function RStripChars(s: string, chars: string): (r: string)
    ensures |r| <= |s| && r == s[..|r|]
    ensures r == [] || r[|r| - 1] !in chars
    decreases |s|
  {
    if s != [] && s[|s| - 1] in chars then RStripChars(s[..|s| - 1], chars) else s
  }

  /** `sep.join(parts)`. */
  function Join(parts: seq<string>, sep: string): string
    decreases |parts|
  {
    if parts == [] then []
    else if |parts| == 1 then parts[0]
    else parts[0] + sep + Join(parts[1..], sep)
  }

  /** `s.split(c)` for a single separator character: never empty, no piece
      contains `c`, and joining the pieces with `c` gives `s` back. */
  function Split(s: string, c: char): (parts: seq<string>)
    ensures |parts| >= 1
    ensures forall k :: 0 <= k < |parts| ==> c !in parts[k]
    ensures Join(parts, [c]) == s
    ensures (c in s) <==> |parts| >= 2
    decreases |s|
  {
    if s == [] then [[]]
    else
      var rest := Split(s[1..], c);
      if s[0] == c then [[]] + rest
      else
        var parts := [[s[0]] + rest[0]] + rest[1..];
        assert parts[1..] == rest[1..];
        assert s == [s[0]] + s[1..];
        parts
  }

  /** Decimal digits of a natural number, as `str(n)`. */
  function NatToString(n: nat): (r: string)
    ensures r != [] && forall j :: 0 <= j < |r| ==> IsDigit(r[j])
    decreases n
  {
    var d := ['0' + (n % 10) as char];
    if n < 10 then d else NatToString(n / 10) + d
  }
}
