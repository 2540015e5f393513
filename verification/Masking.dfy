/** Hiding markup and game tokens from the model behind numbered placeholders and putting
    them back (scripts/esp_engine.py). This part holds for any kind of token that can be
    recognised from its own characters; Tokens gives the two patterns in use. */
module Masking {
  import opened Text

  // ── Placeholders ────────────────────────────────────────────────────────────

  /** The fixed characters around a placeholder's number. */
  datatype Kind = Kind(open: char, letter: char, close: char)

  const TAG := Kind('⟨', 'H', '⟩')
  const TOKEN := Kind('{', 'T', '}')

  predicate Proper(k: Kind) {
    k.open != k.letter && k.open != k.close && !Digit(k.open) && !Digit(k.letter) && !Digit(k.close)
  }

  function Mark(k: Kind, i: nat): (s: string)
    ensures |s| >= 4 && s[0] == k.open
  {
    [k.open, k.letter] + Digits(i) + [k.close]
  }

  predicate InMarks(k: Kind, c: char) {
    c == k.open || c == k.letter || c == k.close || Digit(c)
  }

  /** No placeholder of this kind stands in the text. */
  ghost predicate Unmarked(k: Kind, s: string) {
    forall j: nat :: !Contains(s, Mark(k, j))
  }

  lemma MarkChars(k: Kind, i: nat)
    requires Proper(k)
    ensures forall j | 0 <= j < |Mark(k, i)| :: InMarks(k, Mark(k, i)[j])
    ensures forall j | 1 <= j < |Mark(k, i)| :: Mark(k, i)[j] != k.open
  {
    var d := Digits(i);
    forall j | 2 <= j < 2 + |d|
      ensures Digit(Mark(k, i)[j])
    {
      assert Mark(k, i)[j] == d[j - 2] && d[j - 2] in d;
    }
  }

  lemma DigitsDiffer(a: string, b: string, close: char, rest: string)
    requires AllDigits(a) && AllDigits(b) && !Digit(close) && a != b
    ensures !(a + [close] <= b + [close] + rest)
  {
    var s, t := a + [close], b + [close] + rest;
    assert forall x | 0 <= x < |a| :: s[x] == a[x] && a[x] in a;
    assert forall x | 0 <= x < |b| :: t[x] == b[x] && b[x] in b;
    assert s[|a|] == close && t[|b|] == close;
  }

  lemma MarksDiffer(k: Kind, i: nat, j: nat, rest: string)
    requires Proper(k) && i != j
    ensures !(Mark(k, i) <= Mark(k, j) + rest)
  {
    hide Digits, Value;
    var a, b := Digits(i), Digits(j);
    ValueOfDigits(i);
    ValueOfDigits(j);
    DigitsDiffer(a, b, k.close, rest);
    var s, t := Mark(k, i), Mark(k, j) + rest;
    assert s[2..] == a + [k.close] && t[2..] == b + [k.close] + rest;
    PrefixTail(s, t, 2);
  }

  lemma PrefixTail(s: string, t: string, n: nat)
    requires n <= |s| && n <= |t|
    ensures s <= t ==> s[n..] <= t[n..]
  {
  }

  // ── Replacing ───────────────────────────────────────────────────────────────

  function ReplaceFirst(s: string, a: string, b: string): string {
    if a <= s then b + s[|a|..]
    else if s == "" then ""
    else [s[0]] + ReplaceFirst(s[1..], a, b)
  }

  function ReplaceAll(s: string, a: string, b: string): string
    requires a != ""
    decreases |s|
  {
    if a <= s then b + ReplaceAll(s[|a|..], a, b)
    else if s == "" then ""
    else [s[0]] + ReplaceAll(s[1..], a, b)
  }

  /** No occurrence of a begins at the first n places of s. */
  predicate NoneStarts(s: string, a: string, n: nat)
    requires n <= |s|
  {
    forall q | 0 <= q < n :: !(a <= s[q..])
  }

  lemma {:induction false} FirstSkips(s: string, a: string, b: string, n: nat)
    requires a != "" && n <= |s| && NoneStarts(s, a, n)
    ensures ReplaceFirst(s, a, b) == s[..n] + ReplaceFirst(s[n..], a, b)
    decreases n
  {
    if n == 0 {
      assert s[0..] == s;
    } else {
      assert s[0..] == s;
      NoneLater(s, a, n);
      FirstSkips(s[1..], a, b, n - 1);
      assert s[1..][n - 1..] == s[n..] && [s[0]] + s[1..][..n - 1] == s[..n];
    }
  }

  lemma NoneLater(s: string, a: string, n: nat)
    requires 0 < n <= |s| && NoneStarts(s, a, n)
    ensures NoneStarts(s[1..], a, n - 1)
  {
    assert forall q | 0 <= q < n - 1 :: s[1..][q..] == s[q + 1..];
  }

  lemma {:induction false} AllSkips(s: string, a: string, b: string, n: nat)
    requires a != "" && n <= |s| && NoneStarts(s, a, n)
    ensures ReplaceAll(s, a, b) == s[..n] + ReplaceAll(s[n..], a, b)
    decreases n
  {
    if n == 0 {
      assert s[0..] == s;
    } else {
      assert s[0..] == s;
      NoneLater(s, a, n);
      AllSkips(s[1..], a, b, n - 1);
      assert s[1..][n - 1..] == s[n..] && [s[0]] + s[1..][..n - 1] == s[..n];
    }
  }

  lemma {:induction false} ContainsIsStarts(s: string, a: string)
    requires a != ""
    ensures !Contains(s, a) <==> NoneStarts(s, a, |s|)
  {
    if s != "" {
      ContainsIsStarts(s[1..], a);
      assert s[0..] == s;
      assert forall q | 0 <= q < |s| - 1 :: s[1..][q..] == s[q + 1..];
      assert forall q | 1 <= q < |s| :: s[q..] == s[1..][q - 1..];
    }
  }

  lemma {:induction false} ContainsInFront(a: string, b: string, part: string)
    requires Contains(a, part)
    ensures Contains(a + b, part)
  {
    if !(part <= a) {
      ContainsInFront(a[1..], b, part);
      assert (a + b)[1..] == a[1..] + b;
    }
  }

  // ── Cutting a text at its tokens ────────────────────────────────────────────

  /** How many characters a token at the start of the string takes; 0 for none. */
  type Matcher = string -> nat

  /** The texts between the tokens, and the tokens, from left to right. */
  datatype Cut = Cut(gaps: seq<string>, tokens: seq<string>)

  function CutUp(m: Matcher, s: string): (c: Cut)
    ensures |c.gaps| == |c.tokens| + 1
    decreases |s|
  {
    if s == "" then Cut([""], [])
    else if 0 < m(s) <= |s| then
      var c := CutUp(m, s[m(s)..]);
      Cut([""] + c.gaps, [s[..m(s)]] + c.tokens)
    else
      var c := CutUp(m, s[1..]);
      Cut([[s[0]] + c.gaps[0]] + c.gaps[1..], c.tokens)
  }

  /** Gaps with something between every two. */
  function Woven(gaps: seq<string>, xs: seq<string>): string
    requires |gaps| == |xs| + 1
  {
    if xs == [] then gaps[0] else gaps[0] + xs[0] + Woven(gaps[1..], xs[1..])
  }

  /** No token starts inside a gap, and every token is what the matcher takes there. */
  predicate CutWell(m: Matcher, gaps: seq<string>, ts: seq<string>)
    requires |gaps| == |ts| + 1
    decreases |ts|
  {
    && (forall q | 0 <= q < |gaps[0]| :: m(Woven(gaps, ts)[q..]) == 0)
    && (ts != [] ==>
          && 0 < |ts[0]| == m(ts[0] + Woven(gaps[1..], ts[1..]))
          && CutWell(m, gaps[1..], ts[1..]))
  }

  lemma {:induction false} CutUpIsWell(m: Matcher, s: string)
    requires m("") == 0 && forall t :: m(t) <= |t|
    ensures var c := CutUp(m, s); Woven(c.gaps, c.tokens) == s && CutWell(m, c.gaps, c.tokens)
    decreases |s|
  {
    hide Woven, CutWell;
    if s == "" {
      WellNothing(m);
    } else if m(s) > 0 {
      CutUpIsWell(m, s[m(s)..]);
      var d := CutUp(m, s[m(s)..]);
      assert s == s[..m(s)] + s[m(s)..];
      WellToken(m, d.gaps, d.tokens, s[..m(s)]);
    } else {
      CutUpIsWell(m, s[1..]);
      var d := CutUp(m, s[1..]);
      assert s == [s[0]] + s[1..];
      WellChar(m, d.gaps, d.tokens, s[0]);
    }
  }

  lemma WellNothing(m: Matcher)
    ensures Woven([""], []) == "" && CutWell(m, [""], [])
  {
  }

  lemma WellToken(m: Matcher, gaps: seq<string>, ts: seq<string>, t: string)
    requires |gaps| == |ts| + 1 && CutWell(m, gaps, ts) && 0 < |t| == m(t + Woven(gaps, ts))
    ensures Woven([""] + gaps, [t] + ts) == t + Woven(gaps, ts) && CutWell(m, [""] + gaps, [t] + ts)
  {
    var g, x := [""] + gaps, [t] + ts;
    assert g[0] == "" && x[0] == t && g[1..] == gaps && x[1..] == ts;
  }

  lemma WellChar(m: Matcher, gaps: seq<string>, ts: seq<string>, c: char)
    requires |gaps| == |ts| + 1 && CutWell(m, gaps, ts) && m([c] + Woven(gaps, ts)) == 0
    ensures Woven([[c] + gaps[0]] + gaps[1..], ts) == [c] + Woven(gaps, ts)
    ensures CutWell(m, [[c] + gaps[0]] + gaps[1..], ts)
  {
    var g, w := [[c] + gaps[0]] + gaps[1..], Woven(gaps, ts);
    assert g[1..] == gaps[1..];
    WovenChar(gaps, ts, c);
    forall q | 0 <= q < |g[0]|
      ensures m(Woven(g, ts)[q..]) == 0
    {
      if q > 0 { assert ([c] + w)[q..] == w[q - 1..]; } else { assert ([c] + w)[0..] == [c] + w; }
    }
  }

  lemma WovenChar(gaps: seq<string>, ts: seq<string>, c: char)
    requires |gaps| == |ts| + 1
    ensures Woven([[c] + gaps[0]] + gaps[1..], ts) == [c] + Woven(gaps, ts)
  {
    var g := [[c] + gaps[0]] + gaps[1..];
    assert g[1..] == gaps[1..];
  }

  lemma {:induction false} WovenSplits(gaps: seq<string>, xs: seq<string>, i: nat)
    requires |gaps| == |xs| + 1 && i < |xs|
    ensures Woven(gaps, xs) == Woven(gaps[..i + 1], xs[..i]) + xs[i] + Woven(gaps[i + 1..], xs[i + 1..])
    decreases i
  {
    if i == 0 {
      assert gaps[..1] == [gaps[0]];
    } else {
      WovenSplits(gaps[1..], xs[1..], i - 1);
      assert gaps[1..][..i] == gaps[..i + 1][1..] && xs[1..][..i - 1] == xs[..i][1..];
      assert gaps[1..][i..] == gaps[i + 1..] && xs[1..][i..] == xs[i + 1..];
    }
  }

  // ── Parts of what is woven ──────────────────────────────────────────────────

  /** None of the pieces has the part in it. */
  predicate AllFree(xs: seq<string>, part: string) {
    forall x | x in xs :: !Contains(x, part)
  }

  lemma {:induction false} PiecesAreFree(gaps: seq<string>, ts: seq<string>, part: string)
    requires |gaps| == |ts| + 1 && !Contains(Woven(gaps, ts), part)
    ensures AllFree(gaps, part) && AllFree(ts, part)
    decreases |ts|
  {
    hide Contains;
    var s := Woven(gaps, ts);
    if ts == [] {
      assert gaps == [s];
    } else {
      var w := Woven(gaps[1..], ts[1..]);
      if Contains(gaps[0], part) { ContainsInFront(gaps[0], ts[0] + w, part); }
      assert gaps[0] + (ts[0] + w) == s;
      FreeBehind(gaps[0], ts[0] + w, part);
      if Contains(ts[0], part) { ContainsInFront(ts[0], w, part); }
      FreeBehind(ts[0], w, part);
      PiecesAreFree(gaps[1..], ts[1..], part);
      assert forall x | x in gaps :: x == gaps[0] || x in gaps[1..];
      assert forall x | x in ts :: x == ts[0] || x in ts[1..];
    }
  }

  lemma FreeBehind(a: string, b: string, part: string)
    requires !Contains(a + b, part)
    ensures !Contains(b, part)
  {
    assert (a + b)[|a|..] == b;
    if Contains(b, part) { ContainsLater(a + b, |a|, part); }
  }

  /** The placeholders of numbers n, n + 1, ... */
  function Marks(k: Kind, n: nat, count: nat): (ms: seq<string>)
    ensures |ms| == count && forall j | 0 <= j < count :: ms[j] == Mark(k, n + j)
  {
    seq(count, j requires 0 <= j < count => Mark(k, n + j))
  }

  lemma MarksTail(k: Kind, n: nat, count: nat)
    requires count > 0
    ensures Marks(k, n, count)[1..] == Marks(k, n + 1, count - 1) && Marks(k, n, count)[0] == Mark(k, n)
  {
  }

  /** A part free of the gaps that cannot begin inside a placeholder nor run into one: no
      occurrence begins in the gap or in the placeholder behind it. */
  lemma NoneAcross(k: Kind, gap: string, i: nat, rest: string, part: string)
    requires Proper(k) && part != "" && !Contains(gap, part)
    requires !InMarks(k, part[0]) || (part[0] == k.open && !(part <= Mark(k, i) + rest))
    requires forall j | 1 <= j < |part| :: part[j] != k.open
    ensures NoneStarts(gap + Mark(k, i) + rest, part, |gap| + |Mark(k, i)|)
  {
    var mark := Mark(k, i);
    var s := gap + mark + rest;
    MarkChars(k, i);
    ContainsIsStarts(gap, part);
    forall q | 0 <= q < |gap| + |mark|
      ensures !(part <= s[q..])
    {
      if q < |gap| {
        NoneInGap(gap, mark, rest, part, q);
      } else {
        assert s[q..][0] == mark[q - |gap|];
        assert q == |gap| ==> s[q..] == mark + rest;
      }
    }
  }

  lemma NoneInGap(gap: string, mark: string, rest: string, part: string, q: nat)
    requires q < |gap| && mark != "" && part != "" && !(part <= gap[q..])
    requires forall j | 1 <= j < |part| :: part[j] != mark[0]
    ensures !(part <= (gap + mark + rest)[q..])
  {
    var t, n := (gap + mark + rest)[q..], |gap| - q;
    if |part| <= n {
      assert t[..|part|] == gap[q..][..|part|];
    } else {
      assert t[n] == mark[0];
    }
  }

  lemma {:induction false} FreeOfMarked(k: Kind, gaps: seq<string>, n: nat, part: string)
    requires Proper(k) && |gaps| > 0 && part != "" && AllFree(gaps, part)
    requires !InMarks(k, part[0]) || (exists i | 0 <= i < n :: part == Mark(k, i))
    requires forall j | 1 <= j < |part| :: part[j] != k.open
    ensures !Contains(Woven(gaps, Marks(k, n, |gaps| - 1)), part)
    decreases |gaps|
  {
    hide Contains, Mark, InMarks, Proper;
    var ms := Marks(k, n, |gaps| - 1);
    var s := Woven(gaps, ms);
    if |gaps| > 1 {
      MarksTail(k, n, |gaps| - 1);
      var rest := Woven(gaps[1..], ms[1..]);
      FreeOfMarked(k, gaps[1..], n + 1, part);
      if exists i | 0 <= i < n :: part == Mark(k, i) {
        var i :| 0 <= i < n && part == Mark(k, i);
        MarksDiffer(k, i, n, rest);
      }
      NoneAcross(k, gaps[0], n, rest, part);
      ContainsIsStarts(rest, part);
      ContainsIsStarts(s, part);
      NoneJoined(gaps[0] + ms[0], rest, part);
    }
  }

  lemma NoneJoined(a: string, b: string, part: string)
    requires NoneStarts(a + b, part, |a|) && NoneStarts(b, part, |b|)
    ensures NoneStarts(a + b, part, |a + b|)
  {
    forall q | |a| <= q < |a + b|
      ensures !(part <= (a + b)[q..])
    {
      assert (a + b)[q..] == b[q - |a|..];
    }
  }

  // ── Restoring ───────────────────────────────────────────────────────────────

  /** Every placeholder replaced everywhere, one number after another. */
  function Restored(s: string, k: Kind, ts: seq<string>, i: nat): string
    decreases |ts|
  {
    if ts == [] then s else Restored(ReplaceAll(s, Mark(k, i), ts[0]), k, ts[1..], i + 1)
  }

  /** The text with the first i tokens restored, around the placeholder of number i. */
  lemma HalfRestored(k: Kind, gaps: seq<string>, ts: seq<string>, i: nat)
    requires |gaps| == |ts| + 1 && i < |ts|
    ensures var x, y := Woven(gaps[..i + 1], ts[..i]), Woven(gaps[i + 1..], Marks(k, i + 1, |ts| - i - 1));
            && Woven(gaps, ts[..i] + Marks(k, i, |ts| - i)) == x + Mark(k, i) + y
            && Woven(gaps, ts[..i + 1] + Marks(k, i + 1, |ts| - i - 1)) == x + ts[i] + y
  {
    hide Mark, Woven;
    var n := |ts|;
    var xs, ys := ts[..i] + Marks(k, i, n - i), ts[..i + 1] + Marks(k, i + 1, n - i - 1);
    MarksTail(k, i, n - i);
    WovenSplits(gaps, xs, i);
    WovenSplits(gaps, ys, i);
    assert xs[..i] == ts[..i] && xs[i + 1..] == Marks(k, i, n - i)[1..];
    assert ys[..i] == ts[..i] && ys[i + 1..] == Marks(k, i + 1, n - i - 1);
  }

  /** Replacing one number touches its own placeholder only. */
  lemma RestoreOne(k: Kind, gaps: seq<string>, ts: seq<string>, i: nat)
    requires Proper(k) && |gaps| == |ts| + 1 && i < |ts|
    requires !Contains(Woven(gaps, ts), Mark(k, i))
    ensures ReplaceAll(Woven(gaps, ts[..i] + Marks(k, i, |ts| - i)), Mark(k, i), ts[i])
            == Woven(gaps, ts[..i + 1] + Marks(k, i + 1, |ts| - i - 1))
  {
    hide Contains, Mark, Proper, InMarks, Woven, ReplaceAll, Marks;
    var x, y := Woven(gaps[..i + 1], ts[..i]), Woven(gaps[i + 1..], Marks(k, i + 1, |ts| - i - 1));
    HalfRestored(k, gaps, ts, i);
    WovenSplits(gaps, ts, i);
    var z := Woven(gaps[i + 1..], ts[i + 1..]);
    assert Woven(gaps, ts) == x + (ts[i] + z);
    PrefixIsFree(x, ts[i] + z, Woven(gaps, ts), Mark(k, i));
    PiecesAreFree(gaps, ts, Mark(k, i));
    assert forall g | g in gaps[i + 1..] :: g in gaps;
    MarkChars(k, i);
    FreeOfMarked(k, gaps[i + 1..], i + 1, Mark(k, i));
    ReplaceBetween(x, Mark(k, i), y, ts[i]);
  }

  lemma PrefixIsFree(a: string, b: string, s: string, part: string)
    requires s == a + b && !Contains(s, part)
    ensures !Contains(a, part)
  {
    if Contains(a, part) { ContainsInFront(a, b, part); }
  }

  lemma ReplaceBetween(x: string, mark: string, y: string, t: string)
    requires mark != "" && !Contains(x, mark) && !Contains(y, mark)
    requires forall j | 1 <= j < |mark| :: mark[j] != mark[0]
    ensures ReplaceAll(x + mark + y, mark, t) == x + t + y
  {
    hide Contains, ReplaceAll;
    var s := x + mark + y;
    ContainsIsStarts(x, mark);
    forall q | 0 <= q < |x|
      ensures !(mark <= s[q..])
    {
      NoneInGap(x, mark, y, mark, q);
    }
    AllSkips(s, mark, t, |x|);
    assert s[|x|..] == mark + y && s[..|x|] == x;
    ReplaceHead(mark, y, t);
    ReplaceNone(y, mark, t);
  }

  lemma ReplaceHead(mark: string, y: string, t: string)
    requires mark != ""
    ensures ReplaceAll(mark + y, mark, t) == t + ReplaceAll(y, mark, t)
  {
    assert (mark + y)[|mark|..] == y;
  }

  lemma ReplaceNone(y: string, mark: string, t: string)
    requires mark != "" && !Contains(y, mark)
    ensures ReplaceAll(y, mark, t) == y
  {
    hide Contains;
    ContainsIsStarts(y, mark);
    AllSkips(y, mark, t, |y|);
    assert y[..|y|] == y && y[|y|..] == "";
  }

  lemma {:induction false} RestoreFrom(k: Kind, gaps: seq<string>, ts: seq<string>, i: nat)
    requires Proper(k) && |gaps| == |ts| + 1 && i <= |ts|
    requires Unmarked(k, Woven(gaps, ts))
    ensures Restored(Woven(gaps, ts[..i] + Marks(k, i, |ts| - i)), k, ts[i..], i) == Woven(gaps, ts)
    decreases |ts| - i
  {
    hide Contains, Mark, Proper, Woven, ReplaceAll;
    if i == |ts| {
      assert ts[..i] + Marks(k, i, 0) == ts;
    } else {
      RestoreOne(k, gaps, ts, i);
      RestoreFrom(k, gaps, ts, i + 1);
      assert ts[i..][1..] == ts[i + 1..];
    }
  }

  /** Restoring in order puts every token back between its gaps. */
  lemma RestoringUnmasks(k: Kind, gaps: seq<string>, ts: seq<string>)
    requires Proper(k) && |gaps| == |ts| + 1
    requires Unmarked(k, Woven(gaps, ts))
    ensures Restored(Woven(gaps, Marks(k, 0, |ts|)), k, ts, 0) == Woven(gaps, ts)
  {
    hide Unmarked, Mark, Proper, Woven, Restored;
    RestoreFrom(k, gaps, ts, 0);
    assert ts[..0] + Marks(k, 0, |ts|) == Marks(k, 0, |ts|) && ts[0..] == ts;
  }

  // ── Masking ─────────────────────────────────────────────────────────────────

  /** First occurrences replaced, one token after another. */
  function Masked(s: string, k: Kind, ts: seq<string>, i: nat): string
    decreases |ts|
  {
    if ts == [] then s else Masked(ReplaceFirst(s, ts[0], Mark(k, i)), k, ts[1..], i + 1)
  }

  /** After this character any character that is no white space makes a token. */
  ghost predicate Eager(m: Matcher, c: char) {
    forall t :: |t| >= 2 && t[0] == c && !Space(t[1]) ==> m(t) > 0
  }

  /** What the argument needs of a pattern: a token is recognised from its own characters,
      and no token can run from a gap into a placeholder and end there. */
  ghost predicate Regular(m: Matcher, k: Kind) {
    && (forall s :: m(s) <= |s|)
    && (forall s, t :: m(s) > 0 && s[..m(s)] <= t ==> m(t) > 0)
    && (forall s :: m(s) > 0 ==> !InMarks(k, s[0]) && !Space(s[0]))
    && (forall s :: m(s) > 0 ==>
          || !InMarks(k, s[m(s) - 1])
          || (m(s) >= 2 && !Space(s[1]) && Eager(m, s[0])))
  }

  /** A token t of the cut does not begin in the first gap of the text. */
  lemma NoneInFirstGap(m: Matcher, k: Kind, gaps: seq<string>, ts: seq<string>, t: string, rest: string, q: nat)
    requires Regular(m, k) && |gaps| == |ts| + 1 && CutWell(m, gaps, ts)
    requires t != "" && m(t + rest) == |t| && q < |gaps[0]|
    ensures !(t <= Woven(gaps, ts)[q..])
  {
    var w := Woven(gaps, ts);
    assert (t + rest)[..|t|] == t;
    assert m(w[q..]) == 0;
  }

  /** A token runs from a gap neither to the gap's end nor into the placeholder behind it
      when it ends in no placeholder character and holds no placeholder. */
  lemma NoneRunsInto(k: Kind, g: string, i: nat, after: string, t: string)
    requires Proper(k) && t != "" && !InMarks(k, t[|t| - 1]) && !Contains(t, Mark(k, i)) && !(t <= g)
    ensures !(t <= g + Mark(k, i) + after)
  {
    hide Contains, Mark, InMarks, Proper;
    var mark := Mark(k, i);
    var s, n := g + mark + after, |g|;
    MarkChars(k, i);
    ContainsIsStarts(t, mark);
    if |t| <= n {
      assert s[..|t|] == g[..|t|];
    } else if |t| - n <= |mark| {
      assert s[|t| - 1] == mark[|t| - 1 - n];
    } else {
      assert s[n..] == mark + after;
      PrefixTail(t, s, n);
      assert |mark| <= |t[n..]|;
    }
  }

  /** An eager token's first character, with anything behind it that is no white space,
      would have made a token where it stands. */
  lemma EagerFirst(m: Matcher, k: Kind, t: string, rest: string, w: string)
    requires Regular(m, k) && t != "" && m(t + rest) == |t| && InMarks(k, t[|t| - 1])
    requires m(w) == 0 && |w| >= 2
    ensures |t| >= 2 && !Space(t[1])
    ensures w[0] == t[0] ==> Space(w[1])
  {
    hide InMarks, Space;
    var u := t + rest;
    assert u[0] == t[0] && u[|t| - 1] == t[|t| - 1];
    assert m(u) >= 2 && u[1] == t[1];
  }

  lemma NoneEager(m: Matcher, k: Kind, g: string, next: string, s: string, t: string, rest: string)
    requires Regular(m, k) && t != "" && m(t + rest) == |t| && InMarks(k, t[|t| - 1])
    requires g != "" && next != "" && !Space(next[0]) && m(g + next) == 0 && g <= s
    ensures !(t <= s)
  {
    hide Regular, InMarks, Space;
    var w := g + next;
    EagerFirst(m, k, t, rest, w);
    assert w[0] == g[0] == s[0];
    assert if |g| >= 2 then w[1] == g[1] == s[1] else w[1] == next[0];
  }

  /** No token begins at a place of the gap, g being the rest of the gap from there. */
  lemma NoneFrom(m: Matcher, k: Kind, g: string, next: string, i: nat, after: string, t: string, rest: string)
    requires Proper(k) && Regular(m, k) && t != "" && m(t + rest) == |t| && !Contains(t, Mark(k, i))
    requires g != "" && next != "" && !Space(next[0]) && m(g + next) == 0
    ensures !(t <= g + (Mark(k, i) + after))
  {
    hide Contains, Mark, Proper, InMarks, Regular, Space;
    assert g + (Mark(k, i) + after) == g + Mark(k, i) + after;
    if InMarks(k, t[|t| - 1]) {
      NoneEager(m, k, g, next, g + Mark(k, i) + after, t, rest);
    } else {
      NotATokenThere(m, k, g, next, t, rest);
      NoneRunsInto(k, g, i, after, t);
    }
  }

  lemma NotATokenThere(m: Matcher, k: Kind, g: string, next: string, t: string, rest: string)
    requires Regular(m, k) && t != "" && m(t + rest) == |t| && m(g + next) == 0
    ensures !(t <= g)
  {
    assert (t + rest)[..|t|] == t;
    assert g <= g + next;
  }

  /** Nor when the first token is masked already. */
  lemma NoneBeforeMark(m: Matcher, k: Kind, gaps: seq<string>, ts: seq<string>, t: string, rest: string,
                       i: nat, after: string, q: nat)
    requires Proper(k) && Regular(m, k) && ts != [] && |gaps| == |ts| + 1 && CutWell(m, gaps, ts)
    requires t != "" && m(t + rest) == |t| && q < |gaps[0]| && !Contains(t, Mark(k, i))
    ensures !(t <= (gaps[0] + Mark(k, i) + after)[q..])
  {
    hide Contains, Mark, Proper, InMarks, Regular, CutWell, Woven, Space;
    InsideGap(gaps[0], Mark(k, i) + after, q);
    assert gaps[0] + Mark(k, i) + after == gaps[0] + (Mark(k, i) + after);
    GapBefore(gaps, ts, q);
    CutTail(m, gaps, ts);
    NothingInGap(m, gaps, ts, q);
    TokenStart(m, k, ts[0], Woven(gaps[1..], ts[1..]));
    NoneFrom(m, k, gaps[0][q..], ts[0] + Woven(gaps[1..], ts[1..]), i, after, t, rest);
  }

  lemma InsideGap(a: string, b: string, q: nat)
    requires q <= |a|
    ensures (a + b)[q..] == a[q..] + b
  {
  }

  lemma GapBefore(gaps: seq<string>, ts: seq<string>, q: nat)
    requires ts != [] && |gaps| == |ts| + 1 && q <= |gaps[0]|
    ensures q <= |Woven(gaps, ts)|
    ensures Woven(gaps, ts)[q..] == gaps[0][q..] + (ts[0] + Woven(gaps[1..], ts[1..]))
  {
    var next := ts[0] + Woven(gaps[1..], ts[1..]);
    assert Woven(gaps, ts) == gaps[0] + next;
    InsideGap(gaps[0], next, q);
  }

  lemma NothingInGap(m: Matcher, gaps: seq<string>, ts: seq<string>, q: nat)
    requires |gaps| == |ts| + 1 && CutWell(m, gaps, ts) && q < |gaps[0]|
    ensures m(Woven(gaps, ts)[q..]) == 0
  {
  }

  /** What is masked so far: numbers from n on for the first i tokens, the others bare. */
  function Mixed(k: Kind, ts: seq<string>, i: nat, n: nat): (xs: seq<string>)
    requires i <= |ts|
    ensures |xs| == |ts|
  {
    Marks(k, n, i) + ts[i..]
  }

  /** The first occurrence of token i in a text whose earlier tokens are masked is the
      token itself. */
  lemma {:induction false} MaskOne(m: Matcher, k: Kind, gaps: seq<string>, ts: seq<string>, i: nat, n: nat)
    requires Proper(k) && Regular(m, k) && |gaps| == |ts| + 1 && i < |ts| && CutWell(m, gaps, ts) && ts[i] != ""
    requires Unmarked(k, ts[i])
    ensures ReplaceFirst(Woven(gaps, Mixed(k, ts, i, n)), ts[i], Mark(k, n + i)) == Woven(gaps, Mixed(k, ts, i + 1, n))
    decreases i
  {
    hide Unmarked, Mark, Proper, Regular, CutWell, ReplaceFirst;
    var xs, ys := Mixed(k, ts, i, n), Mixed(k, ts, i + 1, n);
    if i == 0 {
      MaskHead(m, k, gaps, ts, n);
    } else {
      MixedTail(k, ts, i, n);
      MixedTail(k, ts, i + 1, n);
      CutTail(m, gaps, ts);
      MaskOne(m, k, gaps[1..], ts[1..], i - 1, n + 1);
      var front := gaps[0] + Mark(k, n);
      NoneBeforeTail(m, k, gaps, ts, i, n);
      var s := Woven(gaps, xs);
      FirstSkips(s, ts[i], Mark(k, n + i), |front|);
      assert s[..|front|] == front && s[|front|..] == Woven(gaps[1..], xs[1..]);
    }
  }

  lemma MixedTail(k: Kind, ts: seq<string>, i: nat, n: nat)
    requires 0 < i <= |ts|
    ensures Mixed(k, ts, i, n)[0] == Mark(k, n)
    ensures Mixed(k, ts, i, n)[1..] == Mixed(k, ts[1..], i - 1, n + 1)
  {
    assert ts[1..][i - 1..] == ts[i..];
  }

  lemma CutTail(m: Matcher, gaps: seq<string>, ts: seq<string>)
    requires ts != [] && |gaps| == |ts| + 1 && CutWell(m, gaps, ts)
    ensures CutWell(m, gaps[1..], ts[1..])
    ensures ts[0] != "" && m(ts[0] + Woven(gaps[1..], ts[1..])) == |ts[0]|
  {
  }

  lemma MaskHead(m: Matcher, k: Kind, gaps: seq<string>, ts: seq<string>, n: nat)
    requires Regular(m, k) && ts != [] && |gaps| == |ts| + 1 && CutWell(m, gaps, ts)
    ensures Woven(gaps, Mixed(k, ts, 0, n)) == Woven(gaps, ts)
    ensures ts[0] != ""
    ensures ReplaceFirst(Woven(gaps, ts), ts[0], Mark(k, n)) == Woven(gaps, Mixed(k, ts, 1, n))
  {
    hide Mark, Regular;
    CutTail(m, gaps, ts);
    var s, rest := Woven(gaps, ts), Woven(gaps[1..], ts[1..]);
    assert Mixed(k, ts, 0, n) == ts && Mixed(k, ts, 1, n) == [Mark(k, n)] + ts[1..];
    forall q | 0 <= q < |gaps[0]|
      ensures !(ts[0] <= s[q..])
    {
      NoneInFirstGap(m, k, gaps, ts, ts[0], rest, q);
    }
    FirstSkips(s, ts[0], Mark(k, n), |gaps[0]|);
    assert s[|gaps[0]|..] == ts[0] + rest && s[..|gaps[0]|] == gaps[0];
    assert (ts[0] + rest)[|ts[0]|..] == rest;
  }

  lemma NoneBeforeTail(m: Matcher, k: Kind, gaps: seq<string>, ts: seq<string>, i: nat, n: nat)
    requires Proper(k) && Regular(m, k) && |gaps| == |ts| + 1 && 0 < i < |ts| && CutWell(m, gaps, ts)
    requires ts[i] != "" && Unmarked(k, ts[i])
    ensures var s := Woven(gaps, Mixed(k, ts, i, n));
            |gaps[0]| + |Mark(k, n)| <= |s| && NoneStarts(s, ts[i], |gaps[0]| + |Mark(k, n)|)
  {
    hide Contains, Mark, Proper, Regular, CutWell;
    MixedTail(k, ts, i, n);
    var t, after := ts[i], Woven(gaps[1..], Mixed(k, ts[1..], i - 1, n + 1));
    var s := gaps[0] + Mark(k, n) + after;
    var rest := TokenAt(m, gaps, ts, i);
    MarkChars(k, n);
    TokenStart(m, k, t, rest);
    forall q | 0 <= q < |gaps[0]| + |Mark(k, n)|
      ensures !(t <= s[q..])
    {
      if q < |gaps[0]| {
        NoneBeforeMark(m, k, gaps, ts, t, rest, n, after, q);
      } else {
        assert s[q..][0] == Mark(k, n)[q - |gaps[0]|];
      }
    }
  }

  lemma TokenStart(m: Matcher, k: Kind, t: string, rest: string)
    requires Regular(m, k) && t != "" && m(t + rest) == |t|
    ensures !InMarks(k, t[0]) && !Space(t[0])
  {
    hide InMarks, Space;
    assert (t + rest)[0] == t[0];
  }

  /** Every token of the cut is what the matcher takes where it stands. */
  lemma {:induction false} TokenAt(m: Matcher, gaps: seq<string>, ts: seq<string>, i: nat) returns (rest: string)
    requires |gaps| == |ts| + 1 && i < |ts| && CutWell(m, gaps, ts)
    ensures ts[i] != "" && m(ts[i] + rest) == |ts[i]|
    decreases i
  {
    CutTail(m, gaps, ts);
    if i == 0 {
      rest := Woven(gaps[1..], ts[1..]);
    } else {
      rest := TokenAt(m, gaps[1..], ts[1..], i - 1);
    }
  }

  lemma TokensAreReal(m: Matcher, gaps: seq<string>, ts: seq<string>)
    requires |gaps| == |ts| + 1 && CutWell(m, gaps, ts)
    ensures forall t | t in ts :: t != ""
  {
    hide CutWell;
    forall i | 0 <= i < |ts|
      ensures ts[i] != ""
    {
      var _ := TokenAt(m, gaps, ts, i);
    }
  }

  lemma TokenIsFree(k: Kind, gaps: seq<string>, ts: seq<string>, i: nat)
    requires |gaps| == |ts| + 1 && i < |ts|
    requires Unmarked(k, Woven(gaps, ts))
    ensures Unmarked(k, ts[i])
  {
    hide Contains, Mark, Woven;
    forall j: nat
      ensures !Contains(ts[i], Mark(k, j))
    {
      PiecesAreFree(gaps, ts, Mark(k, j));
      assert ts[i] in ts;
    }
  }

  lemma MaskedNothing(s: string, k: Kind, ts: seq<string>, i: nat)
    requires ts == []
    ensures Masked(s, k, ts, i) == s
  {
  }

  lemma MaskedNext(s: string, k: Kind, ts: seq<string>, i: nat)
    requires i < |ts|
    ensures Masked(s, k, ts[i..], i) == Masked(ReplaceFirst(s, ts[i], Mark(k, i)), k, ts[i + 1..], i + 1)
  {
    assert ts[i..][1..] == ts[i + 1..];
  }

  lemma {:induction false} MaskFrom(m: Matcher, k: Kind, gaps: seq<string>, ts: seq<string>, i: nat)
    requires Proper(k) && Regular(m, k) && |gaps| == |ts| + 1 && i <= |ts| && CutWell(m, gaps, ts)
    requires Unmarked(k, Woven(gaps, ts))
    requires forall t | t in ts :: t != ""
    ensures Masked(Woven(gaps, Mixed(k, ts, i, 0)), k, ts[i..], i) == Woven(gaps, Marks(k, 0, |ts|))
    decreases |ts| - i
  {
    hide Unmarked, Mark, Proper, Regular, CutWell, ReplaceFirst, Woven, Masked;
    if i == |ts| {
      assert Mixed(k, ts, i, 0) == Marks(k, 0, |ts|);
      MaskedNothing(Woven(gaps, Marks(k, 0, |ts|)), k, ts[i..], i);
    } else {
      assert ts[i] in ts;
      TokenIsFree(k, gaps, ts, i);
      MaskOne(m, k, gaps, ts, i, 0);
      MaskFrom(m, k, gaps, ts, i + 1);
      MaskedNext(Woven(gaps, Mixed(k, ts, i, 0)), k, ts, i);
    }
  }

  /** Replacing first occurrences one by one puts every placeholder where its token stood. */
  lemma MaskingPlaces(m: Matcher, k: Kind, gaps: seq<string>, ts: seq<string>)
    requires Proper(k) && Regular(m, k) && |gaps| == |ts| + 1 && CutWell(m, gaps, ts)
    requires Unmarked(k, Woven(gaps, ts))
    ensures Masked(Woven(gaps, ts), k, ts, 0) == Woven(gaps, Marks(k, 0, |ts|))
  {
    hide Unmarked, Mark, Proper, Regular, CutWell, Woven, Masked;
    TokensAreReal(m, gaps, ts);
    MaskFrom(m, k, gaps, ts, 0);
    assert Mixed(k, ts, 0, 0) == ts && ts[0..] == ts;
  }
}
