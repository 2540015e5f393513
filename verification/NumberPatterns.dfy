/** The three patterns of the answer parser as they are written
    (remote_worker/prompt/parser.py), and the hand-made matchers of NumberedAnswer measured
    against them. */
module NumberPatterns {
  import opened Bytes
  import opened Text
  import N = NumberedAnswer
  import R = Regex

  predicate PointOrParen(c: char) {
    c == '.' || c == ')'
  }

  predicate InLine(c: char) {
    c != '\n'
  }

  // ^\s*(\d+)[.)]
  function HeadAtoms(): seq<R.Atom> {
    [R.LineStart, R.Star(Space), R.Plus(Digit), R.One(PointOrParen)]
  }

  // \s*(.*)   and   \s   and   \s*
  function TailAtoms(p: N.Pattern): seq<R.Atom> {
    match p
    case Line => [R.Star(Space), R.Star(InLine)]
    case Check => [R.One(Space)]
    case Split => [R.Star(Space)]
  }

  function AtomsOf(p: N.Pattern): seq<R.Atom> {
    HeadAtoms() + TailAtoms(p)
  }

  function PatternOf(p: N.Pattern): R.Pattern {
    [AtomsOf(p)]
  }

  // ── The tails ───────────────────────────────────────────────────────────────

  /** Where the tail of each pattern ends when it is matched from j on. */
  lemma TailMatches(p: N.Pattern, s: string, j: nat)
    requires j <= |s|
    ensures var ps := R.Paths(AtomsOf(p), 4, s, j);
            match p
            case Line =>
              var c := R.Reach(Space, s, j);
              ps != [] && ps[0] == [c, R.Reach(InLine, s, c)]
            case Check => if j < |s| && Space(s[j]) then ps != [] && ps[0] == [j + 1] else ps == []
            case Split => ps != [] && ps[0] == [R.Reach(Space, s, j)]
  {
    hide R.Paths, R.Reach, Space;
    var atoms := AtomsOf(p);
    match p
    case Line =>
      var c := R.Reach(Space, s, j);
      R.NothingMore(atoms, s, R.Reach(InLine, s, c));
      R.Taken(atoms, 5, s, c, R.Reach(InLine, s, c));
      R.Taken(atoms, 4, s, j, c);
    case Check =>
      if j < |s| && Space(s[j]) {
        R.NothingMore(atoms, s, j + 1);
        R.Taken(atoms, 4, s, j, j + 1);
      } else {
        R.Stuck(atoms, 4, s, j);
      }
    case Split =>
      R.NothingMore(atoms, s, R.Reach(Space, s, j));
      R.Taken(atoms, 4, s, j, R.Reach(Space, s, j));
  }

  // ── The head: white space and digits can only be taken whole ────────────────

  lemma Apart(c: char)
    ensures !(Space(c) && Digit(c)) && !(Digit(c) && PointOrParen(c))
  {
  }

  lemma PointPart(p: N.Pattern, s: string, y: nat)
    requires y <= |s|
    ensures var ps := R.Paths(AtomsOf(p), 3, s, y);
            if y < |s| && PointOrParen(s[y]) && R.Paths(AtomsOf(p), 4, s, y + 1) != []
            then ps != [] && ps[0] == [y + 1] + R.Paths(AtomsOf(p), 4, s, y + 1)[0]
            else ps == []
  {
    hide R.Paths, PointOrParen;
    var atoms := AtomsOf(p);
    if y == |s| || !PointOrParen(s[y]) {
      R.Stuck(atoms, 3, s, y);
    } else if R.Paths(atoms, 4, s, y + 1) != [] {
      R.Taken(atoms, 3, s, y, y + 1);
    } else {
      R.NoMatch(atoms, 3, s, y);
    }
  }

  lemma DigitPart(p: N.Pattern, s: string, x: nat)
    requires x <= |s|
    ensures var ps, b := R.Paths(AtomsOf(p), 2, s, x), R.Reach(Digit, s, x);
            if b > x && R.Paths(AtomsOf(p), 3, s, b) != []
            then ps != [] && ps[0] == [b] + R.Paths(AtomsOf(p), 3, s, b)[0]
            else ps == []
  {
    hide R.Paths, PointOrParen, Digit;
    var atoms, b := AtomsOf(p), R.Reach(Digit, s, x);
    if b == x {
      R.Stuck(atoms, 2, s, x);
    } else if R.Paths(atoms, 3, s, b) != [] {
      R.Taken(atoms, 2, s, x, b);
    } else {
      forall y | x < y <= b
        ensures R.Paths(atoms, 3, s, y) == []
      {
        PointPart(p, s, y);
        if y < b { Apart(s[y]); }
      }
      R.NoMatch(atoms, 2, s, x);
    }
  }

  lemma SpacePart(p: N.Pattern, s: string, i: nat)
    requires i <= |s|
    ensures var ps, a := R.Paths(AtomsOf(p), 1, s, i), R.Reach(Space, s, i);
            if R.Paths(AtomsOf(p), 2, s, a) != [] then ps != [] && ps[0] == [a] + R.Paths(AtomsOf(p), 2, s, a)[0]
            else ps == []
  {
    hide R.Paths, Space, Digit;
    var atoms, a := AtomsOf(p), R.Reach(Space, s, i);
    if R.Paths(atoms, 2, s, a) != [] {
      R.Taken(atoms, 1, s, i, a);
    } else {
      forall x | i <= x <= a
        ensures R.Paths(atoms, 2, s, x) == []
      {
        if x < a {
          Apart(s[x]);
          DigitPart(p, s, x);
        }
      }
      R.NoMatch(atoms, 1, s, i);
    }
  }

  /** Whether the head stands at i, and where its parts end. */
  datatype Cuts = Cuts(spaces: nat, digits: nat)

  function HeadCuts(s: string, i: nat): (c: Cuts)
    requires i <= |s|
    ensures i <= c.spaces <= c.digits <= |s|
  {
    var a := R.Reach(Space, s, i);
    Cuts(a, R.Reach(Digit, s, a))
  }

  predicate HasHead(s: string, i: nat)
    requires i <= |s|
  {
    var c := HeadCuts(s, i);
    c.spaces < c.digits < |s| && PointOrParen(s[c.digits])
  }

  lemma HeadPart(p: N.Pattern, s: string, i: nat)
    requires i <= |s|
    ensures var c, t := HeadCuts(s, i), R.Try(PatternOf(p), 0, s, i);
            if R.StartsLine(s, i) && HasHead(s, i) && R.Paths(AtomsOf(p), 4, s, c.digits + 1) != []
            then t == Some([i, i, c.spaces, c.digits, c.digits + 1] + R.Paths(AtomsOf(p), 4, s, c.digits + 1)[0])
            else t == None
  {
    hide R.Paths, R.Reach, PointOrParen, TailAtoms;
    var c := HeadCuts(s, i);
    SpacePart(p, s, i);
    DigitPart(p, s, c.spaces);
    PointPart(p, s, c.digits);
    LinePart(p, s, i);
    TryOne(p, s, i);
    if R.StartsLine(s, i) && HasHead(s, i) && R.Paths(AtomsOf(p), 4, s, c.digits + 1) != [] {
      var q := R.Paths(AtomsOf(p), 4, s, c.digits + 1)[0];
      assert [i] + ([i] + ([c.spaces] + ([c.digits] + ([c.digits + 1] + q))))
             == [i, i, c.spaces, c.digits, c.digits + 1] + q;
    }
  }

  lemma LinePart(p: N.Pattern, s: string, i: nat)
    requires i <= |s|
    ensures var ps := R.Paths(AtomsOf(p), 0, s, i);
            if R.StartsLine(s, i) && R.Paths(AtomsOf(p), 1, s, i) != []
            then ps != [] && ps[0] == [i] + R.Paths(AtomsOf(p), 1, s, i)[0]
            else ps == []
  {
    hide R.Paths;
    var atoms := AtomsOf(p);
    if !R.StartsLine(s, i) {
      R.Stuck(atoms, 0, s, i);
    } else if R.Paths(atoms, 1, s, i) != [] {
      R.FirstLeads(atoms, 0, s, i);
    } else {
      R.NoMatch(atoms, 0, s, i);
    }
  }

  lemma TryOne(p: N.Pattern, s: string, i: nat)
    requires i <= |s|
    ensures var ps := R.Paths(AtomsOf(p), 0, s, i);
            R.Try(PatternOf(p), 0, s, i) == if ps == [] then None else Some([i] + ps[0])
  {
    hide R.Paths, AtomsOf;
    assert R.Try(PatternOf(p), 1, s, i) == None;
  }

  // ── The hand-made matchers ──────────────────────────────────────────────────

  lemma {:induction false} DropSpacesAt(s: string, i: nat)
    requires i <= |s|
    ensures DropSpaces(s[i..]) == s[R.Reach(Space, s, i)..]
    decreases |s| - i
  {
    hide Space;
    if i < |s| && Space(s[i]) {
      assert s[i..][1..] == s[i + 1..];
      DropSpacesAt(s, i + 1);
    }
  }

  lemma {:induction false} DigitRunAt(s: string, i: nat)
    requires i <= |s|
    ensures N.DigitRun(s[i..]) == R.Reach(Digit, s, i) - i
    decreases |s| - i
  {
    hide Digit;
    if i < |s| && Digit(s[i]) {
      assert s[i..][1..] == s[i + 1..];
      DigitRunAt(s, i + 1);
    }
  }

  lemma {:induction false} LineEndAt(s: string, i: nat)
    requires i <= |s|
    ensures N.LineEnd(s[i..]) == R.Reach(InLine, s, i) - i
    decreases |s| - i
  {
    if i < |s| && s[i] != '\n' {
      assert s[i..][1..] == s[i + 1..];
      LineEndAt(s, i + 1);
    }
  }

  lemma HeadAt(s: string, i: nat)
    requires i <= |s|
    ensures var c := HeadCuts(s, i);
            && AllDigits(s[c.spaces..c.digits])
            && N.Head(s[i..]) ==
               if HasHead(s, i) then Some(N.Mark(Value(s[c.spaces..c.digits]), s[c.digits + 1..])) else None
  {
    hide Space, Digit, Value, R.Reach, DropSpaces;
    var c := HeadCuts(s, i);
    DropSpacesAt(s, i);
    DigitRunAt(s, c.spaces);
    var t, d := s[c.spaces..], c.digits - c.spaces;
    assert t[..d] == s[c.spaces..c.digits];
    assert d < |t| ==> t[d] == s[c.digits] && t[d + 1..] == s[c.digits + 1..];
  }

  /** A match of the pattern and what the parser takes from it: the number, the text of the
      line pattern, and the place to go on from. */
  predicate IsHit(p: N.Pattern, s: string, m: seq<nat>, h: N.Hit) {
    && |m| == 1 + |AtomsOf(p)| && R.Within(m, 0, |s|) && m[2] <= m[3]
    && AllDigits(s[m[2]..m[3]]) && h.number == Value(s[m[2]..m[3]])
    && h.rest == s[R.Last(m)..]
    && (p.Line? ==> m[5] <= m[6] && h.text == s[m[5]..m[6]])
    && (!p.Line? ==> h.text == "")
  }

  lemma MatchAt(p: N.Pattern, s: string, i: nat)
    requires i <= |s|
    ensures var t, h := R.Try(PatternOf(p), 0, s, i), N.Match(p, s[i..]);
            && (t.Some? <==> R.StartsLine(s, i) && h.Some?)
            && (t.Some? ==> i < R.Last(t.value) <= |s| && IsHit(p, s, t.value, h.value))
  {
    hide R.Paths, R.Try, N.Head, N.Match, Value, Space, HasHead, R.Reach, HeadCuts;
    hide PointOrParen, IsHit, AtomsOf, AllDigits;
    HeadPart(p, s, i);
    HeadAt(s, i);
    MatchNeedsHead(p, s[i..]);
    if HasHead(s, i) {
      HeadEnds(s, i);
      var c := HeadCuts(s, i);
      TailHits(p, s, i, c.spaces, c.digits);
    }
  }

  lemma MatchNeedsHead(p: N.Pattern, s: string)
    ensures N.Head(s).None? ==> N.Match(p, s).None?
  {
  }

  /** Behind a head that ends as told, the tails of pattern and parser agree. */
  predicate TailsAgree(p: N.Pattern, s: string, i: nat, head: seq<nat>, ps: seq<seq<nat>>, h: Option<N.Hit>)
    requires |head| > 0
  {
    && (ps != [] <==> h.Some?)
    && (ps != [] ==> i < R.Last(head + ps[0]) <= |s| && IsHit(p, s, head + ps[0], h.value))
  }

  lemma TailHits(p: N.Pattern, s: string, i: nat, a: nat, b: nat)
    requires i <= a <= b < |s| && AllDigits(s[a..b])
    requires N.Head(s[i..]) == Some(N.Mark(Value(s[a..b]), s[b + 1..]))
    ensures TailsAgree(p, s, i, [i, i, a, b, b + 1], R.Paths(AtomsOf(p), 4, s, b + 1), N.Match(p, s[i..]))
  {
    hide R.Paths, N.Head, N.Match, Value, Space, R.Reach, N.LineEnd, DropSpaces, AllDigits, IsHit, TailsAgree;
    var j, ps, h := b + 1, R.Paths(AtomsOf(p), 4, s, b + 1), N.Match(p, s[i..]);
    TailMatches(p, s, j);
    TailAt(p, s, j);
    MatchUnfolds(p, s[i..]);
    match p {
      case Line =>
        var c := R.Reach(Space, s, j);
        var e := R.Reach(InLine, s, c);
        OneTail(p, s, i, a, b, [c, e], ps, h, s[c..e]);
      case Check => if ps == [] { NoTail(p, s, i, a, b); } else { OneTail(p, s, i, a, b, [j + 1], ps, h, ""); }
      case Split => OneTail(p, s, i, a, b, [R.Reach(Space, s, j)], ps, h, "");
    }
  }

  lemma NoTail(p: N.Pattern, s: string, i: nat, a: nat, b: nat)
    ensures TailsAgree(p, s, i, [i, i, a, b, b + 1], [], None)
  {
  }

  lemma OneTail(p: N.Pattern, s: string, i: nat, a: nat, b: nat, tail: seq<nat>, ps: seq<seq<nat>>,
                h: Option<N.Hit>, text: string)
    requires i <= a <= b < |s| && AllDigits(s[a..b])
    requires |tail| == (if p.Line? then 2 else 1) && R.Within(tail, b + 1, |s|) && ps != [] && ps[0] == tail
    requires h == Some(N.Hit(Value(s[a..b]), text, s[R.Last(tail)..]))
    requires if p.Line? then tail[0] <= tail[1] && text == s[tail[0]..tail[1]] else text == ""
    ensures TailsAgree(p, s, i, [i, i, a, b, b + 1], ps, h)
  {
    hide Value, AllDigits, IsHit;
    var m := [i, i, a, b, b + 1] + tail;
    assert m[5..] == tail && R.Last(m) == R.Last(tail);
    HitOf(p, s, m, h.value);
  }

  lemma MatchUnfolds(p: N.Pattern, s: string)
    ensures N.Head(s).Some? ==>
              var k, rest := N.Head(s).value.number, N.Head(s).value.rest;
              var t := DropSpaces(rest);
              N.Match(p, s) ==
              match p {
                case Line => Some(N.Hit(k, t[..N.LineEnd(t)], t[N.LineEnd(t)..]))
                case Check => if rest == "" || !Space(rest[0]) then None else Some(N.Hit(k, "", rest[1..]))
                case Split => Some(N.Hit(k, "", t))
              }
  {
  }

  lemma HitOf(p: N.Pattern, s: string, m: seq<nat>, h: N.Hit)
    requires |m| == (if p.Line? then 7 else 6) && R.Within(m, 0, |s|) && m[2] <= m[3]
    requires AllDigits(s[m[2]..m[3]]) && h.number == Value(s[m[2]..m[3]]) && h.rest == s[R.Last(m)..]
    requires p.Line? ==> m[5] <= m[6] && h.text == s[m[5]..m[6]]
    requires !p.Line? ==> h.text == ""
    ensures IsHit(p, s, m, h)
  {
    hide Value, AllDigits;
  }

  lemma HeadEnds(s: string, i: nat)
    requires i <= |s| && HasHead(s, i)
    ensures i < HeadCuts(s, i).digits + 1 <= |s|
  {
  }

  lemma TailAt(p: N.Pattern, s: string, j: nat)
    requires j <= |s|
    ensures p.Line? ==>
              var c := R.Reach(Space, s, j);
              var t := DropSpaces(s[j..]);
              t[..N.LineEnd(t)] == s[c..R.Reach(InLine, s, c)] && t[N.LineEnd(t)..] == s[R.Reach(InLine, s, c)..]
    ensures p.Split? ==> DropSpaces(s[j..]) == s[R.Reach(Space, s, j)..]
    ensures p.Check? && j < |s| ==> s[j..][0] == s[j] && s[j..][1..] == s[j + 1..]
  {
    hide R.Reach, Space, DropSpaces, N.LineEnd;
    DropSpacesAt(s, j);
    if p.Line? { LineEndAt(s, R.Reach(Space, s, j)); }
  }

  /** What the parser finds is exactly what the pattern finds, match by match. */
  predicate AllHits(p: N.Pattern, s: string, ms: seq<seq<nat>>, hs: seq<N.Hit>) {
    |hs| == |ms| && forall x | 0 <= x < |ms| :: IsHit(p, s, ms[x], hs[x])
  }

  lemma {:induction false} FindAllIsAll(p: N.Pattern, s: string, i: nat)
    requires i <= |s|
    ensures AllHits(p, s, R.All(PatternOf(p), s, i), N.FindAll(p, s[i..], R.StartsLine(s, i)))
    decreases |s| - i
  {
    hide R.Try, R.All, R.Last, N.Match, N.FindAll, N.AtLineStart, IsHit, AllHits, PatternOf;
    var t := s[i..];
    N.FindAllUnfolds(p, t, R.StartsLine(s, i));
    R.AllUnfolds(PatternOf(p), s, i);
    if i < |s| {
      MatchAt(p, s, i);
      var m := R.Try(PatternOf(p), 0, s, i);
      if m.Some? {
        var e, h := R.Last(m.value), N.Match(p, t).value;
        RestStarts(p, s, i, m.value, h);
        FindAllIsAll(p, s, e);
        HitFirst(p, s, m.value, h, R.All(PatternOf(p), s, e), N.FindAll(p, s[e..], R.StartsLine(s, e)));
      } else {
        assert t[1..] == s[i + 1..] && t[0] == s[i];
        FindAllIsAll(p, s, i + 1);
      }
    } else {
      NoHits(p, s);
    }
  }

  lemma NoHits(p: N.Pattern, s: string)
    ensures AllHits(p, s, [], [])
  {
  }

  lemma HitFirst(p: N.Pattern, s: string, m: seq<nat>, h: N.Hit, ms: seq<seq<nat>>, hs: seq<N.Hit>)
    requires IsHit(p, s, m, h) && AllHits(p, s, ms, hs)
    ensures AllHits(p, s, [m] + ms, [h] + hs)
  {
    hide IsHit;
  }

  lemma RestStarts(p: N.Pattern, s: string, i: nat, m: seq<nat>, h: N.Hit)
    requires i <= |s| && IsHit(p, s, m, h) && i < R.Last(m) && |h.rest| < |s[i..]|
    ensures h.rest == s[R.Last(m)..] && N.AtLineStart(s[i..], h.rest) == R.StartsLine(s, R.Last(m))
  {
    hide Value;
  }

  /** What a split leaves between the matches. */
  predicate Between(s: string, i: nat, ms: seq<seq<nat>>, parts: N.Parts)
    requires i <= |s|
  {
    && i <= Begin(s, ms, 0) <= |s| && parts.before == s[i..Begin(s, ms, 0)]
    && |parts.items| == |ms|
    && forall x | 0 <= x < |ms| ::
         && |ms[x]| > 0 && R.Last(ms[x]) <= Begin(s, ms, x + 1) <= |s|
         && parts.items[x].1 == s[R.Last(ms[x])..Begin(s, ms, x + 1)]
  }

  function Begin(s: string, ms: seq<seq<nat>>, x: nat): nat {
    if x < |ms| && |ms[x]| > 0 then ms[x][0] else |s|
  }

  lemma {:induction false} SplitIsBetween(s: string, i: nat)
    requires i <= |s|
    ensures Between(s, i, R.All(PatternOf(N.Split), s, i), N.SplitAll(s[i..], R.StartsLine(s, i)))
    decreases |s| - i
  {
    hide R.Try, N.Match, N.SplitAll, IsHit, PatternOf, Between, R.Last;
    var t := s[i..];
    SplitUnfolds(t, R.StartsLine(s, i));
    if i < |s| {
      MatchAt(N.Split, s, i);
      var m := R.Try(PatternOf(N.Split), 0, s, i);
      if m.Some? {
        var e := R.Last(m.value);
        RestStarts(N.Split, s, i, m.value, N.Match(N.Split, t).value);
        SplitIsBetween(s, e);
        PutFirst(s, i, e, m.value, R.All(PatternOf(N.Split), s, e), N.SplitAll(s[e..], R.StartsLine(s, e)),
                 N.Match(N.Split, t).value.number);
      } else {
        assert t[1..] == s[i + 1..] && t[0] == s[i];
        SplitIsBetween(s, i + 1);
        OneMoreBefore(s, i, R.All(PatternOf(N.Split), s, i + 1), N.SplitAll(s[i + 1..], R.StartsLine(s, i + 1)));
      }
    } else {
      NothingBetween(s);
    }
  }

  lemma NothingBetween(s: string)
    ensures Between(s, |s|, [], N.Parts("", []))
  {
  }

  lemma OneMoreBefore(s: string, i: nat, ms: seq<seq<nat>>, tail: N.Parts)
    requires i < |s| && Between(s, i + 1, ms, tail)
    ensures Between(s, i, ms, N.Parts([s[i]] + tail.before, tail.items))
  {
    hide R.Last;
  }

  lemma PutFirst(s: string, i: nat, e: nat, m: seq<nat>, ms: seq<seq<nat>>, tail: N.Parts, k: nat)
    requires |m| > 0 && m[0] == i && R.Last(m) == e && i <= e <= |s| && Between(s, e, ms, tail)
    ensures Between(s, i, [m] + ms, N.Parts("", [(k, tail.before)] + tail.items))
  {
    hide R.Last, Begin;
    var all, items := [m] + ms, [(k, tail.before)] + tail.items;
    BeginLater(s, m, ms);
    forall x | 0 <= x < |all|
      ensures |all[x]| > 0 && R.Last(all[x]) <= Begin(s, all, x + 1) <= |s|
      ensures items[x].1 == s[R.Last(all[x])..Begin(s, all, x + 1)]
    {
      assert Begin(s, all, x + 1) == Begin(s, ms, x);
      if x > 0 { assert all[x] == ms[x - 1] && items[x] == tail.items[x - 1]; }
    }
    assert Begin(s, all, 0) == i && s[i..i] == "" && |items| == |all|;
  }

  lemma BeginLater(s: string, m: seq<nat>, ms: seq<seq<nat>>)
    requires |m| > 0
    ensures Begin(s, [m] + ms, 0) == m[0]
    ensures forall x: nat :: Begin(s, [m] + ms, x + 1) == Begin(s, ms, x)
  {
  }

  lemma SplitUnfolds(s: string, start: bool)
    ensures s == "" ==> N.SplitAll(s, start) == N.Parts("", [])
    ensures s != "" && (!start || N.Match(N.Split, s).None?) ==>
              var tail := N.SplitAll(s[1..], s[0] == '\n');
              N.SplitAll(s, start) == N.Parts([s[0]] + tail.before, tail.items)
    ensures start && N.Match(N.Split, s).Some? ==>
              var h := N.Match(N.Split, s).value;
              var tail := N.SplitAll(h.rest, N.AtLineStart(s, h.rest));
              N.SplitAll(s, start) == N.Parts("", [(h.number, tail.before)] + tail.items)
  {
  }

  /** The parser's searches are the patterns: all matches of each in order with their number
      and text, and what the split leaves between two of them. */
  lemma SearchesThePatterns(s: string)
    ensures forall p: N.Pattern :: AllHits(p, s, R.All(PatternOf(p), s, 0), N.FindAll(p, s, true))
    ensures Between(s, 0, R.All(PatternOf(N.Split), s, 0), N.SplitAll(s, true))
  {
    hide R.All, N.FindAll, N.SplitAll, IsHit, PatternOf;
    assert s[0..] == s;
    forall p: N.Pattern
      ensures AllHits(p, s, R.All(PatternOf(p), s, 0), N.FindAll(p, s, true))
    {
      FindAllIsAll(p, s, 0);
    }
    SplitIsBetween(s, 0);
  }
}
