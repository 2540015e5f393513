/** Why the line named by the last printed number is the one a cut answer leaves unfinished:
    whatever more text would have followed on the same line, no other line changes
    (remote_worker/prompt/parser.py). */
module UnfinishedAnswer {
  import opened Bytes
  import opened Text
  import opened NumberedAnswer
  import opened Provenance

  /** Nothing but white space and digits: more text could make a new number of it. */
  predicate Unfinished(s: string) {
    DigitRun(DropSpaces(s)) == |DropSpaces(s)|
  }

  /** At no line start is the rest of the answer an unfinished number. */
  predicate Settled(s: string, start: bool) {
    (start ==> !Unfinished(s)) && (s != "" ==> Settled(s[1..], s[0] == NEWLINE))
  }

  lemma {:induction false} SettledLater(s: string, start: bool, n: nat)
    requires Settled(s, start) && 0 < n <= |s|
    ensures Settled(s[n..], s[n - 1] == NEWLINE)
    decreases n
  {
    hide Unfinished;
    if n > 1 {
      SettledLater(s[1..], s[0] == NEWLINE, n - 1);
      assert s[1..][n - 1..] == s[n..];
    }
  }

  // ── The pieces of a match with more text behind ─────────────────────────────

  lemma {:induction false} DropSpacesGrows(s: string, more: string)
    ensures DropSpaces(s) == s[|s| - |DropSpaces(s)|..]
    ensures DropSpaces(s + more) == if DropSpaces(s) != "" then DropSpaces(s) + more else DropSpaces(more)
  {
    hide Space;
    if s == "" {
      assert s + more == more;
    } else {
      assert (s + more)[1..] == s[1..] + more;
      DropSpacesGrows(s[1..], more);
    }
  }

  lemma {:induction false} DigitRunGrows(s: string, more: string)
    requires DigitRun(s) < |s|
    ensures DigitRun(s + more) == DigitRun(s)
  {
    assert (s + more)[1..] == s[1..] + more;
    if Digit(s[0]) { DigitRunGrows(s[1..], more); }
  }

  lemma {:induction false} LineEndGrows(s: string, more: string)
    requires NEWLINE !in more
    ensures LineEnd(s + more) == if LineEnd(s) < |s| then LineEnd(s) else |s + more|
  {
    if s == "" {
      assert s + more == more;
      NoLineEnd(more);
    } else {
      assert (s + more)[1..] == s[1..] + more;
      LineEndGrows(s[1..], more);
    }
  }

  lemma {:induction false} NoLineEnd(more: string)
    requires NEWLINE !in more
    ensures LineEnd(more) == |more|
  {
    if more != "" { NoLineEnd(more[1..]); }
  }

  lemma HeadGrows(s: string, more: string)
    requires !Unfinished(s)
    ensures Head(s + more) == match Head(s) {
              case None => None
              case Some(m) => Some(Mark(m.number, m.rest + more))
            }
  {
    hide DropSpaces, DigitRun, Value;
    var t := DropSpaces(s);
    DropSpacesGrows(s, more);
    DigitRunGrows(t, more);
    var d := DigitRun(t);
    assert (t + more)[..d] == t[..d];
    assert (t + more)[d] == t[d] && (t + more)[d + 1..] == t[d + 1..] + more;
  }

  lemma MatchedIsFinished(p: Pattern, s: string)
    requires Match(p, s).Some?
    ensures !Unfinished(s) && Head(s).Some?
  {
    hide DropSpaces, DigitRun, Value, LineEnd;
  }

  /** A match that ends before the answer does is the same with more text behind; one that
      reaches the end still does. */
  lemma LineGrows(s: string, more: string)
    requires NEWLINE !in more && Match(Line, s).Some?
    ensures Match(Line, s + more).Some?
    ensures var h, g := Match(Line, s).value, Match(Line, s + more).value;
            && g.number == h.number
            && (h.rest != "" ==> g.text == h.text && g.rest == h.rest + more)
            && (h.rest == "" ==> g.rest == "")
  {
    hide DropSpaces, LineEnd, Head, Unfinished;
    MatchedIsFinished(Line, s);
    HeadGrows(s, more);
    var rest := Head(s).value.rest;
    var t := DropSpaces(rest);
    DropSpacesGrows(rest, more);
    if t != "" {
      LineEndGrows(t, more);
      var e := LineEnd(t);
      assert (t + more)[..e] == t[..e] && (t + more)[e..] == t[e..] + more;
    } else {
      DropSpacesGrows(more, "");
      NoLineEnd(DropSpaces(more));
    }
  }

  lemma SplitGrows(s: string, more: string)
    requires Match(Split, s).Some?
    ensures Match(Split, s + more).Some?
    ensures var h, g := Match(Split, s).value, Match(Split, s + more).value;
            g.number == h.number && g.rest == if h.rest != "" then h.rest + more else DropSpaces(more)
  {
    hide DropSpaces, Head, Unfinished;
    MatchedIsFinished(Split, s);
    HeadGrows(s, more);
    DropSpacesGrows(Head(s).value.rest, more);
  }

  lemma NoMatchGrows(p: Pattern, s: string, more: string)
    requires !Unfinished(s) && !p.Check? && Match(p, s).None?
    ensures Match(p, s + more).None?
  {
    hide DropSpaces, LineEnd, Head, Unfinished;
    HeadGrows(s, more);
  }

  lemma HeadIsTail(s: string)
    requires Head(s).Some?
    ensures var r := Head(s).value.rest; r == s[|s| - |r|..]
  {
    hide DropSpaces, DigitRun, Value;
    var t := DropSpaces(s);
    DropSpacesGrows(s, "");
    TailOfTail(s, t, t[DigitRun(t) + 1..]);
  }

  /** What is left behind a match is the end of the text. */
  lemma RestIsTail(p: Pattern, s: string)
    requires !p.Check? && Match(p, s).Some?
    ensures var rest := Match(p, s).value.rest; rest == s[|s| - |rest|..]
  {
    hide DropSpaces, LineEnd, Head;
    var r := Head(s).value.rest;
    var u := DropSpaces(r);
    HeadIsTail(s);
    DropSpacesGrows(r, "");
    TailOfTail(s, r, u);
    if p.Line? { TailOfTail(s, u, u[LineEnd(u)..]); }
  }

  lemma TailOfTail(s: string, t: string, u: string)
    requires |u| <= |t| <= |s| && t == s[|s| - |t|..] && u == t[|t| - |u|..]
    ensures u == s[|s| - |u|..]
  {
  }

  // ── All matches ─────────────────────────────────────────────────────────────

  /** The same numbers, and the same texts but for the last. */
  predicate SameButLast(a: seq<Hit>, b: seq<Hit>) {
    && |a| == |b| && (forall i | 0 <= i < |a| :: a[i].number == b[i].number)
    && forall i | 0 <= i < |a| - 1 :: a[i].text == b[i].text
  }

  lemma {:induction false} HitsGrow(s: string, start: bool, more: string)
    requires Settled(s, start) && NEWLINE !in more
    ensures SameButLast(FindAll(Line, s, start), FindAll(Line, s + more, start))
    decreases |s|
  {
    hide FindAll, Match, Unfinished;
    FindAllUnfolds(Line, s, start);
    FindAllUnfolds(Line, s + more, start);
    if s == "" {
      UnfinishedNothing();
      NothingInside(Line, more, "");
      assert s + more == more + "";
    } else if start && Match(Line, s).Some? {
      HitGrows(s, more);
    } else {
      if start { NoMatchGrows(Line, s, more); }
      assert (s + more)[1..] == s[1..] + more;
      HitsGrow(s[1..], s[0] == NEWLINE, more);
    }
  }

  lemma UnfinishedNothing()
    ensures Unfinished("")
  {
  }

  lemma HitGrows(s: string, more: string)
    requires Settled(s, true) && NEWLINE !in more && s != "" && Match(Line, s).Some?
    ensures SameButLast(FindAll(Line, s, true), FindAll(Line, s + more, true))
    decreases |s|, 0
  {
    hide FindAll, Match, Unfinished, Settled;
    FindAllUnfolds(Line, s, true);
    FindAllUnfolds(Line, s + more, true);
    LineGrows(s, more);
    var h, g := Match(Line, s).value, Match(Line, s + more).value;
    if h.rest == "" {
      FindAllUnfolds(Line, "", AtLineStart(s, ""));
      FindAllUnfolds(Line, "", AtLineStart(s + more, ""));
    } else {
      RestIsTail(Line, s);
      SettledLater(s, true, |s| - |h.rest|);
      HitsGrow(h.rest, AtLineStart(s, h.rest), more);
      assert AtLineStart(s + more, h.rest + more) == AtLineStart(s, h.rest);
    }
  }

  /** What the split leaves: the same numbers, and the same texts but for the last piece. */
  predicate SameParts(a: Parts, b: Parts) {
    && |a.items| == |b.items| && (a.items != [] ==> a.before == b.before)
    && (forall i | 0 <= i < |a.items| :: a.items[i].0 == b.items[i].0)
    && forall i | 0 <= i < |a.items| - 1 :: a.items[i].1 == b.items[i].1
  }

  lemma SplitAllUnfolds(s: string, start: bool)
    ensures s == "" ==> SplitAll(s, start) == Parts("", [])
    ensures s != "" && (!start || Match(Split, s).None?) ==>
              var tail := SplitAll(s[1..], s[0] == NEWLINE);
              SplitAll(s, start) == Parts([s[0]] + tail.before, tail.items)
    ensures start && Match(Split, s).Some? ==>
              var h := Match(Split, s).value;
              var tail := SplitAll(h.rest, AtLineStart(s, h.rest));
              SplitAll(s, start) == Parts("", [(h.number, tail.before)] + tail.items)
  {
  }

  lemma {:induction false} NothingSplits(e: string)
    requires NEWLINE !in e
    ensures SplitAll(e, false).items == []
  {
    hide SplitAll, Match;
    SplitAllUnfolds(e, false);
    if e != "" { NothingSplits(e[1..]); }
  }

  lemma {:induction false} PartsGrow(s: string, start: bool, more: string)
    requires Settled(s, start) && NEWLINE !in more
    ensures SameParts(SplitAll(s, start), SplitAll(s + more, start))
    decreases |s|
  {
    hide SplitAll, Match, Unfinished;
    SplitAllUnfolds(s, start);
    SplitAllUnfolds(s + more, start);
    if s == "" {
      UnfinishedNothing();
      NothingSplits(more);
      assert s + more == more;
    } else if start && Match(Split, s).Some? {
      PartGrows(s, more);
    } else {
      if start { NoMatchGrows(Split, s, more); }
      assert (s + more)[1..] == s[1..] + more;
      PartsGrow(s[1..], s[0] == NEWLINE, more);
    }
  }

  lemma PartGrows(s: string, more: string)
    requires Settled(s, true) && NEWLINE !in more && s != "" && Match(Split, s).Some?
    ensures SameParts(SplitAll(s, true), SplitAll(s + more, true))
    decreases |s|, 0
  {
    hide SplitAll, Match, Unfinished, Settled, DropSpaces;
    SplitAllUnfolds(s, true);
    SplitAllUnfolds(s + more, true);
    SplitGrows(s, more);
    var h, g := Match(Split, s).value, Match(Split, s + more).value;
    RestIsTail(Split, s);
    SettledLater(s, true, |s| - |h.rest|);
    if h.rest == "" {
      SplitAllUnfolds("", AtLineStart(s, ""));
      LastPieceGrows(s, more);
    } else {
      PartsGrow(h.rest, AtLineStart(s, h.rest), more);
      assert AtLineStart(s + more, h.rest + more) == AtLineStart(s, h.rest);
    }
  }

  lemma LastPieceGrows(s: string, more: string)
    requires s != "" && NEWLINE !in more && Settled("", s[|s| - 1] == NEWLINE)
    requires |DropSpaces(more)| < |s + more|
    ensures SplitAll(DropSpaces(more), AtLineStart(s + more, DropSpaces(more))).items == []
  {
    hide SplitAll, DropSpaces;
    UnfinishedNothing();
    var u := DropSpaces(more);
    DropSpacesGrows(more, "");
    assert |u| < |more| ==> (s + more)[|s + more| - |u| - 1] == more[|more| - |u| - 1];
    assert |u| == |more| ==> (s + more)[|s + more| - |u| - 1] == s[|s| - 1];
    assert !AtLineStart(s + more, u);
    NothingSplits(u);
  }

  // ── The lines of the batch ──────────────────────────────────────────────────

  lemma {:induction false} FirstAmongGrows(a: seq<Hit>, b: seq<Hit>, j: nat, n: nat)
    requires SameButLast(a, b) && j <= |a|
    ensures FirstAmong(a, j, n).Keys == FirstAmong(b, j, n).Keys
    ensures j < |a| ==> FirstAmong(a, j, n) == FirstAmong(b, j, n)
    ensures forall k | k in FirstAmong(a, j, n) && (j == |a| > 0 && k == a[j - 1].number ==> k in FirstAmong(a, j - 1, n)) ::
              FirstAmong(a, j, n)[k] == FirstAmong(b, j, n)[k]
  {
    hide Strip;
    if j > 0 { FirstAmongGrows(a, b, j - 1, n); }
  }

  lemma {:induction false} LastAmongGrows(a: Parts, b: Parts, j: nat, n: nat)
    requires SameParts(a, b) && j <= |a.items|
    ensures LastAmong(a.items, j, n).Keys == LastAmong(b.items, j, n).Keys
    ensures j < |a.items| ==> LastAmong(a.items, j, n) == LastAmong(b.items, j, n)
    ensures forall k | k in LastAmong(a.items, j, n) && (j == |a.items| > 0 ==> k != a.items[j - 1].0) ::
              LastAmong(a.items, j, n)[k] == LastAmong(b.items, j, n)[k]
  {
    hide Strip;
    if j > 0 { LastAmongGrows(a, b, j - 1, n); }
  }

  lemma SameKeysSameSize(a: Texts, b: Texts)
    requires a.Keys == b.Keys
    ensures |a| == |b|
  {
    assert |a| == |a.Keys| && |b| == |b.Keys|;
  }

  /** Only the text under the number of the cut place can change. */
  lemma FoundGrows(raw: string, more: string, n: nat, k: nat)
    requires Settled(raw, true) && NEWLINE !in more && 1 <= k <= n
    requires CutPlaceOf(raw, n) != Some(k - 1)
    ensures k in Found(raw, n) <==> k in Found(raw + more, n)
    ensures k in Found(raw, n) ==> Found(raw, n)[k] == Found(raw + more, n)[k]
  {
    hide FindAll, SplitAll, FirstAmong, LastAmong, Settled, SameButLast, SameParts;
    HitsGrow(raw, true, more);
    PartsGrow(raw, true, more);
    var a, b := FindAll(Line, raw, true), FindAll(Line, raw + more, true);
    var c, d := SplitAll(raw, true), SplitAll(raw + more, true);
    Sizes(a, b, c, d);
    FirstAmongGrows(a, b, |a|, n);
    LastAmongGrows(c, d, |c.items|, n);
    SameKeysSameSize(FirstWins(a, n), FirstWins(b, n));
  }

  lemma Sizes(a: seq<Hit>, b: seq<Hit>, c: Parts, d: Parts)
    requires SameButLast(a, b) && SameParts(c, d)
    ensures |a| == |b| && |c.items| == |d.items|
  {
  }

  /** An answer that ends at the ceiling: whatever text would still have followed on its
      last line, every line of the batch but the cut one is as it would have been. */
  lemma OnlyTheCutLineGrows(answer: string, more: string, n: nat, j: nat)
    requires !Contains(answer, THINK_END) && !Contains(answer + more, THINK_END)
    requires Trimmed(answer) && Trimmed(answer + more) && NEWLINE !in more
    requires Settled(answer, true) && j < n && CutPlace(answer, n) != Some(j)
    ensures Parse(answer + more, n)[j] == Parse(answer, n)[j]
  {
    hide StripThinking, Strip, Found, Decode, Settled, CutPlaceOf, CutPlace, Parse, Listed;
    Bare(answer);
    Bare(answer + more);
    PlaceOfBare(answer, n);
    ParseOfBare(answer, n, j);
    ParseOfBare(answer + more, n, j);
    FoundGrows(answer, more, n, j + 1);
    NotEmpty(answer);
  }

  lemma Bare(answer: string)
    requires !Contains(answer, THINK_END) && Trimmed(answer)
    ensures StripThinking(answer) == answer && Strip(answer) == answer
  {
    hide Contains;
    StripOfTrimmed(answer);
  }

  lemma NotEmpty(answer: string)
    requires Settled(answer, true)
    ensures answer != ""
  {
    UnfinishedNothing();
  }

  lemma ParseOfBare(answer: string, n: nat, j: nat)
    requires StripThinking(answer) == answer && Strip(answer) == answer && j < n
    ensures Listed(Found(answer, n), n)[j] == Decode(if j + 1 in Found(answer, n) then Found(answer, n)[j + 1] else "")
    ensures Parse(answer, n)[j] ==
            if n == 1 && Listed(Found(answer, n), n)[0] == "" && answer != "" then Decode(answer)
            else Listed(Found(answer, n), n)[j]
  {
    hide Found, Decode, StripThinking, Strip;
  }

  lemma PlaceOfBare(answer: string, n: nat)
    requires StripThinking(answer) == answer && Strip(answer) == answer
    ensures CutPlace(answer, n) ==
            if n == 1 && Listed(Found(answer, n), n)[0] == "" && answer != "" then Some(0) else CutPlaceOf(answer, n)
  {
    hide Found, Decode, StripThinking, Strip, CutPlaceOf, Listed;
  }
}
