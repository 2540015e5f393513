/** Numbered lists as the model prints them and as the agent reads them back
    (remote_worker/prompt/parser.py, remote_worker/prompt/builder.py). */
module NumberedAnswer {
  import opened Bytes
  import opened Text

  /** How many digits s starts with. */
  function DigitRun(s: string): (d: nat)
    ensures d <= |s| && AllDigits(s[..d])
    ensures d < |s| ==> !Digit(s[d])
  {
    if s == "" || !Digit(s[0]) then 0
    else
      var d := 1 + DigitRun(s[1..]);
      assert s[..d] == [s[0]] + s[1..][..d - 1];
      d
  }

  /** The end of the line s starts in. */
  function LineEnd(s: string): (e: nat)
    ensures e <= |s| && NEWLINE !in s[..e]
    ensures e < |s| ==> s[e] == NEWLINE
  {
    if s == "" || s[0] == NEWLINE then 0
    else
      var e := 1 + LineEnd(s[1..]);
      assert s[..e] == [s[0]] + s[1..][..e - 1];
      e
  }

  // ── The printer ─────────────────────────────────────────────────────────────

  const MARKER := "⟨NL⟩"

  /** A text on one line: CR dropped, newlines marked. */
  function OneLine(t: string): string {
    if t == "" then ""
    else (if t[0] == '\r' then "" else if t[0] == NEWLINE then MARKER else [t[0]]) + OneLine(t[1..])
  }

  function Entry(k: nat, t: string): string {
    Digits(k) + ". " + OneLine(t)
  }

  /** The texts as a numbered list, counting from k. */
  function Numbered(ts: seq<string>, k: nat): string {
    if ts == [] then ""
    else if |ts| == 1 then Entry(k, ts[0])
    else Entry(k, ts[0]) + [NEWLINE] + Numbered(ts[1..], k + 1)
  }

  // ── The three patterns ──────────────────────────────────────────────────────

  /** The number at the start of s, behind white space, and what follows its '.' or ')'.
      No other way to match exists: white space and digits exclude each other, so both
      runs have to be taken whole. */
  datatype Mark = Mark(number: nat, rest: string)

  function Head(s: string): (m: Option<Mark>)
    ensures m.Some? ==> |m.value.rest| < |s|
  {
    var t := DropSpaces(s);
    var d := DigitRun(t);
    if d == 0 || d == |t| || (t[d] != '.' && t[d] != ')') then None
    else Some(Mark(Value(t[..d]), t[d + 1..]))
  }

  /** One match: the number, the captured text and the rest of the input. */
  datatype Hit = Hit(number: nat, text: string, rest: string)

  /** Line: number, white space, the rest of the line. Check: number and one white-space
      character. Split: number and all white space. */
  datatype Pattern = Line | Check | Split

  function Match(p: Pattern, s: string): (h: Option<Hit>)
    ensures h.Some? ==> |h.value.rest| < |s|
  {
    var m := Head(s);
    if m.None? then None else
    var rest := m.value.rest;
    match p
    case Line =>
      var t := DropSpaces(rest);
      Some(Hit(m.value.number, t[..LineEnd(t)], t[LineEnd(t)..]))
    case Check =>
      if rest == "" || !Space(rest[0]) then None else Some(Hit(m.value.number, "", rest[1..]))
    case Split =>
      Some(Hit(m.value.number, "", DropSpaces(rest)))
  }

  /** Whether a line starts behind what has been read of s. */
  predicate AtLineStart(s: string, rest: string)
    requires |rest| < |s|
  {
    s[|s| - |rest| - 1] == NEWLINE
  }

  /** All matches of a pattern from left to right; `start`: a line starts here. */
  function FindAll(p: Pattern, s: string, start: bool): seq<Hit>
    decreases |s|
  {
    if s == "" then []
    else
      var h := Match(p, s);
      if start && h.Some? then [h.value] + FindAll(p, h.value.rest, AtLineStart(s, h.value.rest))
      else FindAll(p, s[1..], s[0] == NEWLINE)
  }

  /** What a split leaves: the text before the first number, and behind every number the
      text up to the next. */
  datatype Parts = Parts(before: string, items: seq<(nat, string)>)

  function SplitAll(s: string, start: bool): Parts
    decreases |s|
  {
    if s == "" then Parts("", [])
    else
      var h := Match(Split, s);
      if start && h.Some? then
        var tail := SplitAll(h.value.rest, AtLineStart(s, h.value.rest));
        Parts("", [(h.value.number, tail.before)] + tail.items)
      else
        var tail := SplitAll(s[1..], s[0] == NEWLINE);
        Parts([s[0]] + tail.before, tail.items)
  }

  // ── The parser ──────────────────────────────────────────────────────────────

  const THINK_END := "</think>"
  const THINK_START := "<think>"

  /** Where a part first occurs. */
  function FirstOf(s: string, part: string): (i: nat)
    requires Contains(s, part)
    ensures i + |part| <= |s| && part <= s[i..]
    ensures forall j | 0 <= j < i :: !(part <= s[j..])
  {
    if part <= s then 0
    else
      var i := 1 + FirstOf(s[1..], part);
      assert forall j | 1 <= j < i :: s[j..] == s[1..][j - 1..];
      i
  }

  /** Everything behind the last end of thinking. */
  function AfterThinking(s: string): (r: string)
    ensures !Contains(r, THINK_END)
    ensures !Contains(s, THINK_END) ==> r == s
    decreases |s|
  {
    if Contains(s, THINK_END) then AfterThinking(s[FirstOf(s, THINK_END) + |THINK_END|..]) else s
  }

  /** Thinking blocks cut out, each up to the nearest end. */
  function WithoutBlocks(s: string): (r: string)
    ensures !Contains(s, THINK_END) ==> r == s
    decreases |s|
  {
    if s == "" then ""
    else if THINK_START <= s && Contains(s[|THINK_START|..], THINK_END) then
      var body := s[|THINK_START|..];
      ContainsLater(s, |THINK_START|, THINK_END);
      WithoutBlocks(body[FirstOf(body, THINK_END) + |THINK_END|..])
    else [s[0]] + WithoutBlocks(s[1..])
  }

  function StripThinking(raw: string): string {
    WithoutBlocks(AfterThinking(raw))
  }

  lemma EndAgain(s: string, i: nat, j: nat)
    requires i < j <= |s| && THINK_END <= s[i..] && THINK_END <= s[j..]
    ensures i + |THINK_END| <= j
  {
    assert s[j] == s[j..][0] && forall k | 0 <= k < |THINK_END| :: s[i + k] == s[i..][k];
  }

  /** What stands behind the last end of thinking is all that is read. */
  lemma {:induction false} ThinkingIsDropped(t: string, a: string)
    requires !Contains(a, THINK_END)
    ensures StripThinking(t + THINK_END + a) == a
    decreases |t|
  {
    hide WithoutBlocks, FirstOf, Contains;
    var s := t + THINK_END + a;
    assert s[|t|..] == THINK_END + a;
    PrefixIsContained(s[|t|..], THINK_END);
    ContainsLater(s, |t|, THINK_END);
    AfterThinkingUnfolds(s);
    var i := FirstOf(s, THINK_END);
    assert i <= |t|;
    if i < |t| {
      EndAgain(s, i, |t|);
      var rest := t[i + |THINK_END|..];
      assert s[i + |THINK_END|..] == rest + THINK_END + a;
      ThinkingIsDropped(rest, a);
      StripUnfolds(rest + THINK_END + a);
    } else {
      assert s[i + |THINK_END|..] == a;
    }
    StripUnfolds(s);
  }

  lemma PrefixIsContained(s: string, part: string)
    requires part <= s
    ensures Contains(s, part)
  {
  }

  lemma AfterThinkingUnfolds(s: string)
    requires Contains(s, THINK_END)
    ensures AfterThinking(s) == AfterThinking(s[FirstOf(s, THINK_END) + |THINK_END|..])
  {
  }

  /** With the part behind the last end there is no end left, so no block is left to cut. */
  lemma StripUnfolds(s: string)
    ensures StripThinking(s) == AfterThinking(s)
  {
  }

  type Texts = map<nat, string>

  /** Among the first j matches the first text wins under every number from 1 to n. */
  function FirstAmong(hits: seq<Hit>, j: nat, n: nat): (m: Texts)
    requires j <= |hits|
    ensures forall k | k in m :: 1 <= k <= n
  {
    if j == 0 then map[] else
    var h, m := hits[j - 1], FirstAmong(hits, j - 1, n);
    if 1 <= h.number <= n && h.number !in m then m[h.number := Strip(h.text)] else m
  }

  function FirstWins(hits: seq<Hit>, n: nat): Texts {
    FirstAmong(hits, |hits|, n)
  }

  /** Among the first j pieces the last text wins. */
  function LastAmong(items: seq<(nat, string)>, j: nat, n: nat): (m: Texts)
    requires j <= |items|
    ensures forall k | k in m :: 1 <= k <= n
  {
    if j == 0 then map[] else
    var (k, text) := items[j - 1];
    var m := LastAmong(items, j - 1, n);
    if 1 <= k <= n then m[k := Strip(text)] else m
  }

  function LastWins(items: seq<(nat, string)>, n: nat): Texts {
    LastAmong(items, |items|, n)
  }

  /** Markers back to newlines. */
  function Decode(s: string): string {
    if MARKER <= s then [NEWLINE] + Decode(s[|MARKER|..])
    else if s == "" then ""
    else [s[0]] + Decode(s[1..])
  }

  function Listed(m: Texts, n: nat): (r: seq<string>)
    ensures |r| == n
    ensures forall i | 0 <= i < n :: r[i] == Decode(if i + 1 in m then m[i + 1] else "")
  {
    seq(n, i requires 0 <= i < n => Decode(if i + 1 in m then m[i + 1] else ""))
  }

  /** The numbered texts found, by the fallback when the first way leaves a gap. */
  function Found(raw: string, n: nat): Texts {
    var m := FirstWins(FindAll(Line, raw, true), n);
    if |m| < n then LastWins(SplitAll(raw, true).items, n) else m
  }

  function Parse(answer: string, n: nat): (r: seq<string>)
    ensures |r| == n
  {
    var raw := Strip(StripThinking(answer));
    var r := Listed(Found(raw, n), n);
    if n == 1 && r[0] == "" && raw != "" then [Decode(raw)] else r
  }

  predicate ExtraItems(answer: string, n: nat) {
    exists h | h in FindAll(Check, StripThinking(answer), true) :: h.number > n
  }

  predicate Blank(t: string) {
    Strip(t) == ""
  }

  /** Whether an answer to a batch of n lines is laid out by position. */
  predicate Accepted(answer: string, n: nat) {
    n > 1 ==> !ExtraItems(answer, n) && forall t | t in Parse(answer, n) :: !Blank(t)
  }

  // ── Marking newlines is undone ──────────────────────────────────────────────

  /** A text the printer keeps whole: no CR and no literal marker. */
  predicate Plain(t: string) {
    '\r' !in t && !Contains(t, MARKER)
  }

  lemma PlainTail(t: string)
    requires t != "" && Plain(t)
    ensures Plain(t[1..])
  {
  }

  /** The first three characters behind a marked newline are never the rest of a marker. */
  lemma {:induction false} PrefixOfOneLine(t: string, n: nat, w: string)
    requires |w| == n && n <= |OneLine(t)| && OneLine(t)[..n] == w && '\r' !in t && MARKER[0] !in w
    ensures n <= |t| && t[..n] == w
    decreases n
  {
    if n > 0 {
      assert OneLine(t)[0] == w[0] && w[0] in w;
      assert OneLine(t)[1..] == OneLine(t[1..]);
      assert OneLine(t[1..])[..n - 1] == OneLine(t)[..n][1..];
      PrefixOfOneLine(t[1..], n - 1, w[1..]);
      assert t[..n] == [t[0]] + t[1..][..n - 1];
    }
  }

  lemma {:induction false} MarksAreUndone(t: string)
    requires Plain(t)
    ensures Decode(OneLine(t)) == t
  {
    if t != "" {
      PlainTail(t);
      MarksAreUndone(t[1..]);
      var s := OneLine(t);
      if t[0] == NEWLINE {
        assert s[|MARKER|..] == OneLine(t[1..]);
      } else {
        assert s[1..] == OneLine(t[1..]);
        NoMarkerMade(t);
        assert Contains(t, MARKER) || !(MARKER <= s);
      }
    }
  }

  function WithoutReturns(t: string): (r: string)
    ensures '\r' !in r && ('\r' !in t ==> r == t)
  {
    if t == "" then "" else if t[0] == '\r' then WithoutReturns(t[1..]) else [t[0]] + WithoutReturns(t[1..])
  }

  lemma {:induction false} ReturnsAreDropped(t: string)
    ensures OneLine(t) == OneLine(WithoutReturns(t))
  {
    if t != "" {
      ReturnsAreDropped(t[1..]);
      if t[0] != '\r' { assert WithoutReturns(t)[1..] == WithoutReturns(t[1..]); }
    }
  }

  /** A text comes back from its line without its carriage returns. */
  lemma DecodeOfOneLine(t: string)
    requires !Contains(WithoutReturns(t), MARKER)
    ensures Decode(OneLine(t)) == WithoutReturns(t)
  {
    ReturnsAreDropped(t);
    MarksAreUndone(WithoutReturns(t));
  }

  lemma NoMarkerMade(t: string)
    requires t != "" && t[0] != NEWLINE && '\r' !in t
    ensures MARKER <= OneLine(t) ==> MARKER <= t
  {
    var s := OneLine(t);
    if MARKER <= s {
      assert s[1..] == OneLine(t[1..]);
      assert s[1..][..3] == s[..4][1..] == MARKER[1..];
      PrefixOfOneLine(t[1..], 3, MARKER[1..]);
      assert t[..4] == [t[0]] + t[1..][..3];
    }
  }

  // ── Reading what was printed ────────────────────────────────────────────────

  /** An item of the list: trimmed, not blank, without CR and literal marker. */
  predicate Proper(t: string) {
    t != "" && Trimmed(t) && Plain(t)
  }

  /** The line of a proper item: no newline in it, no white space around it. */
  lemma {:induction false} OneLineIsOneLine(t: string)
    requires '\r' !in t
    ensures NEWLINE !in OneLine(t)
    ensures t != "" ==> OneLine(t) != ""
    ensures t != "" && !Space(t[0]) ==> !Space(OneLine(t)[0])
    ensures t != "" && !Space(t[|t| - 1]) ==> !Space(OneLine(t)[|OneLine(t)| - 1])
  {
    if t != "" { OneLineIsOneLine(t[1..]); }
  }

  lemma {:induction false} DigitRunOf(d: string, rest: string)
    requires AllDigits(d) && (rest == "" || !Digit(rest[0]))
    ensures DigitRun(d + rest) == |d|
  {
    if d != "" {
      assert (d + rest)[1..] == d[1..] + rest;
      DigitRunOf(d[1..], rest);
    } else {
      assert d + rest == rest;
    }
  }

  lemma {:induction false} LineEndOf(e: string, tail: string)
    requires NEWLINE !in e && (tail == "" || tail[0] == NEWLINE)
    ensures LineEnd(e + tail) == |e|
  {
    if e != "" {
      assert (e + tail)[1..] == e[1..] + tail;
      LineEndOf(e[1..], tail);
    } else {
      assert e + tail == tail;
    }
  }

  lemma HeadOf(k: nat, rest: string)
    ensures Head(Digits(k) + "." + rest) == Some(Mark(k, rest))
  {
    hide Value, Digits, Head, DigitRun;
    var d := Digits(k);
    var s := d + "." + rest;
    assert s[0] == d[0] && d[0] in d;
    assert s == d + ("." + rest);
    DigitRunOf(d, "." + rest);
    assert s[..|d|] == d && s[|d| + 1..] == rest;
    ValueOfDigits(k);
    HeadUnfolds(s);
  }

  lemma HeadUnfolds(s: string)
    requires s != "" && !Space(s[0]) && 0 < DigitRun(s) < |s| && s[DigitRun(s)] == '.'
    ensures Head(s) == Some(Mark(Value(s[..DigitRun(s)]), s[DigitRun(s) + 1..]))
  {
  }

  /** A line as printed: number, point, blank, the text e; and what follows the line. */
  function Printed(k: nat, e: string, tail: string): string {
    Digits(k) + "." + (" " + (e + tail))
  }

  predicate Clean(e: string, tail: string) {
    && e != "" && NEWLINE !in e && !Space(e[0])
    && (tail == "" || tail[0] == NEWLINE)
  }

  lemma MatchOf(p: Pattern, k: nat, e: string, tail: string)
    requires Clean(e, tail)
    ensures Match(p, Printed(k, e, tail))
            == Some(if p.Line? then Hit(k, e, tail) else Hit(k, "", e + tail))
    ensures |e + tail| < |Printed(k, e, tail)| && !AtLineStart(Printed(k, e, tail), e + tail)
    ensures |tail| < |Printed(k, e, tail)| && !AtLineStart(Printed(k, e, tail), tail)
  {
    hide Head, Digits, LineEnd, DropSpaces;
    var rest := " " + (e + tail);
    HeadOf(k, rest);
    OneBlank(e, tail);
    LineEndOf(e, tail);
    assert (e + tail)[..|e|] == e && (e + tail)[|e|..] == tail;
    NoLineStarts(k, e, tail);
  }

  lemma OneBlank(e: string, tail: string)
    requires Clean(e, tail)
    ensures DropSpaces(" " + (e + tail)) == e + tail
    ensures (" " + (e + tail))[1..] == e + tail && Space(' ')
  {
    assert (" " + (e + tail))[1..] == e + tail && (e + tail)[0] == e[0];
  }

  lemma NoLineStarts(k: nat, e: string, tail: string)
    requires Clean(e, tail)
    ensures |e + tail| < |Printed(k, e, tail)| && !AtLineStart(Printed(k, e, tail), e + tail)
    ensures |tail| < |Printed(k, e, tail)| && !AtLineStart(Printed(k, e, tail), tail)
  {
    hide Digits;
    var s := Printed(k, e, tail);
    assert s[|s| - |e + tail| - 1] == ' ';
    assert s[|s| - |tail| - 1] == e[|e| - 1] && e[|e| - 1] in e;
  }

  lemma FindAllUnfolds(p: Pattern, s: string, start: bool)
    ensures s == "" ==> FindAll(p, s, start) == []
    ensures s != "" && (!start || Match(p, s).None?) ==>
              FindAll(p, s, start) == FindAll(p, s[1..], s[0] == NEWLINE)
    ensures start && Match(p, s).Some? ==>
              var h := Match(p, s).value;
              FindAll(p, s, start) == [h] + FindAll(p, h.rest, AtLineStart(s, h.rest))
  {
  }

  /** Inside a line nothing matches. */
  lemma {:induction false} NothingInside(p: Pattern, e: string, tail: string)
    requires NEWLINE !in e
    ensures FindAll(p, e + tail, false) == FindAll(p, tail, false)
  {
    hide Match, FindAll;
    if e != "" {
      assert (e + tail)[1..] == e[1..] + tail;
      FindAllUnfolds(p, e + tail, false);
      assert e[0] in e && (e + tail)[0] == e[0];
      NothingInside(p, e[1..], tail);
    } else {
      assert e + tail == tail;
    }
  }

  /** The rest of the list behind a line. */
  function Tail(ts: seq<string>, k: nat): string {
    if ts == [] then "" else [NEWLINE] + Numbered(ts, k)
  }

  lemma NumberedUnfolds(ts: seq<string>, k: nat)
    requires ts != []
    ensures Numbered(ts, k) == Printed(k, OneLine(ts[0]), Tail(ts[1..], k + 1))
  {
    hide Digits, OneLine;
    var e, tail := OneLine(ts[0]), Tail(ts[1..], k + 1);
    PrintedEntry(k, e, tail);
    assert Numbered(ts, k) == Entry(k, ts[0]) + tail;
  }

  lemma PrintedEntry(k: nat, e: string, tail: string)
    ensures Printed(k, e, tail) == Digits(k) + ". " + e + tail
  {
    hide Digits;
    assert ". " == "." + " ";
  }

  predicate AllProper(ts: seq<string>) {
    forall t | t in ts :: Proper(t)
  }

  lemma ProperLine(ts: seq<string>, k: nat)
    requires ts != [] && AllProper(ts)
    ensures Clean(OneLine(ts[0]), Tail(ts[1..], k)) && AllProper(ts[1..])
  {
    hide OneLine, Numbered;
    assert Proper(ts[0]);
    OneLineIsOneLine(ts[0]);
  }

  /** The line breaks behind a line start the next one. */
  lemma TailStarts(p: Pattern, ts: seq<string>, k: nat)
    ensures FindAll(p, Tail(ts, k), false) == if ts == [] then [] else FindAll(p, Numbered(ts, k), true)
  {
    hide FindAll, Numbered, Match;
    FindAllUnfolds(p, Tail(ts, k), false);
    if ts != [] { assert Tail(ts, k)[1..] == Numbered(ts, k); }
  }

  /** One match for every line: the hits of a printed list. */
  lemma {:induction false} HitsOfNumbered(p: Pattern, ts: seq<string>, k: nat)
    requires AllProper(ts)
    ensures |FindAll(p, Numbered(ts, k), true)| == |ts|
    ensures forall i | 0 <= i < |ts| :: FindAll(p, Numbered(ts, k), true)[i].number == k + i
    ensures p.Line? ==> forall i | 0 <= i < |ts| :: FindAll(p, Numbered(ts, k), true)[i].text == OneLine(ts[i])
  {
    hide FindAll, Numbered, Match, OneLine, Proper;
    if ts == [] {
      EmptyList(k);
      FindAllUnfolds(p, "", true);
    } else {
      var e, tail := OneLine(ts[0]), Tail(ts[1..], k + 1);
      ProperLine(ts, k + 1);
      NumberedUnfolds(ts, k);
      MatchOf(p, k, e, tail);
      FindAllUnfolds(p, Numbered(ts, k), true);
      NothingInside(p, e, tail);
      TailStarts(p, ts[1..], k + 1);
      HitsOfNumbered(p, ts[1..], k + 1);
    }
  }

  lemma EmptyList(k: nat)
    ensures Numbered([], k) == ""
  {
  }

  /** A printed list starts with a digit and ends with its last item. */
  lemma {:induction false} NumberedIsTrimmed(ts: seq<string>, k: nat)
    requires AllProper(ts)
    ensures Trimmed(Numbered(ts, k))
  {
    hide OneLine, Contains;
    if ts != [] {
      assert Proper(ts[0]);
      OneLineIsOneLine(ts[0]);
      assert Entry(k, ts[0])[0] == Digits(k)[0] && Digits(k)[0] in Digits(k);
      if |ts| > 1 {
        NumberedIsTrimmed(ts[1..], k + 1);
        NumberedUnfolds(ts[1..], k + 1);
      }
    }
  }

  /** The printed list names 1 to |ts|: the first way finds each text up to n. */
  lemma {:induction false} FirstWinsOf(hits: seq<Hit>, j: nat, n: nat)
    requires j <= |hits| && forall i | 0 <= i < |hits| :: hits[i].number == 1 + i
    ensures forall k :: k in FirstAmong(hits, j, n) <==> 1 <= k <= n && k <= j
    ensures forall k | k in FirstAmong(hits, j, n) :: FirstAmong(hits, j, n)[k] == Strip(hits[k - 1].text)
  {
    hide Strip;
    if j > 0 { FirstWinsOf(hits, j - 1, n); }
  }

  lemma {:induction false} KeysToN(m: Texts, n: nat)
    requires forall k :: k in m <==> 1 <= k <= n
    ensures |m| == n
  {
    if n > 0 {
      assert m.Keys == (m - {n}).Keys + {n};
      KeysToN(m - {n}, n - 1);
    } else {
      assert m.Keys == {};
    }
  }

  lemma SplitUnfolds(s: string, start: bool)
    ensures s == "" ==> SplitAll(s, start).items == []
    ensures s != "" && (!start || Match(Split, s).None?) ==>
              SplitAll(s, start).items == SplitAll(s[1..], s[0] == NEWLINE).items
    ensures start && Match(Split, s).Some? ==>
              var h := Match(Split, s).value;
              var tail := SplitAll(h.rest, AtLineStart(s, h.rest));
              SplitAll(s, start).items == [(h.number, tail.before)] + tail.items
  {
  }

  /** The split finds the numbers the search finds. */
  lemma {:induction false} SplitNumbers(s: string, start: bool)
    ensures |SplitAll(s, start).items| == |FindAll(Split, s, start)|
    ensures forall i | 0 <= i < |FindAll(Split, s, start)| ::
              SplitAll(s, start).items[i].0 == FindAll(Split, s, start)[i].number
    decreases |s|
  {
    hide SplitAll, FindAll, Match;
    SplitUnfolds(s, start);
    FindAllUnfolds(Split, s, start);
    if s != "" {
      var h := Match(Split, s);
      if start && h.Some? {
        SplitNumbers(h.value.rest, AtLineStart(s, h.value.rest));
      } else {
        SplitNumbers(s[1..], s[0] == NEWLINE);
      }
    }
  }

  lemma {:induction false} LastWinsNames(items: seq<(nat, string)>, j: nat, n: nat, k: nat)
    requires j <= |items| && forall i | 0 <= i < |items| :: items[i].0 != k
    ensures k !in LastAmong(items, j, n)
  {
    hide Strip;
    if j > 0 { LastWinsNames(items, j - 1, n, k); }
  }

  /** A shorter list leaves its last place empty. */
  lemma ShorterLeavesBlank(ts: seq<string>, n: nat)
    requires AllProper(ts) && |ts| < n
    ensures n !in Found(Numbered(ts, 1), n)
  {
    hide FindAll, SplitAll, Numbered, FirstAmong, LastAmong, AllProper;
    var raw := Numbered(ts, 1);
    HitsOfNumbered(Line, ts, 1);
    FirstWinsOf(FindAll(Line, raw, true), |ts|, n);
    HitsOfNumbered(Split, ts, 1);
    SplitNumbers(raw, true);
    LastWinsNames(SplitAll(raw, true).items, |ts|, n, n);
  }

  lemma ExactIsFound(ts: seq<string>)
    requires AllProper(ts)
    ensures Listed(Found(Numbered(ts, 1), |ts|), |ts|) == ts
  {
    hide FindAll, SplitAll, Numbered, FirstAmong, LastAmong, Strip, Proper, Plain, Decode, OneLine;
    var raw, n := Numbered(ts, 1), |ts|;
    var m := FirstWins(FindAll(Line, raw, true), n);
    HitsOfNumbered(Line, ts, 1);
    FirstWinsOf(FindAll(Line, raw, true), |ts|, n);
    KeysToN(m, n);
    forall i | 0 <= i < n
      ensures i + 1 in m && Decode(m[i + 1]) == ts[i]
    {
      ItemComesBack(ts[i]);
    }
  }

  lemma ItemComesBack(t: string)
    requires Proper(t)
    ensures Decode(Strip(OneLine(t))) == t && !Blank(t)
  {
    hide Decode, OneLine, Strip;
    OneLineIsOneLine(t);
    StripOfTrimmed(OneLine(t));
    StripOfTrimmed(t);
    DecodeOfOneLine(t);
  }

  /** The guard is exact: an answer that prints |ts| items is laid out on n lines if and
      only if |ts| == n, and then every text lands on its own line. A shorter answer
      leaves a blank, a longer one shows a number past n. */
  lemma GuardIsExact(ts: seq<string>, n: nat)
    requires n >= 2 && AllProper(ts) && !Contains(Numbered(ts, 1), THINK_END)
    ensures Accepted(Numbered(ts, 1), n) <==> |ts| == n
    ensures |ts| == n ==> Parse(Numbered(ts, 1), n) == ts
    ensures |ts| < n ==> Blank(Parse(Numbered(ts, 1), n)[n - 1])
    ensures |ts| > n ==> ExtraItems(Numbered(ts, 1), n)
  {
    hide Numbered, Parse, ExtraItems, Blank, Proper, Contains;
    var r := Parse(Numbered(ts, 1), n);
    ExtraIsExact(ts, n);
    ParseOfNumbered(ts, n);
    assert r[n - 1] in r;
    if |ts| == n {
      forall t | t in ts
        ensures !Blank(t)
      {
        assert Proper(t);
        ItemComesBack(t);
      }
    }
  }

  /** The answer behind thinking is read as it stands, whatever was thought: the texts, the
      extra items and the decision to lay it out. */
  lemma AnswerBehindThinking(t: string, a: string, n: nat)
    requires !Contains(a, "</think>")
    ensures Parse(t + "</think>" + a, n) == Parse(a, n)
    ensures ExtraItems(t + "</think>" + a, n) == ExtraItems(a, n)
    ensures Accepted(t + "</think>" + a, n) == Accepted(a, n)
  {
    hide Strip, Found, FindAll, Decode, AfterThinking, WithoutBlocks, Contains, Blank;
    ThinkingIsDropped(t, a);
    StripUnfolds(a);
  }

  /** The same behind thinking, whose own numbered lines count for nothing. */
  lemma GuardIsExactBehindThinking(t: string, ts: seq<string>, n: nat)
    requires n >= 2 && AllProper(ts) && !Contains(Numbered(ts, 1), "</think>")
    ensures var answer := t + "</think>" + Numbered(ts, 1);
            && (Accepted(answer, n) <==> |ts| == n)
            && (|ts| == n ==> Parse(answer, n) == ts)
            && (|ts| < n ==> Blank(Parse(answer, n)[n - 1]))
            && (|ts| > n ==> ExtraItems(answer, n))
  {
    hide Numbered, Parse, ExtraItems, Blank, Proper, Contains, Accepted;
    GuardIsExact(ts, n);
    AnswerBehindThinking(t, Numbered(ts, 1), n);
  }

  lemma ExtraIsExact(ts: seq<string>, n: nat)
    requires AllProper(ts) && !Contains(Numbered(ts, 1), THINK_END)
    ensures ExtraItems(Numbered(ts, 1), n) <==> |ts| > n
  {
    hide Numbered, FindAll, AllProper, Contains, AfterThinking, WithoutBlocks;
    HitsOfNumbered(Check, ts, 1);
    var hits := FindAll(Check, Numbered(ts, 1), true);
    if |ts| > n { assert hits[n] in hits && hits[n].number > n; }
  }

  lemma ParseOfNumbered(ts: seq<string>, n: nat)
    requires n >= 2 && AllProper(ts) && !Contains(Numbered(ts, 1), THINK_END)
    ensures |ts| == n ==> Parse(Numbered(ts, 1), n) == ts
    ensures |ts| < n ==> Blank(Parse(Numbered(ts, 1), n)[n - 1])
  {
    hide Numbered, Found, Strip, AllProper, Contains, Decode, AfterThinking, WithoutBlocks;
    NumberedIsTrimmed(ts, 1);
    StripOfTrimmed(Numbered(ts, 1));
    if |ts| < n {
      ShorterLeavesBlank(ts, n);
      NothingDecodes();
    } else if |ts| == n {
      ExactIsFound(ts);
    }
  }

  lemma NothingDecodes()
    ensures Decode("") == "" && Blank("")
  {
  }

  // ── What is taken from an answer ────────────────────────────────────────────

  /** Match i is the first of the search with this number. */
  predicate FirstWith(hits: seq<Hit>, i: nat, k: nat) {
    i < |hits| && hits[i].number == k && forall x | 0 <= x < i :: hits[x].number != k
  }

  /** Piece i is the last of the split with this number. */
  predicate LastWith(items: seq<(nat, string)>, i: nat, k: nat) {
    i < |items| && items[i].0 == k && forall x | i < x < |items| :: items[x].0 != k
  }

  predicate Names(hits: seq<Hit>, j: nat, k: nat)
    requires j <= |hits|
  {
    exists x | 0 <= x < j :: hits[x].number == k
  }

  /** The search names every number from 1 to n. */
  predicate NamesAll(hits: seq<Hit>, n: nat) {
    forall k: nat | 1 <= k <= n :: Names(hits, |hits|, k)
  }

  lemma {:induction false} FirstAmongHas(hits: seq<Hit>, j: nat, n: nat, k: nat)
    requires j <= |hits|
    ensures k in FirstAmong(hits, j, n) <==> 1 <= k <= n && Names(hits, j, k)
  {
    hide Strip;
    if j > 0 {
      FirstAmongHas(hits, j - 1, n, k);
      assert Names(hits, j, k) <==> Names(hits, j - 1, k) || hits[j - 1].number == k;
    }
  }

  lemma {:induction false} FirstAmongText(hits: seq<Hit>, j: nat, n: nat, i: nat, k: nat)
    requires i < j <= |hits| && FirstWith(hits, i, k) && 1 <= k <= n
    ensures k in FirstAmong(hits, j, n) && FirstAmong(hits, j, n)[k] == Strip(hits[i].text)
  {
    hide Strip;
    if j == i + 1 { FirstAmongHas(hits, i, n, k); } else { FirstAmongText(hits, j - 1, n, i, k); }
  }

  lemma {:induction false} LastAmongText(items: seq<(nat, string)>, j: nat, n: nat, i: nat, k: nat)
    requires i < j <= |items| && items[i].0 == k && (forall x | i < x < j :: items[x].0 != k) && 1 <= k <= n
    ensures k in LastAmong(items, j, n) && LastAmong(items, j, n)[k] == Strip(items[i].1)
  {
    hide Strip;
    if j > i + 1 { LastAmongText(items, j - 1, n, i, k); }
  }

  lemma {:induction false} SomeFirst(hits: seq<Hit>, j: nat, k: nat) returns (i: nat)
    requires j <= |hits| && Names(hits, j, k)
    ensures FirstWith(hits, i, k)
  {
    if Names(hits, j - 1, k) { i := SomeFirst(hits, j - 1, k); } else { i := j - 1; }
  }

  lemma {:induction false} SomeLast(items: seq<(nat, string)>, j: nat, k: nat) returns (i: nat)
    requires j <= |items| && exists x | 0 <= x < j :: items[x].0 == k
    ensures i < j && items[i].0 == k && forall x | i < x < j :: items[x].0 != k
  {
    if items[j - 1].0 == k { i := j - 1; } else { i := SomeLast(items, j - 1, k); }
  }

  ghost function OneTo(n: nat): (s: set<nat>)
    ensures |s| == n && forall k :: k in s <==> 1 <= k <= n
  {
    if n == 0 then {} else OneTo(n - 1) + {n}
  }

  lemma FullMap(hits: seq<Hit>, n: nat)
    ensures NamesAll(hits, n) <==> |FirstWins(hits, n)| >= n
  {
    hide FirstAmong, Names;
    var keys := FirstWins(hits, n).Keys;
    forall k: nat
      ensures k in keys <==> 1 <= k <= n && Names(hits, |hits|, k)
    {
      FirstAmongHas(hits, |hits|, n, k);
    }
    assert keys <= OneTo(n);
    assert OneTo(n) == keys + (OneTo(n) - keys);
    if NamesAll(hits, n) {
      assert OneTo(n) == keys;
    } else {
      var k: nat :| 1 <= k <= n && !Names(hits, |hits|, k);
      assert k in OneTo(n) - keys;
    }
  }

  /** The text line k of n gets from an answer before the last fallback: when the search
      names every number, the first text with its own; otherwise the last piece of the split
      with its number, or nothing. */
  ghost predicate Takes(raw: string, n: nat, k: nat, t: string) {
    var hits, items := FindAll(Line, raw, true), SplitAll(raw, true).items;
    && (NamesAll(hits, n) ==> exists i: nat :: FirstWith(hits, i, k) && t == Decode(Strip(hits[i].text)))
    && (!NamesAll(hits, n) ==>
          || (exists i: nat :: LastWith(items, i, k) && t == Decode(Strip(items[i].1)))
          || ((forall i | 0 <= i < |items| :: items[i].0 != k) && t == ""))
  }

  /** Exactly what every line gets; a single line that would get nothing gets the whole
      answer. */
  lemma ParseExactly(answer: string, n: nat, k: nat) returns (t: string)
    requires 1 <= k <= n
    ensures var raw := Strip(StripThinking(answer));
            && Takes(raw, n, k, t)
            && Parse(answer, n)[k - 1] == if n == 1 && t == "" && raw != "" then Decode(raw) else t
  {
    hide FindAll, SplitAll, Strip, StripThinking, Decode, FirstAmong, LastAmong;
    var raw := Strip(StripThinking(answer));
    var hits, items := FindAll(Line, raw, true), SplitAll(raw, true).items;
    t := Listed(Found(raw, n), n)[k - 1];
    NothingDecodes();
    FullMap(hits, n);
    if NamesAll(hits, n) {
      assert Names(hits, |hits|, k);
      var i := SomeFirst(hits, |hits|, k);
      FirstAmongText(hits, |hits|, n, i, k);
    } else if exists x | 0 <= x < |items| :: items[x].0 == k {
      var i := SomeLast(items, |items|, k);
      LastAmongText(items, |items|, n, i, k);
      assert LastWith(items, i, k);
    } else {
      LastWinsNames(items, |items|, n, k);
    }
  }

  // ── The code ────────────────────────────────────────────────────────────────

  method MultilineParse(raw: string, expected: nat) returns (parsed: Texts)
    ensures parsed == LastWins(SplitAll(raw, true).items, expected)
  {
    hide SplitAll, Strip;
    var parts := SplitAll(raw, true).items;
    parsed := map[];
    for i := 0 to |parts|
      invariant parsed == LastAmong(parts, i, expected)
    {
      var (n, text) := parts[i];
      if 1 <= n <= expected { parsed := parsed[n := Strip(text)]; }
    }
  }

  method ListTexts(parsed: Texts, expected: nat) returns (result: seq<string>)
    ensures result == Listed(parsed, expected)
  {
    hide Decode;
    result := [];
    for i := 0 to expected
      invariant |result| == i
      invariant forall j | 0 <= j < i :: result[j] == Listed(parsed, expected)[j]
    {
      var val := if i + 1 in parsed then parsed[i + 1] else "";
      result := result + [Decode(val)];
    }
  }

  method ParseNumberedOutput(answer: string, expected: nat) returns (result: seq<string>)
    ensures result == Parse(answer, expected)
  {
    hide Strip, StripThinking, FindAll, Decode, SplitAll;
    var raw := Strip(StripThinking(answer));
    var matches := FindAll(Line, raw, true);
    var parsed: Texts := map[];
    for i := 0 to |matches|
      invariant parsed == FirstAmong(matches, i, expected)
    {
      var n := matches[i].number;
      if 1 <= n <= expected && n !in parsed { parsed := parsed[n := Strip(matches[i].text)]; }
    }
    if |parsed| < expected { parsed := MultilineParse(raw, expected); }
    result := ListTexts(parsed, expected);
    if expected == 1 && result[0] == "" && raw != "" { result := [Decode(raw)]; }
  }
}
