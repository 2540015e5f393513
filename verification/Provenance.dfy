/** Which call every stored line comes from, and what happens to a line the token ceiling
    has cut (remote_worker/offline_translate.py). */
module Provenance {
  import opened Bytes
  import opened NumberedAnswer
  import opened Text

  /** Why a generation ended, as far as it is known. */
  datatype Finish = Unknown | Stop | Length | Format | Other(name: string)

  /** One call of the model: its answer, why it ended, and its trace. */
  datatype Call = Call(raw: string, reason: Finish, trace: Option<nat>)

  /** An inference that raised counts as an empty answer. */
  function Got(c: Outcome<Call>): Call {
    match c
    case Done(call) => call
    case Raised => Call("", Unknown, None)
  }

  /** What is kept about one line of the batch until it is stored. */
  datatype Placed = Placed(text: string, finish: Finish, trace: Option<nat>)

  // ── Reasons line by line ────────────────────────────────────────────────────

  function LastBelow(ts: seq<string>, n: nat): int
    requires n <= |ts|
  {
    if n == 0 then -1 else if !Blank(ts[n - 1]) then n - 1 else LastBelow(ts, n - 1)
  }

  /** The last line with a text, or -1. */
  function LastFilled(ts: seq<string>): int {
    LastBelow(ts, |ts|)
  }

  lemma {:induction false} LastBelowIsLast(ts: seq<string>, n: nat)
    requires n <= |ts|
    ensures -1 <= LastBelow(ts, n) < n
    ensures LastBelow(ts, n) >= 0 ==> !Blank(ts[LastBelow(ts, n)])
    ensures forall j | LastBelow(ts, n) < j < n :: Blank(ts[j])
  {
    hide Blank;
    if n > 0 { LastBelowIsLast(ts, n - 1); }
  }

  function LineReason(ts: seq<string>, reason: Finish, k: nat): Finish {
    if reason.Unknown? then Unknown
    else if reason.Length? && k == LastFilled(ts) then Length
    else Stop
  }

  method LineReasons(ts: seq<string>, reason: Finish) returns (out: seq<Finish>)
    ensures |out| == |ts|
    ensures forall k | 0 <= k < |ts| :: out[k] == LineReason(ts, reason, k)
    ensures reason == Unknown ==> forall k | 0 <= k < |ts| :: out[k] == Unknown
    ensures reason != Unknown ==> forall k | 0 <= k < |ts| ::
              out[k] == if reason == Length && !Blank(ts[k]) && (forall j | k < j < |ts| :: Blank(ts[j])) then Length
                        else Stop
  {
    hide Blank;
    var lastFilled := -1;
    for k := 0 to |ts|
      invariant -1 <= lastFilled < k
      invariant lastFilled >= 0 ==> !Blank(ts[lastFilled])
      invariant forall j | lastFilled < j < k :: Blank(ts[j])
    {
      if !Blank(ts[k]) { lastFilled := k; }
    }
    LastBelowIsLast(ts, |ts|);
    out := [];
    for k := 0 to |ts|
      invariant |out| == k && forall j | 0 <= j < k :: out[j] == LineReason(ts, reason, j)
    {
      out := out + [if reason.Unknown? then Unknown
                    else if reason.Length? && k == lastFilled then Length
                    else Stop];
    }
  }

  // ── Where a line may come from ──────────────────────────────────────────────

  /** The batch's own call, a repeat for one line alone, or a further candidate call. */
  datatype Source = First(call: Call) | Alone(call: Call) | Candidate(call: Call)

  /** A call's answer at the position of line j of n. */
  function TextAt(s: Source, n: nat, j: nat): string
    requires j < n
  {
    if s.Alone? then Parse(s.call.raw, 1)[0] else Parse(s.call.raw, n)[j]
  }

  function FinishAt(s: Source, n: nat, j: nat): Finish
    requires j < n
  {
    match s
    case First(c) =>
      if n == 1 && ExtraItems(c.raw, 1) then Format else LineReason(Parse(c.raw, n), c.reason, j)
    case Alone(c) =>
      if ExtraItems(c.raw, 1) then Format else c.reason
    case Candidate(c) =>
      LineReason(Parse(c.raw, n), c.reason, j)
  }

  function LineAt(s: Source, n: nat, j: nat): Placed
    requires j < n
  {
    Placed(TextAt(s, n, j), FinishAt(s, n, j), s.call.trace)
  }

  /** Text, reason and trace of the line are those of this one call; the tournament
      trims the text. */
  predicate From(s: Source, n: nat, j: nat, l: Placed)
    requires j < n
  {
    var a := LineAt(s, n, j);
    l == a || l == a.(text := Strip(a.text))
  }

  /** All calls made for a batch: the first, the repeats, the candidates. */
  datatype Calls = Calls(first: Outcome<Call>, retry: nat -> Outcome<Call>, cands: seq<Call>)

  predicate Explained(calls: Calls, n: nat, j: nat, l: Placed)
    requires j < n
  {
    || From(First(Got(calls.first)), n, j, l)
    || From(Alone(Got(calls.retry(j))), n, j, l)
    || exists c | c in calls.cands :: From(Candidate(c), n, j, l)
  }

  // ── The first answer, or one call per line ──────────────────────────────────

  const NOTHING := Placed("", Unknown, None)

  predicate StoppedBy(stopped: nat -> bool, j: nat) {
    exists i | 0 <= i <= j :: stopped(i)
  }

  method RetranslateSingly(n: nat, retry: nat -> Outcome<Call>, stopped: nat -> bool) returns (lines: seq<Placed>)
    ensures |lines| == n
    ensures forall j | 0 <= j < n ::
              lines[j] == if StoppedBy(stopped, j) then NOTHING else LineAt(Alone(Got(retry(j))), n, j)
    ensures forall j | 0 <= j < n && !StoppedBy(stopped, j) ::
              var c := Got(retry(j));
              lines[j] == Placed(Parse(c.raw, 1)[0], if ExtraItems(c.raw, 1) then Format else c.reason, c.trace)
  {
    hide Parse, ExtraItems;
    lines := [];
    while |lines| < n
      invariant |lines| <= n && forall i | 0 <= i < |lines| :: !stopped(i)
      invariant forall j | 0 <= j < |lines| :: lines[j] == LineAt(Alone(Got(retry(j))), n, j)
    {
      if stopped(|lines|) {
        lines := lines + seq(n - |lines|, _ => NOTHING);
        return;
      }
      var call := Got(retry(|lines|));
      var got := ParseNumberedOutput(call.raw, 1);
      var reason := if ExtraItems(call.raw, 1) then Format else call.reason;
      lines := lines + [Placed(got[0], reason, call.trace)];
    }
  }

  /** The lines of a batch answer, each with the reason of its place. */
  method LinesOf(call: Call, n: nat) returns (lines: seq<Placed>)
    ensures |lines| == n && forall j | 0 <= j < n :: lines[j] == LineAt(Candidate(call), n, j)
    ensures forall j | 0 <= j < n :: lines[j].text == Parse(call.raw, n)[j] && lines[j].trace == call.trace
  {
    hide Parse, LineReason;
    var texts := ParseNumberedOutput(call.raw, n);
    var reasons := LineReasons(texts, call.reason);
    lines := seq(n, j requires 0 <= j < n => Placed(texts[j], reasons[j], call.trace));
  }

  function FirstLine(first: Call, retry: nat -> Outcome<Call>, stopped: nat -> bool, n: nat, j: nat): Placed
    requires j < n
  {
    if Accepted(first.raw, n) then LineAt(First(first), n, j)
    else if StoppedBy(stopped, j) then NOTHING
    else LineAt(Alone(Got(retry(j))), n, j)
  }

  method FirstLines(first: Call, retry: nat -> Outcome<Call>, stopped: nat -> bool, n: nat)
    returns (lines: seq<Placed>)
    ensures |lines| == n && forall j | 0 <= j < n :: lines[j] == FirstLine(first, retry, stopped, n, j)
  {
    hide Parse, LineReason, ExtraItems, StoppedBy, Blank;
    lines := LinesOf(first, n);
    var extra := ExtraItems(first.raw, n);
    if n == 1 && extra {
      lines := [lines[0].(finish := Format)];
    }
    if n > 1 && (extra || exists t | t in Parse(first.raw, n) :: Blank(t)) {
      lines := RetranslateSingly(n, retry, stopped);
    }
  }

  /** Exactly which line a batch has in place j before any candidates. A batch of one keeps its
      answer, marked as badly formed when it shows further items. A longer one keeps it when it
      shows none and has a text for every line; else line j has a call of its own, or nothing
      after a stop. Every line has the trace of its call; a call that raised gives nothing. */
  lemma FirstLineExactly(first: Call, retry: nat -> Outcome<Call>, stopped: nat -> bool, n: nat, j: nat)
    requires j < n
    ensures var l := FirstLine(first, retry, stopped, n, j);
            if n == 1 then
              var finish := if ExtraItems(first.raw, 1) then Format
                            else LineReason(Parse(first.raw, 1), first.reason, 0);
              l == Placed(Parse(first.raw, 1)[0], finish, first.trace)
            else if !ExtraItems(first.raw, n) && (forall i | 0 <= i < n :: Strip(Parse(first.raw, n)[i]) != "") then
              l == Placed(Parse(first.raw, n)[j], LineReason(Parse(first.raw, n), first.reason, j), first.trace)
            else if exists i | 0 <= i <= j :: stopped(i) then l == Placed("", Unknown, None)
            else match retry(j) {
              case Raised => l == Placed("", Unknown, None)
              case Done(own) =>
                l == Placed(Parse(own.raw, 1)[0], if ExtraItems(own.raw, 1) then Format else own.reason, own.trace)
            }
  {
    hide Parse, ExtraItems, LineReason, Strip;
    EmptyAnswer();
    var ts := Parse(first.raw, n);
    if t :| t in ts && Blank(t) {
      var i :| 0 <= i < n && ts[i] == t;
      assert Strip(ts[i]) == "";
    } else {
      assert forall i | 0 <= i < n :: ts[i] in ts;
    }
  }

  lemma EmptyAnswer()
    ensures Parse("", 1)[0] == "" && !ExtraItems("", 1)
  {
  }

  /** A printed list whose length is not that of the batch is never laid out: every line has
      a call of its own, or none after a stop. One of the right length is, each text on its
      line. */
  lemma CountDecides(first: Call, retry: nat -> Outcome<Call>, stopped: nat -> bool, t: string, ts: seq<string>,
                     n: nat, j: nat)
    requires n >= 2 && j < n && AllProper(ts) && !Contains(Numbered(ts, 1), "</think>")
    requires first.raw == Numbered(ts, 1) || first.raw == t + "</think>" + Numbered(ts, 1)
    ensures var l := FirstLine(first, retry, stopped, n, j);
            && (|ts| == n ==> l.text == ts[j] && l.trace == first.trace)
            && (|ts| != n && (exists i | 0 <= i <= j :: stopped(i)) ==> l == NOTHING)
            && (|ts| != n && (forall i | 0 <= i <= j :: !stopped(i)) ==>
                  var c := Got(retry(j));
                  l == Placed(Parse(c.raw, 1)[0], if ExtraItems(c.raw, 1) then Format else c.reason, c.trace))
  {
    hide Numbered, Parse, ExtraItems, Proper, Contains, Accepted, LineReason;
    GuardIsExact(ts, n);
    GuardIsExactBehindThinking(t, ts, n);
  }

  // ── The tournament ──────────────────────────────────────────────────────────

  predicate HasText(pool: seq<Placed>, t: string) {
    exists l | l in pool :: l.text == t
  }

  /** The different non-blank texts the calls gave for line j, each with the reason and
      trace of the call that gave it first. */
  function Pool(answers: seq<seq<Placed>>, j: nat): (pool: seq<Placed>)
    requires forall a | a in answers :: j < |a|
  {
    if answers == [] then [] else
    var m := |answers| - 1;
    var pool := Pool(answers[..m], j);
    var l := answers[m][j].(text := Strip(answers[m][j].text));
    if l.text == "" || HasText(pool, l.text) then pool else pool + [l]
  }

  /** The winner so far against each next rival. */
  function Champion(pool: seq<Placed>, judge: (string, string) -> bool): (w: Placed)
    requires pool != []
    ensures w in pool
  {
    var m := |pool| - 1;
    if m == 0 then pool[0] else
    var w := Champion(pool[..m], judge);
    if judge(w.text, pool[m].text) then pool[m] else w
  }

  function Chosen(answers: seq<seq<Placed>>, j: nat, judge: (string, string) -> bool): Placed
    requires answers != [] && forall a | a in answers :: j < |a|
  {
    var pool := Pool(answers, j);
    if |pool| < 2 then answers[0][j] else Champion(pool, judge)
  }

  /** The pool as the code keeps it: the texts in order, and two dictionaries by text. */
  ghost predicate Keeps(texts: seq<string>, why: map<string, Finish>, trace: map<string, Option<nat>>,
                        pool: seq<Placed>)
  {
    && |texts| == |pool|
    && (forall i | 0 <= i < |pool| ::
          && texts[i] == pool[i].text
          && texts[i] in why && why[texts[i]] == pool[i].finish
          && texts[i] in trace && trace[texts[i]] == pool[i].trace)
  }

  lemma KeepsNext(texts: seq<string>, why: map<string, Finish>, trace: map<string, Option<nat>>,
                  pool: seq<Placed>, l: Placed)
    requires Keeps(texts, why, trace, pool)
    ensures HasText(pool, l.text) <==> l.text in texts
    ensures l.text !in texts ==>
              Keeps(texts + [l.text], why[l.text := l.finish], trace[l.text := l.trace], pool + [l])
  {
    if l.text in texts {
      var i :| 0 <= i < |texts| && texts[i] == l.text;
      assert pool[i] in pool;
    }
    if x :| x in pool && x.text == l.text {
      var i :| 0 <= i < |pool| && pool[i] == x;
      assert texts[i] in texts;
    }
  }

  lemma PoolNext(answers: seq<seq<Placed>>, m: nat, j: nat)
    requires m < |answers| && forall a | a in answers :: j < |a|
    ensures forall a | a in answers[..m] :: j < |a|
    ensures forall a | a in answers[..m + 1] :: j < |a|
    ensures var l := answers[m][j].(text := Strip(answers[m][j].text));
            var pool := Pool(answers[..m], j);
            Pool(answers[..m + 1], j) == if l.text == "" || HasText(pool, l.text) then pool else pool + [l]
  {
    assert answers[..m + 1][..m] == answers[..m];
  }

  method PlayOff(answers: seq<seq<Placed>>, j: nat, judge: (string, string) -> bool) returns (line: Placed)
    requires answers != [] && forall a | a in answers :: j < |a|
    ensures line == Chosen(answers, j, judge)
    ensures Decided(Column(answers, j), judge, line)
  {
    hide Strip, Pool, HasText, Keeps, Champion, Decided, Column;
    ChosenIsDecided(answers, j, judge);
    var texts: seq<string>, why: map<string, Finish>, trace: map<string, Option<nat>> := [], map[], map[];
    KeepsNothing(answers, j);
    for m := 0 to |answers|
      invariant forall a | a in answers[..m] :: j < |a|
      invariant Keeps(texts, why, trace, Pool(answers[..m], j))
    {
      PoolNext(answers, m, j);
      var l := answers[m][j].(text := Strip(answers[m][j].text));
      KeepsNext(texts, why, trace, Pool(answers[..m], j), l);
      if l.text != "" && l.text !in texts {
        texts := texts + [l.text];
        why, trace := why[l.text := l.finish], trace[l.text := l.trace];
      }
    }
    assert answers[..|answers|] == answers;
    ghost var pool := Pool(answers, j);
    KeptAt(texts, why, trace, pool);
    if |texts| < 2 { return answers[0][j]; }
    var winner := PlayRounds(texts, judge, pool);
    line := Placed(winner, why[winner], trace[winner]);
  }

  lemma ChampionAlone(pool: seq<Placed>, judge: (string, string) -> bool)
    requires |pool| == 1
    ensures Champion(pool, judge) == pool[0]
  {
  }

  lemma ChampionNext(pool: seq<Placed>, m: nat, judge: (string, string) -> bool)
    requires 0 < m < |pool|
    ensures var w := Champion(pool[..m], judge);
            Champion(pool[..m + 1], judge) == if judge(w.text, pool[m].text) then pool[m] else w
  {
    assert pool[..m + 1][..m] == pool[..m];
  }

  /** The judge between the winner so far and every next text. */
  method PlayRounds(texts: seq<string>, judge: (string, string) -> bool, ghost pool: seq<Placed>)
    returns (winner: string)
    requires pool != [] && |texts| == |pool| && forall i | 0 <= i < |pool| :: texts[i] == pool[i].text
    ensures winner in texts && winner == Champion(pool, judge).text
    ensures exists i | 0 <= i < |pool| :: winner == texts[i] && Champion(pool, judge) == pool[i]
  {
    hide Champion;
    winner := texts[0];
    ghost var w := 0;
    ChampionAlone(pool[..1], judge);
    for m := 1 to |texts|
      invariant 0 <= w < m && winner == texts[w] && Champion(pool[..m], judge) == pool[w]
    {
      ChampionNext(pool, m, judge);
      if judge(winner, texts[m]) { winner := texts[m]; w := m; }
    }
    assert pool[..|pool|] == pool;
  }

  lemma KeepsNothing(answers: seq<seq<Placed>>, j: nat)
    ensures forall a | a in answers[..0] :: j < |a|
    ensures Keeps([], map[], map[], Pool(answers[..0], j))
  {
  }

  lemma KeptAt(texts: seq<string>, why: map<string, Finish>, trace: map<string, Option<nat>>, pool: seq<Placed>)
    requires Keeps(texts, why, trace, pool)
    ensures |texts| == |pool|
    ensures forall i | 0 <= i < |pool| ::
              && texts[i] in why && texts[i] in trace
              && pool[i] == Placed(texts[i], why[texts[i]], trace[texts[i]])
  {
  }

  // ── Who wins, in the calls' own terms ───────────────────────────────────────

  function TextOf(l: Placed): string {
    Strip(l.text)
  }

  /** Call m is the first to give a text that is not blank. */
  predicate New(lines: seq<Placed>, m: nat) {
    m < |lines| && TextOf(lines[m]) != "" && forall i | 0 <= i < m :: TextOf(lines[i]) != TextOf(lines[m])
  }

  /** There are two different texts. */
  ghost predicate Rivals(lines: seq<Placed>) {
    exists i: nat, k: nat :: i < k && New(lines, i) && New(lines, k)
  }

  /** The winners so far, one behind each call heard: none at first, then the first call with
      a text, then each call with a new text if and only if the judge prefers it to the winner
      so far. */
  ghost predicate Winners(lines: seq<Placed>, judge: (string, string) -> bool, w: seq<int>) {
    && |w| == |lines| + 1 && w[0] == -1
    && (forall m | 0 <= m < |w| :: -1 <= w[m] < m)
    && (forall m | 0 <= m < |lines| && !New(lines, m) :: w[m + 1] == w[m])
    && (forall m | 0 <= m < |lines| && New(lines, m) ::
          w[m + 1] == if w[m] == -1 || judge(TextOf(lines[w[m]]), TextOf(lines[m])) then m else w[m])
  }

  /** The line the tournament leaves: with fewer than two texts the first answer's, else the
      last winner's text with the reason and trace of the call that first gave it. */
  ghost predicate Decided(lines: seq<Placed>, judge: (string, string) -> bool, l: Placed)
    requires lines != []
  {
    exists w :: Decides(lines, judge, w, l)
  }

  ghost predicate Decides(lines: seq<Placed>, judge: (string, string) -> bool, w: seq<int>, l: Placed)
    requires lines != []
  {
    && Winners(lines, judge, w)
    && (if Rivals(lines) then w[|lines|] >= 0 && l == lines[w[|lines|]].(text := TextOf(lines[w[|lines|]]))
        else l == lines[0])
  }

  lemma {:induction false} WinnersAreUnique(lines: seq<Placed>, judge: (string, string) -> bool,
                                            v: seq<int>, w: seq<int>, m: nat)
    requires Winners(lines, judge, v) && Winners(lines, judge, w) && m <= |lines|
    ensures v[m] == w[m]
  {
    hide TextOf, New;
    if m > 0 {
      WinnersAreUnique(lines, judge, v, w, m - 1);
      assert v[m - 1 + 1] == v[m] && w[m - 1 + 1] == w[m];
    }
  }

  /** Only one line can be left. */
  lemma DecidedOnce(lines: seq<Placed>, judge: (string, string) -> bool, l: Placed, r: Placed)
    requires lines != [] && Decided(lines, judge, l) && Decided(lines, judge, r)
    ensures l == r
  {
    hide TextOf, Winners, Rivals;
    var v :| Decides(lines, judge, v, l);
    var w :| Decides(lines, judge, w, r);
    WinnersAreUnique(lines, judge, v, w, |lines|);
  }

  /** Call k is the first to give a text, some other text was given, and the judge prefers
      this text to every other one and none to it. */
  ghost predicate Preferred(lines: seq<Placed>, judge: (string, string) -> bool, k: nat) {
    && New(lines, k) && (exists m: nat :: m != k && New(lines, m))
    && (forall m | 0 <= m < |lines| && m != k && New(lines, m) ::
          judge(TextOf(lines[m]), TextOf(lines[k])) && !judge(TextOf(lines[k]), TextOf(lines[m])))
  }

  lemma {:induction false} WinnerIsNew(lines: seq<Placed>, judge: (string, string) -> bool, w: seq<int>, m: nat)
    requires Winners(lines, judge, w) && m <= |lines|
    ensures w[m] >= 0 ==> New(lines, w[m])
    ensures (exists i: nat :: i < m && New(lines, i)) ==> w[m] >= 0
  {
    hide TextOf, New;
    if m > 0 {
      WinnerIsNew(lines, judge, w, m - 1);
      assert w[m - 1 + 1] == w[m];
    }
  }

  lemma {:induction false} PreferredStays(lines: seq<Placed>, judge: (string, string) -> bool, w: seq<int>,
                                          k: nat, m: nat)
    requires Winners(lines, judge, w) && Preferred(lines, judge, k) && k < m <= |lines|
    ensures w[m] == k
  {
    hide TextOf, New;
    var n := m - 1;
    assert w[n + 1] == w[m];
    if n == k {
      WinnerIsNew(lines, judge, w, k);
    } else {
      PreferredStays(lines, judge, w, k, n);
    }
  }

  /** A text the judge prefers to every other, with none preferred to it, is the one kept,
      with the reason and trace of the call that first gave it. */
  lemma PreferredWins(lines: seq<Placed>, judge: (string, string) -> bool, k: nat, l: Placed)
    requires k < |lines| && Preferred(lines, judge, k) && Decided(lines, judge, l)
    ensures l == lines[k].(text := TextOf(lines[k]))
  {
    hide TextOf, New, Winners;
    var w :| Decides(lines, judge, w, l);
    var m: nat :| m != k && New(lines, m);
    assert if m < k then Rivals(lines) else Rivals(lines);
    PreferredStays(lines, judge, w, k, |lines|);
  }

  /** One line as every call gave it. */
  function Column(answers: seq<seq<Placed>>, j: nat): (lines: seq<Placed>)
    requires forall a | a in answers :: j < |a|
    ensures |lines| == |answers| && forall m | 0 <= m < |answers| :: lines[m] == answers[m][j]
  {
    seq(|answers|, m requires 0 <= m < |answers| => answers[m][j])
  }

  /** One of the first m calls gave this text. */
  predicate Gave(lines: seq<Placed>, m: nat, t: string)
    requires m <= |lines|
  {
    exists i | 0 <= i < m :: TextOf(lines[i]) == t
  }

  /** The pool behind the first m calls: their texts, how many of them are different, and
      its champion. */
  ghost predicate Mirrors(pool: seq<Placed>, lines: seq<Placed>, m: nat, judge: (string, string) -> bool, w: int)
    requires m <= |lines|
  {
    && (forall t | t != "" :: HasText(pool, t) <==> Gave(lines, m, t))
    && (pool != [] <==> exists i: nat :: i < m && New(lines, i))
    && (|pool| >= 2 <==> exists i: nat, k: nat :: i < k < m && New(lines, i) && New(lines, k))
    && (if pool == [] then w == -1
        else 0 <= w < m && Champion(pool, judge) == lines[w].(text := TextOf(lines[w])))
  }

  lemma NewIsNew(lines: seq<Placed>, m: nat)
    requires m < |lines|
    ensures New(lines, m) <==> TextOf(lines[m]) != "" && !Gave(lines, m, TextOf(lines[m]))
    ensures forall t :: Gave(lines, m + 1, t) <==> Gave(lines, m, t) || TextOf(lines[m]) == t
  {
    hide TextOf;
    forall t
      ensures Gave(lines, m + 1, t) <==> Gave(lines, m, t) || TextOf(lines[m]) == t
    {
      if TextOf(lines[m]) == t { assert Gave(lines, m + 1, t); }
    }
  }

  lemma PoolGains(pool: seq<Placed>, l: Placed, judge: (string, string) -> bool)
    ensures forall t :: HasText(pool + [l], t) <==> HasText(pool, t) || l.text == t
    ensures Champion(pool + [l], judge) ==
            if pool == [] || judge(Champion(pool, judge).text, l.text) then l else Champion(pool, judge)
  {
    assert (pool + [l])[..|pool|] == pool;
    forall t
      ensures HasText(pool + [l], t) <==> HasText(pool, t) || l.text == t
    {
      if l.text == t { assert l in pool + [l]; }
    }
  }

  lemma MirrorsNext(pool: seq<Placed>, lines: seq<Placed>, m: nat, judge: (string, string) -> bool, w: int)
    requires m < |lines| && Mirrors(pool, lines, m, judge, w)
    ensures var l := lines[m].(text := TextOf(lines[m]));
            && (l.text == "" || HasText(pool, l.text) <==> !New(lines, m))
            && (!New(lines, m) ==> Mirrors(pool, lines, m + 1, judge, w))
            && (New(lines, m) ==>
                  Mirrors(pool + [l], lines, m + 1, judge,
                          if w == -1 || judge(TextOf(lines[w]), TextOf(lines[m])) then m else w))
  {
    hide TextOf, New, Gave, HasText, Champion;
    var l := lines[m].(text := TextOf(lines[m]));
    NewIsNew(lines, m);
    PoolGains(pool, l, judge);
    assert forall i: nat | i < m + 1 && New(lines, i) :: i < m || i == m;
  }

  lemma {:induction false} PoolMirrors(answers: seq<seq<Placed>>, j: nat, judge: (string, string) -> bool, m: nat)
    returns (w: seq<int>)
    requires m <= |answers| && forall a | a in answers :: j < |a|
    ensures forall a | a in answers[..m] :: j < |a|
    ensures |w| == m + 1 && w[0] == -1 && (forall k | 0 <= k <= m :: -1 <= w[k] < k)
    ensures Mirrors(Pool(answers[..m], j), Column(answers, j), m, judge, w[m])
    ensures forall k | 0 <= k < m :: WinsNext(Column(answers, j), judge, k, w[k], w[k + 1])
  {
    hide Strip, Pool, Mirrors, New, Column, WinsNext;
    var lines := Column(answers, j);
    if m == 0 {
      w := [-1];
      NothingMirrors(answers, lines, j, judge);
    } else {
      var v := PoolMirrors(answers, j, judge, m - 1);
      PoolNext(answers, m - 1, j);
      MirrorsNext(Pool(answers[..m - 1], j), lines, m - 1, judge, v[m - 1]);
      MirrorsInRange(Pool(answers[..m - 1], j), lines, m - 1, judge, v[m - 1]);
      var next := if !New(lines, m - 1) then v[m - 1]
                  else if v[m - 1] == -1 || judge(TextOf(lines[v[m - 1]]), TextOf(lines[m - 1])) then m - 1
                  else v[m - 1];
      w := v + [next];
      assert WinsNext(lines, judge, m - 1, w[m - 1], w[m - 1 + 1]) by { WinsSo(lines, judge, m - 1, v[m - 1], next); }
      forall k | 0 <= k < m - 1
        ensures WinsNext(lines, judge, k, w[k], w[k + 1])
      {
        assert w[k] == v[k] && w[k + 1] == v[k + 1];
      }
    }
  }

  /** Hearing call k makes v of the winner w so far. */
  predicate WinsNext(lines: seq<Placed>, judge: (string, string) -> bool, k: nat, w: int, v: int)
    requires k < |lines| && -1 <= w < k
  {
    v == if !New(lines, k) then w
         else if w == -1 || judge(TextOf(lines[w]), TextOf(lines[k])) then k else w
  }

  lemma WinsSo(lines: seq<Placed>, judge: (string, string) -> bool, k: nat, w: int, v: int)
    requires k < |lines| && -1 <= w < k
    requires v == if !New(lines, k) then w
                  else if w == -1 || judge(TextOf(lines[w]), TextOf(lines[k])) then k else w
    ensures WinsNext(lines, judge, k, w, v)
  {
    hide New, TextOf;
  }

  lemma MirrorsInRange(pool: seq<Placed>, lines: seq<Placed>, m: nat, judge: (string, string) -> bool, w: int)
    requires m <= |lines| && Mirrors(pool, lines, m, judge, w)
    ensures -1 <= w < m
  {
    hide New, TextOf, HasText, Gave, Champion;
  }

  lemma NothingMirrors(answers: seq<seq<Placed>>, lines: seq<Placed>, j: nat, judge: (string, string) -> bool)
    ensures forall a | a in answers[..0] :: j < |a|
    ensures Mirrors(Pool(answers[..0], j), lines, 0, judge, -1)
  {
    EmptyPool(j);
    assert answers[..0] == [];
  }

  lemma EmptyPool(j: nat)
    ensures Pool([], j) == []
  {
  }

  lemma ChosenIsDecided(answers: seq<seq<Placed>>, j: nat, judge: (string, string) -> bool)
    requires answers != [] && forall a | a in answers :: j < |a|
    ensures Decided(Column(answers, j), judge, Chosen(answers, j, judge))
  {
    hide Strip, Pool, Champion, New, Column, WinsNext;
    var lines := Column(answers, j);
    var w := PoolMirrors(answers, j, judge, |answers|);
    assert answers[..|answers|] == answers;
    StepsAreWinners(lines, judge, w);
    MirrorsRivals(Pool(answers, j), lines, judge, w[|lines|]);
    assert Decides(lines, judge, w, Chosen(answers, j, judge));
  }

  lemma StepsAreWinners(lines: seq<Placed>, judge: (string, string) -> bool, w: seq<int>)
    requires |w| == |lines| + 1 && w[0] == -1 && forall k | 0 <= k <= |lines| :: -1 <= w[k] < k
    requires forall k | 0 <= k < |lines| :: WinsNext(lines, judge, k, w[k], w[k + 1])
    ensures Winners(lines, judge, w)
  {
    hide New, TextOf;
  }

  lemma MirrorsRivals(pool: seq<Placed>, lines: seq<Placed>, judge: (string, string) -> bool, w: int)
    requires Mirrors(pool, lines, |lines|, judge, w)
    ensures |pool| >= 2 <==> Rivals(lines)
    ensures pool != [] ==> 0 <= w < |lines| && Champion(pool, judge) == lines[w].(text := TextOf(lines[w]))
  {
    hide TextOf, HasText, Gave, Champion;
    assert forall i: nat | New(lines, i) :: i < |lines|;
  }

  // ── What is stored ──────────────────────────────────────────────────────────

  datatype Status = Translated | NeedsReview

  datatype Row = Row(line: Placed, score: int, status: Status)

  function Capped(score: int, finish: Finish): int {
    if finish.Length? && score > 60 then 60 else score
  }

  function StatusOf(score: int, finish: Finish): Status {
    if Capped(score, finish) > 70 && !finish.Length? then Translated else NeedsReview
  }

  // ── Lines cut by the token ceiling ──────────────────────────────────────────

  /** The line the last printed number names, when the text behind that number is kept. */
  function CutPlaceOf(raw: string, n: nat): (k: Option<nat>)
    ensures k.Some? ==> k.value < n
  {
    var hits, items := FindAll(Line, raw, true), SplitAll(raw, true).items;
    if |FirstWins(hits, n)| < n then
      if items != [] && 1 <= items[|items| - 1].0 <= n then Some(items[|items| - 1].0 - 1) else None
    else
      if hits == [] then None else
      var last := hits[|hits| - 1].number;
      if 1 <= last <= n && last !in FirstAmong(hits, |hits| - 1, n) then Some(last - 1) else None
  }

  /** The line in whose text the answer ends; the only line, when the answer is taken whole. */
  function CutPlace(answer: string, n: nat): (k: Option<nat>)
    ensures k.Some? ==> k.value < n
  {
    var raw := Strip(StripThinking(answer));
    if n == 1 && Listed(Found(raw, n), n)[0] == "" && raw != "" then Some(0) else CutPlaceOf(raw, n)
  }

  /** Exactly when the cut line is marked as cut: when no later line has a text. */
  lemma CutIsMarked(c: Call, n: nat, k: nat)
    requires c.reason == Length && CutPlace(c.raw, n) == Some(k) && !Blank(Parse(c.raw, n)[k])
    ensures LineReason(Parse(c.raw, n), c.reason, k) == Length
            <==> forall j | k < j < n :: Blank(Parse(c.raw, n)[j])
  {
    hide Blank, Parse, CutPlace;
    LastBelowIsLast(Parse(c.raw, n), n);
  }

  /** Printed in order, every number at most the last one: the cut line is always marked. */
  lemma OrderedCutIsMarked(c: Call, n: nat, k: nat)
    requires c.reason == Length && CutPlace(c.raw, n) == Some(k) && !Blank(Parse(c.raw, n)[k])
    requires var raw := Strip(StripThinking(c.raw));
             && (forall h | h in FindAll(Line, raw, true) :: h.number <= k + 1)
             && (forall i | i in SplitAll(raw, true).items :: i.0 <= k + 1)
    ensures LineReason(Parse(c.raw, n), c.reason, k) == Length
  {
    hide Strip, StripThinking, FindAll, SplitAll, FirstAmong, LastAmong, Decode, CutPlace;
    var raw := Strip(StripThinking(c.raw));
    NothingDecodes();
    forall j | k < j < n
      ensures Blank(Parse(c.raw, n)[j])
    {
      UnnamedByFirst(FindAll(Line, raw, true), |FindAll(Line, raw, true)|, n, j + 1);
      LastWinsNames(SplitAll(raw, true).items, |SplitAll(raw, true).items|, n, j + 1);
    }
    CutIsMarked(c, n, k);
  }

  lemma {:induction false} UnnamedByFirst(hits: seq<Hit>, j: nat, n: nat, k: nat)
    requires j <= |hits| && forall h | h in hits :: h.number != k
    ensures k !in FirstAmong(hits, j, n)
  {
    hide Strip;
    if j > 0 { UnnamedByFirst(hits, j - 1, n, k); }
  }

  /** In a batch laid out by position the cut line is kept out of the finished work if and
      only if it is the last line of the batch or scores low anyway: an answer that prints
      its numbers out of order lets a cut line through. */
  lemma CutIsHeldBack(c: Call, n: nat, k: nat, score: int)
    requires n > 1 && Accepted(c.raw, n) && c.reason == Length && CutPlace(c.raw, n) == Some(k)
    ensures StatusOf(score, FinishAt(First(c), n, k)) == NeedsReview <==> k == n - 1 || score <= 70
  {
    hide Blank, Parse, CutPlace, ExtraItems;
    assert Parse(c.raw, n)[k] in Parse(c.raw, n);
    CutIsMarked(c, n, k);
    assert k < n - 1 ==> Parse(c.raw, n)[n - 1] in Parse(c.raw, n);
  }

  /** A line repeated alone and cut is held back unless the answer also had items past
      the first: their mark replaces the mark of the ceiling. */
  lemma CutAloneIsHeldBack(c: Call, n: nat, j: nat, score: int)
    requires j < n && c.reason == Length
    ensures StatusOf(score, FinishAt(Alone(c), n, j)) == NeedsReview <==> !ExtraItems(c.raw, 1) || score <= 70
  {
  }

  /** So is the only line of a batch of one. */
  lemma OnlyLineIsHeldBack(c: Call, score: int)
    requires c.reason == Length && !Blank(Parse(c.raw, 1)[0])
    ensures StatusOf(score, FinishAt(First(c), 1, 0)) == NeedsReview <==> !ExtraItems(c.raw, 1) || score <= 70
  {
    hide Blank, Parse, ExtraItems;
    LastBelowIsLast(Parse(c.raw, 1), 1);
  }

  /** The line in whose text the answer of this source ends; where one line was asked for
      again, there is no other. */
  predicate CutAt(s: Source, n: nat, j: nat) {
    s.call.reason == Length && (s.Alone? || CutPlace(s.call.raw, n) == Some(j))
  }

  /** What shows the agent that a line is cut: where one line was asked for, that the answer
      had no further items; otherwise, that no later line has a text. */
  predicate CeilingShows(s: Source, n: nat, j: nat) {
    if s.Alone? || (s.First? && n == 1) then !ExtraItems(s.call.raw, 1)
    else forall i | j < i < n :: Blank(Parse(s.call.raw, n)[i])
  }

  /** Through every path a cut line is kept out of the finished work if and only if the
      ceiling shows or the score is low. */
  lemma CutIsHeldBackThrough(s: Source, n: nat, j: nat, score: int)
    requires j < n && CutAt(s, n, j) && !Blank(TextAt(s, n, j))
    ensures StatusOf(score, FinishAt(s, n, j)) == NeedsReview <==> CeilingShows(s, n, j) || score <= 70
  {
    hide Blank, Parse, CutPlace, ExtraItems, LineReason;
    if s.Alone? {
      CutAloneIsHeldBack(s.call, n, j, score);
    } else if s.First? && n == 1 {
      OnlyLineIsHeldBack(s.call, score);
    } else {
      CutIsMarked(s.call, n, j);
      NeverLengthOtherwise(Parse(s.call.raw, n), j);
    }
  }

  lemma NeverLengthOtherwise(ts: seq<string>, k: nat)
    ensures LineReason(ts, Length, k) in {Length, Stop}
  {
  }

  /** What the ceiling means for a stored row, whichever call it comes from. */
  ghost predicate CeilingRespected(n: nat, j: nat, row: Row, score: int)
    requires j < n
  {
    forall s | From(s, n, j, row.line) && CutAt(s, n, j) && !Blank(row.line.text) ::
      row.status == NeedsReview <==> CeilingShows(s, n, j) || score <= 70
  }

  lemma RowRespectsCeiling(n: nat, j: nat, row: Row, score: int)
    requires j < n && row.status == StatusOf(score, row.line.finish)
    ensures CeilingRespected(n, j, row, score)
  {
    hide CutAt, CeilingShows, Strip, TextAt, FinishAt;
    forall s | From(s, n, j, row.line) && CutAt(s, n, j) && !Blank(row.line.text)
      ensures row.status == NeedsReview <==> CeilingShows(s, n, j) || score <= 70
    {
      StripOfNothing();
      CutIsHeldBackThrough(s, n, j, score);
    }
  }

  // ── The batch ───────────────────────────────────────────────────────────────

  /** One list of lines per call: the first answer, then the candidates. */
  ghost predicate AnswersOf(calls: Calls, stopped: nat -> bool, n: nat, answers: seq<seq<Placed>>) {
    && |answers| == 1 + |calls.cands| && (forall a | a in answers :: |a| == n)
    && (forall i | 0 <= i < n :: answers[0][i] == FirstLine(Got(calls.first), calls.retry, stopped, n, i))
    && (forall m, i | 0 <= m < |calls.cands| && 0 <= i < n ::
          answers[m + 1][i] == LineAt(Candidate(calls.cands[m]), n, i))
  }

  lemma ChosenIsExplained(calls: Calls, stopped: nat -> bool, n: nat, answers: seq<seq<Placed>>, j: nat,
                          judge: (string, string) -> bool)
    requires j < n && AnswersOf(calls, stopped, n, answers)
    ensures var l := Chosen(answers, j, judge); l == NOTHING || Explained(calls, n, j, l)
  {
    hide Strip, LineAt, FirstLine, Pool, Chosen;
    var l := Chosen(answers, j, judge);
    ChosenIsDecided(answers, j, judge);
    var m := DecidedComesFrom(Column(answers, j), judge, l);
    if m > 0 {
      CandidateExplains(calls, n, m - 1, j, l);
    } else {
      FirstExplains(calls, stopped, n, j, l);
    }
  }

  lemma DecidedComesFrom(lines: seq<Placed>, judge: (string, string) -> bool, l: Placed) returns (m: nat)
    requires lines != [] && Decided(lines, judge, l)
    ensures m < |lines| && (m > 0 || l != lines[0] ==> l == lines[m].(text := TextOf(lines[m])) && l.text != "")
  {
    hide TextOf, New, Rivals;
    var w :| Decides(lines, judge, w, l);
    if Rivals(lines) {
      var last: int := w[|lines|];
      m := last;
      WinnerIsNew(lines, judge, w, |lines|);
      NewHasText(lines, m);
    } else {
      m := 0;
    }
  }

  lemma NewHasText(lines: seq<Placed>, m: nat)
    requires New(lines, m)
    ensures m < |lines| && TextOf(lines[m]) != ""
  {
  }

  lemma CandidateExplains(calls: Calls, n: nat, m: nat, j: nat, l: Placed)
    requires j < n && m < |calls.cands|
    requires l == LineAt(Candidate(calls.cands[m]), n, j).(text := Strip(LineAt(Candidate(calls.cands[m]), n, j).text))
    ensures Explained(calls, n, j, l)
  {
    hide Strip, LineAt;
    assert calls.cands[m] in calls.cands;
    assert From(Candidate(calls.cands[m]), n, j, l);
  }

  lemma FirstExplains(calls: Calls, stopped: nat -> bool, n: nat, j: nat, l: Placed)
    requires j < n
    requires var f := FirstLine(Got(calls.first), calls.retry, stopped, n, j);
             l == f || (l == f.(text := Strip(f.text)) && l.text != "")
    ensures l == NOTHING || Explained(calls, n, j, l)
  {
    hide Strip, LineAt, Accepted, StoppedBy;
    StripOfNothing();
  }

  lemma StripOfNothing()
    ensures Strip("") == ""
  {
  }

  /** What the contract of a batch says of one line: the row holds what the tournament of its
      calls leaves, which has a text and comes from one call; an answer cut at its last line
      counts for 60 at most and never as translated, any other is translated from 71 on; a
      row cut by the ceiling is kept back exactly when it shows or scores low; and without
      candidates it is the first answer's line, or nothing where that is blank. */
  ghost predicate StoredWell(calls: Calls, stopped: nat -> bool, n: nat, j: nat, judge: (nat, string, string) -> bool,
                             score: (nat, string) -> int, row: Option<Row>)
    requires j < n
  {
    && Won(calls, stopped, n, j, judge, row)
    && (row.Some? ==>
          var l, raw := row.value.line, score(j, row.value.line.text);
          && l.text != "" && Explained(calls, n, j, l)
          && row.value.score == (if l.finish == Length && raw > 60 then 60 else raw)
          && (row.value.status == Translated <==> raw > 70 && l.finish != Length)
          && CeilingRespected(n, j, row.value, raw))
    && (calls.cands == [] ==>
          var f := FirstLine(Got(calls.first), calls.retry, stopped, n, j);
          (row.None? <==> f.text == "") && (row.Some? ==> row.value.line == f))
  }

  /** With one candidate that gives line j another text, the judge is asked about the first
      text against it and decides which of the two is stored, with the trace of its call. */
  lemma OneRival(calls: Calls, c: Call, d: Call, stopped: nat -> bool, n: nat, j: nat,
                 judge: (nat, string, string) -> bool, score: (nat, string) -> int, row: Option<Row>)
    requires n >= 2 && j < n && StoredWell(calls, stopped, n, j, judge, score, row)
    requires calls.first == Done(c) && calls.cands == [d]
    requires !ExtraItems(c.raw, n) && forall i | 0 <= i < n :: Strip(Parse(c.raw, n)[i]) != ""
    requires Strip(Parse(d.raw, n)[j]) !in {"", Strip(Parse(c.raw, n)[j])}
    ensures var a, b := Strip(Parse(c.raw, n)[j]), Strip(Parse(d.raw, n)[j]);
            && row.Some? && row.value.line.text == (if judge(j, a, b) then b else a)
            && row.value.line.trace == if judge(j, a, b) then d.trace else c.trace
  {
    hide Parse, ExtraItems, LineReason, Strip, FirstLine, CeilingRespected, Explained;
    FirstLineExactly(c, calls.retry, stopped, n, j);
    var lines := CallLines(calls, stopped, n, j);
    var l :| Decided(lines, JudgeOf(judge, j), l)
             && (row.None? <==> l.text == "") && (row.Some? ==> row.value.line == l);
    TwoTexts(lines, JudgeOf(judge, j), l);
  }

  lemma TwoTexts(lines: seq<Placed>, judge: (string, string) -> bool, l: Placed)
    requires |lines| == 2 && Decided(lines, judge, l)
    requires TextOf(lines[0]) != "" && TextOf(lines[1]) !in {"", TextOf(lines[0])}
    ensures l == if judge(TextOf(lines[0]), TextOf(lines[1])) then lines[1].(text := TextOf(lines[1]))
                 else lines[0].(text := TextOf(lines[0]))
  {
    hide TextOf;
    assert New(lines, 0) && New(lines, 1);
    var w :| Decides(lines, judge, w, l);
    assert w[0 + 1] == 0;
  }

  /** A whole batch from the answers to the stored rows, for any model, judge and score. */
  method ProduceBatch(calls: Calls, n: nat, stopped: nat -> bool, judge: (nat, string, string) -> bool,
                      score: (nat, string) -> int)
    returns (rows: seq<Option<Row>>)
    ensures |rows| == n && forall j | 0 <= j < n :: StoredWell(calls, stopped, n, j, judge, score, rows[j])
  {
    hide AnswersOf, Chosen, Decided, Column, JudgeOf, StoredWell;
    var answers := Ask(calls, n, stopped);
    AnswersFit(calls, stopped, n, answers);
    rows := [];
    for j := 0 to n
      invariant |rows| == j
      invariant forall i | 0 <= i < j :: StoredWell(calls, stopped, n, i, judge, score, rows[i])
    {
      var line := PlayOff(answers, j, JudgeOf(judge, j));
      RowIsWell(calls, stopped, n, j, judge, score, answers, line);
      var raw := score(j, line.text);
      rows := rows + [if line.text == "" then None
                      else Some(Row(line, Capped(raw, line.finish), StatusOf(raw, line.finish)))];
    }
  }

  lemma RowIsWell(calls: Calls, stopped: nat -> bool, n: nat, j: nat, judge: (nat, string, string) -> bool,
                  score: (nat, string) -> int, answers: seq<seq<Placed>>, line: Placed)
    requires j < n && AnswersOf(calls, stopped, n, answers) && line == Chosen(answers, j, JudgeOf(judge, j))
    ensures var raw := score(j, line.text);
            StoredWell(calls, stopped, n, j, judge, score,
                       if line.text == "" then None
                       else Some(Row(line, Capped(raw, line.finish), StatusOf(raw, line.finish))))
  {
    hide AnswersOf, Chosen, Explained, FirstLine, CeilingRespected, Decided, CallLines, Column, JudgeOf, Strip, LineAt;
    AnswersFit(calls, stopped, n, answers);
    ChosenIsDecided(answers, j, JudgeOf(judge, j));
    ChosenIsExplained(calls, stopped, n, answers, j, JudgeOf(judge, j));
    ColumnIsCallLines(calls, stopped, n, answers, j);
    if line.text != "" {
      var raw := score(j, line.text);
      RowRespectsCeiling(n, j, Row(line, Capped(raw, line.finish), StatusOf(raw, line.finish)), raw);
    }
    if calls.cands == [] { OneAnswerStays(answers, j, JudgeOf(judge, j)); }
  }

  /** One line as every call of the batch gave it: the first answer with its repeat, then
      the candidates. */
  function CallLines(calls: Calls, stopped: nat -> bool, n: nat, j: nat): (lines: seq<Placed>)
    requires j < n
    ensures |lines| == 1 + |calls.cands| && lines[0] == FirstLine(Got(calls.first), calls.retry, stopped, n, j)
    ensures forall m | 0 <= m < |calls.cands| :: lines[m + 1] == LineAt(Candidate(calls.cands[m]), n, j)
  {
    [FirstLine(Got(calls.first), calls.retry, stopped, n, j)]
    + seq(|calls.cands|, m requires 0 <= m < |calls.cands| => LineAt(Candidate(calls.cands[m]), n, j))
  }

  /** The judge of one line. */
  function JudgeOf(judge: (nat, string, string) -> bool, j: nat): (string, string) -> bool {
    (a, b) => judge(j, a, b)
  }

  /** What is stored for a line is what the tournament of its calls leaves, or nothing where
      that is blank. */
  ghost predicate Won(calls: Calls, stopped: nat -> bool, n: nat, j: nat, judge: (nat, string, string) -> bool,
                      row: Option<Row>)
    requires j < n
  {
    exists l ::
      && Decided(CallLines(calls, stopped, n, j), JudgeOf(judge, j), l)
      && (row.None? <==> l.text == "") && (row.Some? ==> row.value.line == l)
  }

  lemma ColumnIsCallLines(calls: Calls, stopped: nat -> bool, n: nat, answers: seq<seq<Placed>>, j: nat)
    requires j < n && AnswersOf(calls, stopped, n, answers)
    ensures Column(answers, j) == CallLines(calls, stopped, n, j)
  {
    hide LineAt, FirstLine;
    var a, b := Column(answers, j), CallLines(calls, stopped, n, j);
    forall i | 0 < i < |a|
      ensures a[i] == b[i]
    {
      var m := i - 1;
      assert a[m + 1] == LineAt(Candidate(calls.cands[m]), n, j) == b[m + 1];
    }
  }

  lemma AnswersFit(calls: Calls, stopped: nat -> bool, n: nat, answers: seq<seq<Placed>>)
    requires AnswersOf(calls, stopped, n, answers)
    ensures |answers| == 1 + |calls.cands| && forall a | a in answers :: |a| == n
    ensures forall i | 0 <= i < n :: answers[0][i] == FirstLine(Got(calls.first), calls.retry, stopped, n, i)
  {
  }

  method Ask(calls: Calls, n: nat, stopped: nat -> bool) returns (answers: seq<seq<Placed>>)
    ensures AnswersOf(calls, stopped, n, answers)
  {
    hide FirstLine, LineAt, Parse;
    var lines := FirstLines(Got(calls.first), calls.retry, stopped, n);
    answers := [lines];
    for m := 0 to |calls.cands|
      invariant |answers| == 1 + m && answers[0] == lines && forall a | a in answers :: |a| == n
      invariant forall k, i | 0 <= k < m && 0 <= i < n :: answers[k + 1][i] == LineAt(Candidate(calls.cands[k]), n, i)
    {
      var more := LinesOf(calls.cands[m], n);
      answers := answers + [more];
    }
  }

  lemma OneAnswerStays(answers: seq<seq<Placed>>, j: nat, judge: (string, string) -> bool)
    requires |answers| == 1 && j < |answers[0]|
    ensures Chosen(answers, j, judge) == answers[0][j]
  {
    hide Strip;
    assert answers[..0] == [];
    EmptyPool(j);
  }

  // ── An answer in swapped order ──────────────────────────────────────────────

  const SWAPPED := "2. b\n1. a"

  lemma SwappedHits(p: Pattern)
    ensures |FindAll(p, SWAPPED, true)| == 2
    ensures FindAll(p, SWAPPED, true)[0].number == 2 && FindAll(p, SWAPPED, true)[1].number == 1
    ensures p.Line? ==> FindAll(p, SWAPPED, true)[0].text == "b" && FindAll(p, SWAPPED, true)[1].text == "a"
  {
    hide FindAll, Match;
    var tail := "\n1. a";
    assert Digits(2) == "2" && Digits(1) == "1";
    assert SWAPPED == Printed(2, "b", tail) && tail[1..] == Printed(1, "a", "");
    MatchOf(p, 2, "b", tail);
    FindAllUnfolds(p, SWAPPED, true);
    NothingInside(p, "b", tail);
    FindAllUnfolds(p, tail, false);
    MatchOf(p, 1, "a", "");
    FindAllUnfolds(p, tail[1..], true);
    NothingInside(p, "a", "");
    FindAllUnfolds(p, "", false);
  }

  /** A concrete answer: both lines filled, the second printed first, the first cut. */
  lemma SwappedCutSlipsThrough()
    ensures var c := Call(SWAPPED, Length, None);
            && Accepted(c.raw, 2) && Parse(c.raw, 2) == ["a", "b"] && CutPlace(c.raw, 2) == Some(0)
            && StatusOf(100, FinishAt(First(c), 2, 0)) == Translated
  {
    SwappedParses();
    CutIsHeldBack(Call(SWAPPED, Length, None), 2, 0, 100);
  }

  lemma SwappedWins()
    ensures var hits := FindAll(Line, SWAPPED, true);
            && |hits| == 2 && hits[1].number == 1 && 1 !in FirstAmong(hits, 1, 2)
            && FirstWins(hits, 2) == map[2 := "b", 1 := "a"] && |FirstWins(hits, 2)| == 2
  {
    hide FindAll, Strip;
    SwappedHits(Line);
    var hits := FindAll(Line, SWAPPED, true);
    StripOfTrimmed("a");
    StripOfTrimmed("b");
    assert FirstAmong(hits, 1, 2) == map[2 := "b"];
  }

  lemma SwappedParses()
    ensures Parse(SWAPPED, 2) == ["a", "b"] && Accepted(SWAPPED, 2) && CutPlace(SWAPPED, 2) == Some(0)
  {
    hide Parse, Strip, ExtraItems;
    SwappedTexts();
    SwappedHasNoExtra();
    StripOfTrimmed("a");
    StripOfTrimmed("b");
    SwappedPlace();
  }

  lemma SwappedTexts()
    ensures Parse(SWAPPED, 2) == ["a", "b"]
  {
    hide FindAll, SplitAll, StripThinking, FirstWins, LastWins, Strip, Decode;
    SwappedIsBare();
    SwappedWins();
    OneLetter("a");
    OneLetter("b");
    assert Found(SWAPPED, 2) == map[2 := "b", 1 := "a"];
  }

  lemma OneLetter(s: string)
    requires |s| == 1
    ensures Decode(s) == s
  {
    assert s[1..] == "" && Decode("") == "";
  }

  lemma SwappedHasNoExtra()
    ensures !ExtraItems(SWAPPED, 2)
  {
    hide FindAll, StripThinking, Strip;
    SwappedIsBare();
    SwappedHits(Check);
    var hits := FindAll(Check, SWAPPED, true);
    assert hits == [hits[0], hits[1]];
  }

  lemma SwappedPlace()
    ensures CutPlace(SWAPPED, 2) == Some(0)
  {
    hide FindAll, SplitAll, StripThinking, FirstWins, Strip, Found;
    SwappedIsBare();
    SwappedWins();
  }

  lemma SwappedIsBare()
    ensures Strip(StripThinking(SWAPPED)) == SWAPPED && StripThinking(SWAPPED) == SWAPPED
  {
    NoPart(SWAPPED, THINK_END);
    StripOfTrimmed(SWAPPED);
  }
}
