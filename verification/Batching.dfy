/** Cutting the pending list into batches for the model (remote_worker/offline_translate.py). */
module Batching {

  const PAYLOAD_CHARS := 2000
  const MAX_ITEMS := 32
  const ENTITY_BLOCKS := 6
  const TALK_LINES := 12

  /** Everything one prompt says about all of its lines. */
  datatype Key = Key(mod: string, speaker: string, style: string, recType: string, fieldType: string)

  /** One pending line: its id, its length in characters, what it shares with a prompt,
      its block of known names, the lines of conversation around it, and its scene. */
  datatype Item = Item(id: int, length: nat, key: Key, entities: string, talk: nat,
                       scene: string, scenePos: int)

  function KeyOf(b: Item, splitMods: bool): Key {
    if splitMods then b.key else b.key.(mod := "")
  }

  // ── What a batch may hold ───────────────────────────────────────────────────

  function Chars(b: seq<Item>): nat {
    if b == [] then 0 else Chars(b[..|b| - 1]) + b[|b| - 1].length
  }

  function Talk(b: seq<Item>): nat {
    if b == [] then 0 else Talk(b[..|b| - 1]) + b[|b| - 1].talk
  }

  function Blocks(b: seq<Item>): set<string> {
    set x | x in b && x.entities != "" :: x.entities
  }

  function Limit(cap: int): (n: nat)
    ensures 1 <= n <= MAX_ITEMS
  {
    var m := if cap < MAX_ITEMS then cap else MAX_ITEMS;
    if m < 1 then 1 else m
  }

  predicate BudgetOk(b: seq<Item>, cap: int) {
    |b| <= Limit(cap) && (|b| <= 1 || Chars(b) <= PAYLOAD_CHARS)
  }

  predicate KeyOk(b: seq<Item>, splitMods: bool) {
    forall x, y | x in b && y in b :: KeyOf(x, splitMods) == KeyOf(y, splitMods)
  }

  predicate ContextOk(b: seq<Item>, withTalk: bool) {
    |b| <= 1 || (|Blocks(b)| <= ENTITY_BLOCKS && (withTalk ==> Talk(b) <= TALK_LINES))
  }

  predicate Fits(b: seq<Item>, cap: int, splitMods: bool) {
    BudgetOk(b, cap) && KeyOk(b, splitMods) && ContextOk(b, true)
  }

  predicate Valid(b: seq<Item>, cap: int, splitMods: bool) {
    b != [] && Fits(b, cap, splitMods)
  }

  function Total(ns: seq<nat>): nat {
    if ns == [] then 0 else ns[0] + Total(ns[1..])
  }

  lemma {:induction false} TotalSnoc(ns: seq<nat>, n: nat)
    ensures Total(ns + [n]) == Total(ns) + n
  {
    if ns == [] {
      assert [] + [n] == [n] && [n][1..] == [];
    } else {
      assert (ns + [n])[1..] == ns[1..] + [n];
      TotalSnoc(ns[1..], n);
    }
  }

  function Lengths(b: seq<Item>): (ns: seq<nat>)
    ensures |ns| == |b| && forall i | 0 <= i < |b| :: ns[i] == b[i].length
  {
    seq(|b|, i requires 0 <= i < |b| => b[i].length)
  }

  function Talks(b: seq<Item>): (ns: seq<nat>)
    ensures |ns| == |b| && forall i | 0 <= i < |b| :: ns[i] == b[i].talk
  {
    seq(|b|, i requires 0 <= i < |b| => b[i].talk)
  }

  lemma {:induction false} TotalsAre(b: seq<Item>)
    ensures Chars(b) == Total(Lengths(b)) && Talk(b) == Total(Talks(b))
  {
    hide Total;
    if b == [] {
      NoTotal();
    } else {
      var n := |b| - 1;
      TotalsAre(b[..n]);
      assert Lengths(b) == Lengths(b[..n]) + [b[n].length] && Talks(b) == Talks(b[..n]) + [b[n].talk];
      TotalSnoc(Lengths(b[..n]), b[n].length);
      TotalSnoc(Talks(b[..n]), b[n].talk);
    }
  }

  lemma NoTotal()
    ensures Total([]) == 0
  {
  }

  /** The limits in numbers: one to 32 lines and no more than the cap, which counts as one at
      least; more than one only with at most 2000 characters, at most 6 different blocks of
      known names and at most 12 lines of talk; and the same speaker, style, record type and
      field type, and mod where mods are split, in all lines. */
  lemma ValidExactly(b: seq<Item>, cap: int, splitMods: bool)
    ensures Valid(b, cap, splitMods) <==>
            && 1 <= |b| <= 32 && (|b| > 1 ==> |b| <= cap)
            && (|b| > 1 ==>
                  && Total(Lengths(b)) <= 2000
                  && Total(Talks(b)) <= 12
                  && |set x | x in b && x.entities != "" :: x.entities| <= 6)
            && forall i, j | 0 <= i < j < |b| ::
                 && b[i].key.speaker == b[j].key.speaker && b[i].key.style == b[j].key.style
                 && b[i].key.recType == b[j].key.recType && b[i].key.fieldType == b[j].key.fieldType
                 && (splitMods ==> b[i].key.mod == b[j].key.mod)
  {
    hide Chars, Talk, Total;
    TotalsAre(b);
    SameKeys(b, splitMods);
  }

  lemma SameKeys(b: seq<Item>, splitMods: bool)
    ensures KeyOk(b, splitMods) <==>
            forall i, j | 0 <= i < j < |b| ::
              && b[i].key.speaker == b[j].key.speaker && b[i].key.style == b[j].key.style
              && b[i].key.recType == b[j].key.recType && b[i].key.fieldType == b[j].key.fieldType
              && (splitMods ==> b[i].key.mod == b[j].key.mod)
  {
    if KeyOk(b, splitMods) {
      assert forall i | 0 <= i < |b| :: b[i] in b;
    }
  }

  // ── Segments of a batch fit when the batch does ─────────────────────────────

  lemma {:induction false} SumsSplit(a: seq<Item>, b: seq<Item>)
    ensures Chars(a + b) == Chars(a) + Chars(b)
    ensures Talk(a + b) == Talk(a) + Talk(b)
    decreases |b|
  {
    if b == [] {
      assert a + b == a;
    } else {
      var n := |b| - 1;
      assert (a + b)[..|a| + n] == a + b[..n];
      SumsSplit(a, b[..n]);
    }
  }

  lemma SubsetSize<T>(a: set<T>, b: set<T>)
    requires a <= b
    ensures |a| <= |b|
  {
    assert b == a + (b - a);
  }

  lemma SegmentFits(b: seq<Item>, i: nat, j: nat, cap: int, splitMods: bool)
    requires i <= j <= |b| && Fits(b, cap, splitMods)
    ensures Fits(b[i..j], cap, splitMods)
  {
    hide Chars, Talk, Blocks;
    var s := b[i..j];
    SegmentSums(b, i, j);
    assert forall x | x in s :: x in b;
  }

  lemma SegmentSums(b: seq<Item>, i: nat, j: nat)
    requires i <= j <= |b|
    ensures Chars(b[i..j]) <= Chars(b) && Talk(b[i..j]) <= Talk(b) && |Blocks(b[i..j])| <= |Blocks(b)|
  {
    hide Chars, Talk;
    var s := b[i..j];
    assert b == b[..i] + s + b[j..];
    SumsSplit(b[..i] + s, b[j..]);
    SumsSplit(b[..i], s);
    BlocksOfSegment(b, i, j);
  }

  lemma BlocksOfSegment(b: seq<Item>, i: nat, j: nat)
    requires i <= j <= |b|
    ensures |Blocks(b[i..j])| <= |Blocks(b)|
  {
    assert forall x | x in b[i..j] :: x in b;
    assert Blocks(b[i..j]) <= Blocks(b);
    SubsetSize(Blocks(b[i..j]), Blocks(b));
  }

  lemma PrefixFits(s: seq<Item>, k: nat, j: nat, cap: int, splitMods: bool)
    requires j <= k <= |s| && Fits(s[..k], cap, splitMods)
    ensures Fits(s[..j], cap, splitMods)
  {
    hide Fits;
    SegmentFits(s[..k], 0, j, cap, splitMods);
    assert s[..k][0..j] == s[..j];
  }

  // ── Divisions ───────────────────────────────────────────────────────────────

  function Joined(d: seq<seq<Item>>): seq<Item> {
    if d == [] then [] else d[0] + Joined(d[1..])
  }

  /** d divides s into consecutive valid batches. */
  predicate Divides(d: seq<seq<Item>>, s: seq<Item>, cap: int, splitMods: bool) {
    Joined(d) == s && forall b | b in d :: Valid(b, cap, splitMods)
  }

  /** b is the longest valid batch at the head of s. */
  predicate Longest(b: seq<Item>, s: seq<Item>, cap: int, splitMods: bool) {
    && b != [] && b <= s && Fits(b, cap, splitMods)
    && (|b| == |s| || !Fits(s[..|b| + 1], cap, splitMods))
  }

  /** d takes the longest valid batch every time. */
  predicate Greedy(d: seq<seq<Item>>, s: seq<Item>, cap: int, splitMods: bool)
    decreases |d|
  {
    if d == [] then s == []
    else Longest(d[0], s, cap, splitMods) && Greedy(d[1..], s[|d[0]|..], cap, splitMods)
  }

  lemma {:induction false} GreedyDivides(d: seq<seq<Item>>, s: seq<Item>, cap: int, splitMods: bool)
    requires Greedy(d, s, cap, splitMods)
    ensures Divides(d, s, cap, splitMods)
    decreases |d|
  {
    if d != [] {
      GreedyDivides(d[1..], s[|d[0]|..], cap, splitMods);
      assert s == d[0] + s[|d[0]|..];
      assert forall b | b in d :: b == d[0] || b in d[1..];
    }
  }

  /** No valid batch at the head is longer than the longest. */
  lemma LongestIsLongest(b: seq<Item>, s: seq<Item>, k: nat, cap: int, splitMods: bool)
    requires Longest(b, s, cap, splitMods) && k <= |s| && Fits(s[..k], cap, splitMods)
    ensures k <= |b|
  {
    hide Fits;
    if k > |b| { PrefixFits(s, k, |b| + 1, cap, splitMods); }
  }

  /** Greedy never needs more batches for a suffix than any division needs for the whole. */
  lemma {:induction false} GreedyStaysAhead(g: seq<seq<Item>>, s: seq<Item>, d: seq<seq<Item>>, t: seq<Item>,
                                           cap: int, splitMods: bool)
    requires Greedy(g, s, cap, splitMods) && Divides(d, t, cap, splitMods)
    requires |s| <= |t| && s == t[|t| - |s|..]
    ensures |g| <= |d|
    decreases |d|
  {
    hide Fits;
    if g != [] {
      assert d != [];
      var o, n := |t| - |s|, |d[0]|;
      var t' := Joined(d[1..]);
      assert t == d[0] + t' && d[0] in d;
      assert forall b | b in d[1..] :: b in d;
      if n <= o {
        assert s == t'[|t'| - |s|..];
        GreedyStaysAhead(g, s, d[1..], t', cap, splitMods);
      } else {
        SegmentFits(d[0], o, n, cap, splitMods);
        assert s[..n - o] == d[0][o..n];
        LongestIsLongest(g[0], s, n - o, cap, splitMods);
        var s' := s[|g[0]|..];
        assert s' == t'[|t'| - |s'|..];
        GreedyStaysAhead(g[1..], s', d[1..], t', cap, splitMods);
      }
    }
  }

  /** The loop's batches are as few as any division into consecutive valid batches allows. */
  lemma GreedyIsOptimal(g: seq<seq<Item>>, d: seq<seq<Item>>, s: seq<Item>, cap: int, splitMods: bool)
    requires Greedy(g, s, cap, splitMods) && Divides(d, s, cap, splitMods)
    ensures Divides(g, s, cap, splitMods) && |g| <= |d|
  {
    hide Valid, Longest, Joined;
    GreedyDivides(g, s, cap, splitMods);
    GreedyStaysAhead(g, s, d, s, cap, splitMods);
  }

  // ── The code ────────────────────────────────────────────────────────────────

  lemma NoChars(b: seq<Item>)
    requires b == []
    ensures Chars(b) == 0
  {
  }

  lemma CharsNext(s: seq<Item>, i: nat, j: nat)
    requires i <= j < |s|
    ensures Chars(s[i..j + 1]) == Chars(s[i..j]) + s[j].length
  {
    assert s[i..j + 1][..j - i] == s[i..j];
  }

  /** How many lines from `start` fit the payload budget and the item cap. */
  method PlanBatch(pending: seq<Item>, start: nat, cap: int) returns (n: nat)
    requires start <= |pending|
    ensures n >= 1
    ensures start < |pending| ==>
      && start + n <= |pending| && BudgetOk(pending[start..start + n], cap)
      && (start + n == |pending| || !BudgetOk(pending[start..start + n + 1], cap))
  {
    hide Chars;
    n := 0;
    var chars: nat := 0;
    NoChars(pending[start..start]);
    var limit := Limit(cap);
    while start + n < |pending| && n < limit
      invariant start + n <= |pending| && n <= limit
      invariant chars == Chars(pending[start..start + n]) && (n > 1 ==> chars <= PAYLOAD_CHARS)
    {
      var length := pending[start + n].length;
      CharsNext(pending, start, start + n);
      if n > 0 && chars + length > PAYLOAD_CHARS { break; }
      chars := chars + length;
      n := n + 1;
    }
    n := if n < 1 then 1 else n;
  }

  /** The leading stretch of one batch key, ended also by the first line of a live scene. */
  method CutKey(batch: seq<Item>, live: set<string>, splitMods: bool) returns (end: nat)
    requires batch != []
    ensures 1 <= end <= |batch| && KeyOk(batch[..end], splitMods)
    ensures forall j | 1 <= j < end :: batch[j].scene !in live
    ensures end == |batch| || batch[end].scene in live || !KeyOk(batch[..end + 1], splitMods)
  {
    var lead := KeyOf(batch[0], splitMods);
    end := 1;
    while end < |batch| && KeyOf(batch[end], splitMods) == lead && batch[end].scene !in live
      invariant 1 <= end <= |batch|
      invariant forall x | x in batch[..end] :: KeyOf(x, splitMods) == lead
      invariant forall j | 1 <= j < end :: batch[j].scene !in live
    {
      assert batch[..end + 1] == batch[..end] + [batch[end]];
      end := end + 1;
    }
    if end < |batch| {
      assert batch[0] == batch[..end + 1][0] && batch[end] == batch[..end + 1][end];
    }
  }

  lemma ContextGrows(batch: seq<Item>, n: nat)
    requires n < |batch|
    ensures Talk(batch[..n + 1]) == Talk(batch[..n]) + batch[n].talk
    ensures Blocks(batch[..n + 1]) == Blocks(batch[..n]) + (if batch[n].entities == "" then {} else {batch[n].entities})
  {
    assert batch[..n + 1] == batch[..n] + [batch[n]];
    assert batch[..n + 1][..n] == batch[..n];
  }

  /** The leading stretch whose context fits the prompt. */
  method FitContext(batch: seq<Item>, withTalk: bool) returns (r: seq<Item>)
    ensures r <= batch && (batch != [] ==> r != []) && ContextOk(r, withTalk)
    ensures |r| == |batch| || !ContextOk(batch[..|r| + 1], withTalk)
  {
    hide Talk, Blocks;
    var ents: set<string> := {};
    var talk: nat := 0;
    assert batch[..0] == [];
    NoContext();
    for n := 0 to |batch|
      invariant ents == Blocks(batch[..n]) && talk == (if withTalk then Talk(batch[..n]) else 0)
      invariant ContextOk(batch[..n], withTalk)
    {
      ContextGrows(batch, n);
      var b := batch[n];
      var newEnts := ents + (if b.entities == "" then {} else {b.entities});
      var newTalk := talk + if withTalk then b.talk else 0;
      if n > 0 && (|newEnts| > ENTITY_BLOCKS || newTalk > TALK_LINES) { return batch[..n]; }
      ents, talk := newEnts, newTalk;
    }
    assert batch[..|batch|] == batch;
    return batch;
  }

  lemma NoContext()
    ensures Talk([]) == 0 && Blocks([]) == {}
  {
  }

  /** The three cuts after one another; without live scenes they take the longest valid
      batch. */
  method NextBatch(pending: seq<Item>, i: nat, live: set<string>, cap: int, splitMods: bool)
    returns (batch: seq<Item>)
    requires i < |pending| && pending[i].scene !in live
    ensures Valid(batch, cap, splitMods) && batch <= pending[i..]
    ensures forall x | x in batch :: x.scene !in live
    ensures i + |batch| == |pending| || pending[i + |batch|].scene in live
            || !Fits(pending[i..][..|batch| + 1], cap, splitMods)
    ensures live == {} ==> Longest(batch, pending[i..], cap, splitMods)
  {
    hide BudgetOk, KeyOk, ContextOk;
    var n := PlanBatch(pending, i, cap);
    var planned := pending[i..i + n];
    var end := CutKey(planned, live, splitMods);
    var cut := planned[..end];
    batch := FitContext(cut, true);
    assert pending[i..][..n] == planned;
    assert i + n < |pending| ==> pending[i..][..n + 1] == pending[i..i + n + 1];
    assert batch == cut[..|batch|] == pending[i..][..|batch|];
    assert forall j | 0 <= j < |batch| :: batch[j] == planned[j];
    CutsAreValid(pending[i..], n, end, |batch|, cap, splitMods);
    if i + |batch| < |pending| && pending[i + |batch|].scene !in live {
      if end < n { assert planned[end] == pending[i + end]; }
      CutsAreLongest(pending[i..], n, end, |batch|, cap, splitMods);
    }
  }

  lemma CutsAreValid(s: seq<Item>, n: nat, e: nat, k: nat, cap: int, splitMods: bool)
    requires 1 <= k <= e <= n <= |s|
    requires BudgetOk(s[..n], cap) && KeyOk(s[..n][..e], splitMods) && ContextOk(s[..n][..e][..k], true)
    ensures Valid(s[..k], cap, splitMods)
  {
    hide BudgetOk, KeyOk, ContextOk;
    assert s[..n][..e] == s[..e] && s[..e][..k] == s[..k] && s[..n][..k] == s[..k];
    BudgetOfPrefix(s[..n], k, cap);
    KeyOfPrefix(s[..e], k, splitMods);
  }

  lemma CutsAreLongest(s: seq<Item>, n: nat, e: nat, k: nat, cap: int, splitMods: bool)
    requires 1 <= k <= e <= n <= |s| && Valid(s[..k], cap, splitMods)
    requires n == |s| || !BudgetOk(s[..n + 1], cap)
    requires k < e || e == n || !KeyOk(s[..n][..e + 1], splitMods)
    requires k == e || !ContextOk(s[..n][..e][..k + 1], true)
    ensures Longest(s[..k], s, cap, splitMods)
  {
    hide BudgetOk, KeyOk, ContextOk;
    if k < |s| {
      if k < e { assert s[..n][..e][..k + 1] == s[..k + 1]; }
      else if e < n { assert s[..n][..e + 1] == s[..k + 1]; }
    }
  }

  lemma KeyOfPrefix(b: seq<Item>, k: nat, splitMods: bool)
    requires k <= |b| && KeyOk(b, splitMods)
    ensures KeyOk(b[..k], splitMods)
  {
    assert forall x | x in b[..k] :: x in b;
  }

  lemma BudgetOfPrefix(b: seq<Item>, k: nat, cap: int)
    requires k <= |b| && BudgetOk(b, cap)
    ensures BudgetOk(b[..k], cap)
  {
    assert b == b[..k] + b[k..];
    SumsSplit(b[..k], b[k..]);
  }

  /** The batches so far lead greedily up to position i. */
  ghost predicate Leads(out: seq<seq<Item>>, s: seq<Item>, i: nat, cap: int, splitMods: bool)
    requires i <= |s|
  {
    forall rest | Greedy(rest, s[i..], cap, splitMods) :: Greedy(out + rest, s, cap, splitMods)
  }

  lemma LeadsNext(out: seq<seq<Item>>, s: seq<Item>, i: nat, b: seq<Item>, cap: int, splitMods: bool)
    requires i <= |s| && Leads(out, s, i, cap, splitMods) && Longest(b, s[i..], cap, splitMods)
    ensures i + |b| <= |s| && Leads(out + [b], s, i + |b|, cap, splitMods)
  {
    hide Fits;
    assert s[i..][|b|..] == s[i + |b|..];
    forall rest | Greedy(rest, s[i + |b|..], cap, splitMods)
      ensures Greedy(out + [b] + rest, s, cap, splitMods)
    {
      assert ([b] + rest)[1..] == rest;
      assert Greedy([b] + rest, s[i..], cap, splitMods);
      assert out + [b] + rest == out + ([b] + rest);
    }
  }

  lemma LeadsNothing(s: seq<Item>, cap: int, splitMods: bool)
    ensures Leads([], s, 0, cap, splitMods)
  {
    assert s[0..] == s;
    assert forall rest: seq<seq<Item>> :: [] + rest == rest;
  }

  lemma LeadsAll(out: seq<seq<Item>>, s: seq<Item>, cap: int, splitMods: bool)
    requires Leads(out, s, |s|, cap, splitMods)
    ensures Greedy(out, s, cap, splitMods)
  {
    assert Greedy([], s[|s|..], cap, splitMods);
    assert out + [] == out;
  }
}
