/** The deliver loop: one cycle, how fast it gets past rows the host rejects, and which rows
    never get past them (remote_worker/remote_server.py). */
module Delivery {
  import opened Bytes
  import opened ResultStore
  import opened Protocol
  import G = Grouping

  const BATCH_ROWS := 200
  const PRUNE_EVERY := 60

  /** The host's answer to one post; `ok` is false when the request or the reply is lost. */
  datatype Reply = Reply(ok: bool, confirmed: nat, failed: set<nat>)

  function AidOf(r: Row): Aid {
    r.item.aid
  }

  function GroupSeqs(u: seq<Row>, aid: Aid): set<nat> {
    SeqsOf(G.Filter(u, AidOf, aid))
  }

  /** What one cycle's posts acknowledge for the given assignments. */
  function Acks(u: seq<Row>, aids: set<Aid>, post: (Aid, set<nat>) -> Reply): set<nat> {
    set r | r in u && r.item.aid in aids
            && post(r.item.aid, GroupSeqs(u, r.item.aid)).ok
            && r.seqNo !in post(r.item.aid, GroupSeqs(u, r.item.aid)).failed :: r.seqNo
  }

  function AidsOf(u: seq<Row>): set<Aid> {
    set r | r in u :: r.item.aid
  }

  /** The assignments a done may be posted for. */
  function Finished(db: Db): set<Aid> {
    set aid | aid in db.assignments && db.assignments[aid] == Complete && aid !in db.doneSent
              && UndeliveredOf(db.results, aid) == {}
  }

  lemma MarkedTwice(rows: seq<Row>, a: set<nat>, b: set<nat>)
    ensures Marked(Marked(rows, a), b) == Marked(rows, a + b)
  {
  }

  lemma MarkedNothing(rows: seq<Row>)
    ensures Marked(rows, {}) == rows
  {
  }

  lemma AcksOfOne(u: seq<Row>, aids: set<Aid>, aid: Aid, post: (Aid, set<nat>) -> Reply)
    ensures var r := post(aid, GroupSeqs(u, aid));
            Acks(u, aids + {aid}, post) == Acks(u, aids, post) + if r.ok then GroupSeqs(u, aid) - r.failed else {}
  {
    forall x | x in u && x.item.aid == aid
      ensures x in G.Filter(u, AidOf, aid)
    {
      InFilter(u, AidOf, aid, x);
    }
    var r := post(aid, GroupSeqs(u, aid));
    var rhs := Acks(u, aids, post) + if r.ok then GroupSeqs(u, aid) - r.failed else {};
    forall s | s in rhs
      ensures s in Acks(u, aids + {aid}, post)
    {
      if s !in Acks(u, aids, post) {
        var x :| x in G.Filter(u, AidOf, aid) && x.seqNo == s;
        assert x in u && x.item.aid == aid;
      }
    }
  }

  lemma {:induction false} InFilter<T, K>(s: seq<T>, f: T -> K, k: K, x: T)
    requires x in s && f(x) == k
    ensures x in G.Filter(s, f, k)
  {
    var n := |s| - 1;
    if x != s[n] { InFilter(s[..n], f, k, x); }
  }

  class DeliverLoop {
    const store: Store
    var highConfirmed: nat
    var cycles: nat

    constructor (store: Store)
      ensures this.store == store && highConfirmed == 0 && cycles == 0
    {
      this.store := store;
      highConfirmed, cycles := 0, 0;
    }

    /** The loop's part of the world: its store and its memory, no post under way. */
    predicate Mirrors(w: World)
      reads this, store
    {
      w.db == store.Contents() && w.flight.Nothing? && w.highConfirmed == highConfirmed
    }

    /** One post and what becomes of it: a lost one changes nothing. */
    method PostOne(seqs: set<nat>, reply: Reply, ghost w: World) returns (ghost events: seq<Event>, ghost v: World)
      requires Mirrors(w) && seqs <= SeqsOf(store.results)
      modifies this`highConfirmed, store`results
      ensures store.results == if reply.ok then Marked(old(store.results), seqs - reply.failed) else old(store.results)
      ensures highConfirmed == if reply.ok then Max(old(highConfirmed), reply.confirmed) else old(highConfirmed)
      ensures Run(w, events) == Some(v) && Mirrors(v)
    {
      hide Marked, Run;
      if reply.ok {
        store.MarkDeliveredSeqs(seqs - reply.failed);
        if reply.confirmed != 0 && reply.confirmed > highConfirmed { highConfirmed := reply.confirmed; }
      }
      events, v := PostRuns(w, seqs, reply);
    }

    /** The posts of one cycle, one for each assignment with undelivered rows. */
    method PostBatches(undelivered: seq<Row>, post: (Aid, set<nat>) -> Reply, ghost w: World)
      returns (ghost events: seq<Event>, ghost v: World)
      requires Mirrors(w) && forall r | r in undelivered :: r in store.results
      modifies this`highConfirmed, store`results
      ensures store.results == Marked(old(store.results), Acks(undelivered, AidsOf(undelivered), post))
      ensures HighestOf(old(highConfirmed), highConfirmed, undelivered, AidsOf(undelivered), post)
      ensures Run(w, events) == Some(v) && Mirrors(v)
    {
      hide Marked, Acks, GroupSeqs, G.Filter, G.First, HighestOf, Run, Mirrors;
      var byAid := G.CollectGroups(undelivered, AidOf);
      ghost var was, seen: set<Aid> := store.results, {};
      events, v := [], w;
      RunNothing(w);
      NoAcks(undelivered, post);
      MarkedNothing(was);
      NoneConfirmed(highConfirmed, undelivered, post);
      for i := 0 to |byAid.keys|
        invariant seen == set k | k in byAid.keys[..i]
        invariant store.results == Marked(was, Acks(undelivered, seen, post))
        invariant HighestOf(old(highConfirmed), highConfirmed, undelivered, seen, post)
        invariant Run(w, events) == Some(v) && Mirrors(v)
      {
        var aid := byAid.keys[i];
        assert byAid.keys[..i + 1] == byAid.keys[..i] + [aid] && aid in byAid.keys;
        var seqs := SeqsOf(byAid.groups[aid]);
        GroupIsSeqs(undelivered, aid, byAid.groups[aid]);
        GroupIsStored(undelivered, aid, was, Acks(undelivered, seen, post));
        ghost var high := highConfirmed;
        var reply := post(aid, seqs);
        ghost var more, u := PostOne(seqs, reply, v);
        RunJoins(w, events, v, more);
        events, v := events + more, u;
        AcksOfOne(undelivered, seen, aid, post);
        MarkedTwice(was, Acks(undelivered, seen, post), seqs - reply.failed);
        assert !reply.ok ==> Acks(undelivered, seen + {aid}, post) == Acks(undelivered, seen, post);
        ConfirmedNext(old(highConfirmed), high, undelivered, seen, aid, post);
        seen := seen + {aid};
      }
      assert byAid.keys[..|byAid.keys|] == byAid.keys;
      KeysAreAids(undelivered, byAid.keys);
    }

    /** One cycle: post, prune every sixtieth time, announce what is finished. Nothing coming
        in between, it is a run of the protocol. */
    method Cycle(post: (Aid, set<nat>) -> Reply, postDone: Aid -> bool, ghost w: World)
      returns (ghost events: seq<Event>, ghost v: World)
      requires Mirrors(w)
      modifies this, store`results, store`doneSent
      ensures cycles == old(cycles) + 1
      ensures var u := FirstUndelivered(old(store.results), 200);
              var acked := Marked(old(store.results), Acks(u, AidsOf(u), post));
              && store.results == (if cycles % 60 == 0 && highConfirmed > 0 then Pruned(acked, highConfirmed)
                                   else acked)
              && HighestOf(old(highConfirmed), highConfirmed, u, AidsOf(u), post)
      ensures store.doneSent == old(store.doneSent)
              + set aid | aid in Finished(store.Contents().(doneSent := old(store.doneSent))) && postDone(aid)
      ensures Run(w, events) == Some(v) && Mirrors(v)
    {
      hide FirstUndelivered, Marked, Acks, Pruned, HighestOf, Run;
      cycles := cycles + 1;
      var undelivered := FirstUndelivered(store.results, BATCH_ROWS);
      if undelivered != [] {
        events, v := PostBatches(undelivered, post, w);
      } else {
        events, v := [], w;
        RunNothing(w);
        NoRowsNoAcks(undelivered, post);
        MarkedNothing(store.results);
        NoneConfirmed(highConfirmed, undelivered, post);
        assert AidsOf(undelivered) == {};
      }
      if cycles % PRUNE_EVERY == 0 && highConfirmed != 0 {
        store.PruneConfirmed(highConfirmed);
        RunNext(w, events, v, Prune);
        events, v := events + [Prune], Next(v, Prune);
      }
      ghost var more, u := AnnounceFinished(postDone, v);
      RunJoins(w, events, v, more);
      events, v := events + more, u;
    }

    /** Tells the host about every finished assignment it has not confirmed yet. */
    method AnnounceFinished(postDone: Aid -> bool, ghost w: World) returns (ghost events: seq<Event>, ghost v: World)
      requires Mirrors(w)
      modifies store`doneSent
      ensures store.doneSent == old(store.doneSent)
              + set aid | aid in Finished(old(store.Contents())) && postDone(aid)
      ensures forall aid :: aid in store.doneSent <==>
                || aid in old(store.doneSent)
                || (aid in store.assignments && store.assignments[aid] == Complete && postDone(aid)
                    && forall r | r in store.results && r.item.aid == aid :: r.delivered)
      ensures Run(w, events) == Some(v) && Mirrors(v)
    {
      hide Run;
      ghost var db := store.Contents();
      var left := store.assignments.Keys;
      ghost var seen: set<Aid> := {};
      events, v := [], w;
      RunNothing(w);
      while left != {}
        invariant seen !! left && seen + left == store.assignments.Keys
        invariant store.doneSent == db.doneSent + set aid | aid in Finished(db) && postDone(aid) && aid in seen
        invariant Run(w, events) == Some(v) && Mirrors(v)
        decreases left
      {
        var aid :| aid in left;
        if store.assignments[aid] == Complete && aid !in store.doneSent && UndeliveredOf(store.results, aid) == {} {
          RunNext(w, events, v, PostDone(aid));
          events, v := events + [PostDone(aid)], Next(v, PostDone(aid));
          if postDone(aid) {
            store.SetDoneSent(aid);
            RunNext(w, events, v, DoneAnswered(aid));
            events, v := events + [DoneAnswered(aid)], Next(v, DoneAnswered(aid));
          }
        }
        left, seen := left - {aid}, seen + {aid};
      }
      forall aid
        ensures UndeliveredOf(store.results, aid) == {}
                <==> forall r | r in store.results && r.item.aid == aid :: r.delivered
      {
        NothingUndelivered(store.results, aid);
      }
    }

    /** k cycles with a reachable host that rejects the bad rows and confirms whatever
        numbers it likes, other ones in every cycle. */
    method RejectedCycles(bad: set<nat>, confirm: nat -> Confirm, k: nat, postDone: Aid -> bool, ghost w: World)
      requires Mirrors(w)
      modifies this, store`results, store`doneSent
      ensures Memory(store.results, highConfirmed, cycles)
              == Remembered(Memory(old(store.results), old(highConfirmed), old(cycles)), bad, confirm, k)
      ensures AllOut(old(store.results), bad, k) ==> Waiting(store.results) <= bad
    {
      hide AllOut, Waiting, Run, Remembered, CycleOf, Marked, Acks, FirstUndelivered, Pruned, HighestOf, AidsOf,
        Finished;
      ghost var v, first := w, Memory(store.results, highConfirmed, cycles);
      RememberedAtFirst(first, bad, confirm);
      for i := 0 to k
        invariant Mirrors(v) && Memory(store.results, highConfirmed, cycles) == Remembered(first, bad, confirm, i)
      {
        ghost var before := Memory(store.results, highConfirmed, cycles);
        ghost var _, u := Cycle(Rejecting(bad, confirm(i)), postDone, v);
        RejectedCycleIsOne(before, bad, confirm(i), highConfirmed, store.results);
        RememberedNext(first, bad, confirm, i);
        v := u;
      }
      ghost var bounds := BoundsOf(first, bad, confirm, k);
      if AllOut(first.rows, bad, k) { PoisonRowsDoNotBlock(first.rows, bad, bounds); }
    }
  }

  lemma NothingUndelivered(rows: seq<Row>, aid: Aid)
    ensures UndeliveredOf(rows, aid) == {} <==> forall r | r in rows && r.item.aid == aid :: r.delivered
  {
    if r :| r in rows && r.item.aid == aid && !r.delivered { assert r.seqNo in UndeliveredOf(rows, aid); }
  }

  // ── What the loop remembers ─────────────────────────────────────────────────

  /** The number a host confirms in its answer to one post. */
  type Confirm = (Aid, set<nat>) -> nat

  /** The rows, the highest confirmed number and the count of cycles. */
  datatype Memory = Memory(rows: seq<Row>, high: nat, cycles: nat)

  /** The highest of a number and of those confirmed for the first n rows' assignments. */
  function Highest(high: nat, u: seq<Row>, n: nat, post: (Aid, set<nat>) -> Reply): nat
    requires n <= |u|
  {
    if n == 0 then high else
    var r := post(u[n - 1].item.aid, GroupSeqs(u, u[n - 1].item.aid));
    var before := Highest(high, u, n - 1, post);
    if r.ok then Max(before, r.confirmed) else before
  }

  /** One cycle of the loop against a host that rejects the bad rows. */
  function CycleOf(m: Memory, bad: set<nat>, confirm: Confirm): Memory {
    var u := FirstUndelivered(m.rows, BATCH_ROWS);
    var high := Highest(m.high, u, |u|, Rejecting(bad, confirm));
    Memory(CycleRows(m.rows, bad, if (m.cycles + 1) % PRUNE_EVERY == 0 then high else 0), high, m.cycles + 1)
  }

  function Remembered(m: Memory, bad: set<nat>, confirm: nat -> Confirm, k: nat): Memory {
    if k == 0 then m else CycleOf(Remembered(m, bad, confirm, k - 1), bad, confirm(k - 1))
  }

  lemma RememberedAtFirst(m: Memory, bad: set<nat>, confirm: nat -> Confirm)
    ensures Remembered(m, bad, confirm, 0) == m
  {
  }

  lemma RememberedNext(m: Memory, bad: set<nat>, confirm: nat -> Confirm, k: nat)
    ensures Remembered(m, bad, confirm, k + 1) == CycleOf(Remembered(m, bad, confirm, k), bad, confirm(k))
  {
  }

  /** The bounds the loop prunes to, cycle by cycle. */
  lemma {:induction false} BoundsOf(m: Memory, bad: set<nat>, confirm: nat -> Confirm, k: nat)
    returns (bounds: seq<int>)
    ensures |bounds| == k && Remembered(m, bad, confirm, k).rows == AfterCycles(m.rows, bad, bounds)
  {
    hide CycleRows, Highest;
    bounds := [];
    if k > 0 {
      var earlier := BoundsOf(m, bad, confirm, k - 1);
      var n := Remembered(m, bad, confirm, k);
      bounds := earlier + [if n.cycles % PRUNE_EVERY == 0 then n.high else 0];
      assert bounds[..k - 1] == earlier;
    }
  }

  /** A cycle against such a host does to the loop's memory what CycleOf says. */
  lemma RejectedCycleIsOne(m: Memory, bad: set<nat>, confirm: Confirm, high: nat, out: seq<Row>)
    requires var u := FirstUndelivered(m.rows, BATCH_ROWS);
             var acked := Marked(m.rows, Acks(u, AidsOf(u), Rejecting(bad, confirm)));
             && out == (if (m.cycles + 1) % PRUNE_EVERY == 0 && high > 0 then Pruned(acked, high) else acked)
             && HighestOf(m.high, high, u, AidsOf(u), Rejecting(bad, confirm))
    ensures Memory(out, high, m.cycles + 1) == CycleOf(m, bad, confirm)
  {
    hide FirstUndelivered, Marked, Acks, AidsOf, Without, HighestOf, Highest;
    var u := FirstUndelivered(m.rows, BATCH_ROWS);
    AcksOfReachable(u, bad, confirm);
    HighestIsUnique(m.high, high, u, Rejecting(bad, confirm));
  }

  /** The highest number: none of the old one and those confirmed in these posts is above
      it, and it is one of them. */
  ghost predicate HighestOf(was: nat, is_: nat, u: seq<Row>, aids: set<Aid>, post: (Aid, set<nat>) -> Reply) {
    && is_ >= was
    && (forall aid | aid in aids && post(aid, GroupSeqs(u, aid)).ok :: is_ >= post(aid, GroupSeqs(u, aid)).confirmed)
    && (is_ == was || exists aid | aid in aids ::
          post(aid, GroupSeqs(u, aid)).ok && is_ == post(aid, GroupSeqs(u, aid)).confirmed)
  }

  lemma NoneConfirmed(high: nat, u: seq<Row>, post: (Aid, set<nat>) -> Reply)
    ensures HighestOf(high, high, u, {}, post)
  {
  }

  lemma ConfirmedNext(was: nat, high: nat, u: seq<Row>, aids: set<Aid>, aid: Aid, post: (Aid, set<nat>) -> Reply)
    requires HighestOf(was, high, u, aids, post)
    ensures var r := post(aid, GroupSeqs(u, aid));
            HighestOf(was, if r.ok then Max(high, r.confirmed) else high, u, aids + {aid}, post)
  {
  }

  lemma HighestIsUnique(was: nat, is_: nat, u: seq<Row>, post: (Aid, set<nat>) -> Reply)
    requires HighestOf(was, is_, u, AidsOf(u), post)
    ensures is_ == Highest(was, u, |u|, post)
  {
    hide GroupSeqs, Highest;
    HighestIsHighest(was, u, |u|, post);
    assert u[..|u|] == u;
  }

  lemma {:induction false} HighestIsHighest(was: nat, u: seq<Row>, n: nat, post: (Aid, set<nat>) -> Reply)
    requires n <= |u|
    ensures HighestOf(was, Highest(was, u, n, post), u, AidsOf(u[..n]), post)
  {
    hide GroupSeqs, HighestOf;
    if n == 0 {
      assert AidsOf(u[..0]) == {};
      NoneConfirmed(was, u, post);
    } else {
      HighestIsHighest(was, u, n - 1, post);
      assert u[..n] == u[..n - 1] + [u[n - 1]];
      assert AidsOf(u[..n]) == AidsOf(u[..n - 1]) + {u[n - 1].item.aid};
      ConfirmedNext(was, Highest(was, u, n - 1, post), u, AidsOf(u[..n - 1]), u[n - 1].item.aid, post);
    }
  }

  lemma GroupIsStored(u: seq<Row>, aid: Aid, rows: seq<Row>, acks: set<nat>)
    requires forall r | r in u :: r in rows
    ensures GroupSeqs(u, aid) <= SeqsOf(Marked(rows, acks))
  {
    SameRowsSameSeqs(rows, Marked(rows, acks));
  }

  /** A post with its answer, or its loss, as steps of the protocol. */
  lemma PostRuns(w: World, seqs: set<nat>, reply: Reply) returns (events: seq<Event>, v: World)
    requires w.flight.Nothing? && seqs <= SeqsOf(w.db.results)
    ensures Run(w, events) == Some(v) && v.flight.Nothing?
    ensures v.db == if reply.ok then w.db.(results := Marked(w.db.results, seqs - reply.failed)) else w.db
    ensures v.highConfirmed == if reply.ok then Max(w.highConfirmed, reply.confirmed) else w.highConfirmed
  {
    hide Marked, Run;
    RunNothing(w);
    RunNext(w, [], w, Post(seqs));
    var sent := Next(w, Post(seqs));
    events := [] + [Post(seqs)];
    if reply.ok {
      var e := HostSaves(seqs - reply.failed, reply.confirmed);
      RunNext(w, events, sent, e);
      events := events + [e];
      var answered := Next(sent, e);
      RunNext(w, events, answered, ReplyArrives);
      events := events + [ReplyArrives];
      v := Next(answered, ReplyArrives);
    } else {
      RunNext(w, events, sent, PostFails);
      events := events + [PostFails];
      v := Next(sent, PostFails);
    }
  }

  lemma NoAcks(u: seq<Row>, post: (Aid, set<nat>) -> Reply)
    ensures Acks(u, {}, post) == {}
  {
  }

  lemma NoRowsNoAcks(u: seq<Row>, post: (Aid, set<nat>) -> Reply)
    requires u == []
    ensures Acks(u, AidsOf(u), post) == {}
  {
  }

  lemma GroupIsSeqs(u: seq<Row>, aid: Aid, group: seq<Row>)
    requires group == G.Filter(u, AidOf, aid)
    ensures SeqsOf(group) == GroupSeqs(u, aid)
  {
  }

  lemma KeysAreAids(u: seq<Row>, keys: seq<Aid>)
    requires keys == G.First(u, AidOf)
    ensures (set k | k in keys) == AidsOf(u)
  {
    assert forall x | x in u :: AidOf(x) in keys;
  }

  // ── Progress past rows the host rejects ─────────────────────────────────────

  /** The numbers that wait for delivery. */
  function Waiting(rows: seq<Row>): set<nat> {
    set r | r in rows && !r.delivered :: r.seqNo
  }

  /** A reachable host that rejects exactly the bad rows. */
  function Rejecting(bad: set<nat>, confirm: Confirm): (Aid, set<nat>) -> Reply {
    (aid: Aid, seqs: set<nat>) => Reply(true, confirm(aid, seqs), seqs * bad)
  }

  lemma AcksOfReachable(u: seq<Row>, bad: set<nat>, confirm: Confirm)
    ensures Acks(u, AidsOf(u), Rejecting(bad, confirm)) == SeqsOf(u) - bad
  {
    forall r | r in u && r.seqNo in bad
      ensures r.seqNo in GroupSeqs(u, r.item.aid)
    {
      InFilter(u, AidOf, r.item.aid, r);
    }
    forall s | s in SeqsOf(u) - bad
      ensures s in Acks(u, AidsOf(u), Rejecting(bad, confirm))
    {
      var r :| r in u && r.seqNo == s;
      assert r.item.aid in AidsOf(u);
    }
  }

  /** The rows after one cycle with such a host, pruned up to a bound. */
  function CycleRows(rows: seq<Row>, bad: set<nat>, bound: int): seq<Row> {
    Pruned(Marked(rows, SeqsOf(FirstUndelivered(rows, BATCH_ROWS)) - bad), bound)
  }

  lemma WaitingSplits(rows: seq<Row>)
    requires rows != [] && Rising(rows)
    ensures Rising(rows[1..]) && rows[0].seqNo !in Waiting(rows[1..])
    ensures Waiting(rows) == (if rows[0].delivered then {} else {rows[0].seqNo}) + Waiting(rows[1..])
  {
    assert forall r | r in rows :: r == rows[0] || r in rows[1..];
  }

  lemma SeqsSplit(r: Row, rest: seq<Row>)
    ensures SeqsOf([r] + rest) == {r.seqNo} + SeqsOf(rest)
  {
  }

  /** The first rows are as many waiting rows as there are, up to the limit. */
  lemma {:induction false} FirstTakes(rows: seq<Row>, n: nat)
    requires Rising(rows)
    ensures SeqsOf(FirstUndelivered(rows, n)) <= Waiting(rows)
    ensures |SeqsOf(FirstUndelivered(rows, n))| == if n < |Waiting(rows)| then n else |Waiting(rows)|
    decreases |rows|
  {
    hide Waiting, SeqsOf, Rising;
    if rows == [] || n == 0 {
      NoneWaiting();
    } else {
      WaitingSplits(rows);
      if rows[0].delivered {
        FirstTakes(rows[1..], n);
      } else {
        FirstTakes(rows[1..], n - 1);
        var s := SeqsOf(FirstUndelivered(rows[1..], n - 1));
        SeqsSplit(rows[0], FirstUndelivered(rows[1..], n - 1));
        assert |{rows[0].seqNo} + s| == 1 + |s|;
        assert |{rows[0].seqNo} + Waiting(rows[1..])| == 1 + |Waiting(rows[1..])|;
      }
    }
  }

  /** And no row that waits and is not among them stands before one of them. */
  lemma {:induction false} FirstComeFirst(rows: seq<Row>, n: nat, s: nat, t: nat)
    requires Rising(rows) && s in SeqsOf(FirstUndelivered(rows, n))
    requires t in Waiting(rows) && t !in SeqsOf(FirstUndelivered(rows, n))
    ensures s < t
    decreases |rows|
  {
    hide Waiting, SeqsOf;
    NoneWaiting();
    WaitingSplits(rows);
    LeadIsLeast(rows);
    if rows[0].delivered {
      FirstComeFirst(rows[1..], n, s, t);
    } else {
      SeqsSplit(rows[0], FirstUndelivered(rows[1..], n - 1));
      if s != rows[0].seqNo { FirstComeFirst(rows[1..], n - 1, s, t); }
    }
  }

  lemma LeadIsLeast(rows: seq<Row>)
    requires rows != [] && Rising(rows)
    ensures forall t | t in Waiting(rows[1..]) :: rows[0].seqNo < t
  {
  }

  lemma NoneWaiting()
    ensures SeqsOf([]) == {} && Waiting([]) == {}
  {
  }

  lemma WaitingAfter(rows: seq<Row>, seqs: set<nat>, confirmed: int)
    ensures Waiting(Pruned(Marked(rows, seqs), confirmed)) == Waiting(rows) - seqs
  {
    hide Without;
    var m := Marked(rows, seqs);
    forall s | s in Waiting(rows) - seqs
      ensures s in Waiting(m)
    {
      var r :| r in rows && !r.delivered && r.seqNo == s;
      var i :| 0 <= i < |rows| && rows[i] == r;
      assert m[i] in m;
    }
    forall s | s in Waiting(m)
      ensures s in Waiting(rows) - seqs
    {
      var r :| r in m && !r.delivered && r.seqNo == s;
      var i :| 0 <= i < |m| && m[i] == r;
      assert rows[i] in rows;
    }
    assert forall r | r in m && !r.delivered :: r in Pruned(m, confirmed);
  }

  lemma CycleRises(rows: seq<Row>, bad: set<nat>, bound: int)
    requires Rising(rows)
    ensures Rising(CycleRows(rows, bad, bound))
  {
    hide FirstUndelivered, Without;
    WithoutRises(Marked(rows, SeqsOf(FirstUndelivered(rows, BATCH_ROWS)) - bad), bound - KEEP_MARGIN);
  }

  /** What a cycle takes from the waiting rows: the others among the first 200. */
  lemma CycleTakes(rows: seq<Row>, bad: set<nat>, bound: int)
    ensures Waiting(CycleRows(rows, bad, bound))
            == Waiting(rows) - (SeqsOf(FirstUndelivered(rows, BATCH_ROWS)) - bad)
  {
    hide FirstUndelivered, Pruned, Marked, Waiting, SeqsOf;
    WaitingAfter(rows, SeqsOf(FirstUndelivered(rows, BATCH_ROWS)) - bad, bound);
  }

  /** The rejected rows that wait before a number. */
  function Before(rows: seq<Row>, bad: set<nat>, stop: nat): set<nat> {
    set s | s in Waiting(rows) && s in bad && s < stop
  }

  /** The other rows that wait before a number. */
  function Good(rows: seq<Row>, bad: set<nat>, stop: nat): set<nat> {
    set s | s in Waiting(rows) && s !in bad && s < stop
  }

  /** How many rows stand before a number. */
  function Until(rows: seq<Row>, stop: nat): (n: nat)
    requires Rising(rows)
    ensures n <= |rows|
    ensures forall i | 0 <= i < |rows| :: i < n <==> rows[i].seqNo < stop
  {
    if rows == [] || rows[|rows| - 1].seqNo < stop then |rows| else Until(rows[..|rows| - 1], stop)
  }

  /** The first rows of a table are those of its beginning, and further ones behind. */
  lemma {:induction false} FirstOfPrefix(a: seq<Row>, b: seq<Row>, n: nat)
    ensures FirstUndelivered(a + b, n)
            == FirstUndelivered(a, n) + FirstUndelivered(b, n - |FirstUndelivered(a, n)|)
    decreases |a|
  {
    if a == [] {
      assert a + b == b;
    } else if n > 0 {
      assert (a + b)[1..] == a[1..] + b;
      FirstOfPrefix(a[1..], b, if a[0].delivered then n else n - 1);
    }
  }

  lemma Sizes(s: set<nat>, bad: set<nat>, waiting: set<nat>)
    requires s <= waiting
    ensures |s - bad| >= |s| - |waiting * bad|
    ensures |s - bad| <= |waiting - bad|
    ensures |s| == |waiting| ==> s == waiting
    ensures |waiting| == |waiting - bad| + |waiting * bad|
  {
    assert s == (s - bad) + (s * bad);
    assert waiting * bad == (s * bad) + (waiting * bad - s * bad);
    assert waiting - bad == (s - bad) + ((waiting - bad) - (s - bad));
    assert waiting == s + (waiting - s);
    assert waiting == (waiting - bad) + (waiting * bad);
  }

  lemma WaitingUntil(rows: seq<Row>, bad: set<nat>, stop: nat)
    requires Rising(rows)
    ensures var front := rows[..Until(rows, stop)];
            && Rising(front)
            && Waiting(front) - bad == Good(rows, bad, stop)
            && Waiting(front) * bad == Before(rows, bad, stop)
  {
    hide Until;
    var n := Until(rows, stop);
    forall s | s in Waiting(rows) && s < stop
      ensures s in Waiting(rows[..n])
    {
      var r :| r in rows && !r.delivered && r.seqNo == s;
      var i :| 0 <= i < |rows| && rows[i] == r;
      assert rows[..n][i] in rows[..n];
    }
  }

  /** The first 200 rows as seen from a number: all waiting rows before it, or 200 of them
      and none behind. */
  lemma FrontTakes(rows: seq<Row>, bad: set<nat>, stop: nat) returns (s: set<nat>)
    requires Rising(rows)
    ensures s <= SeqsOf(FirstUndelivered(rows, BATCH_ROWS))
    ensures s <= Good(rows, bad, stop) + Before(rows, bad, stop)
    ensures var total := |Good(rows, bad, stop)| + |Before(rows, bad, stop)|;
            && |s| == (if BATCH_ROWS < total then BATCH_ROWS else total)
            && (total >= BATCH_ROWS ==> SeqsOf(FirstUndelivered(rows, BATCH_ROWS)) == s)
    ensures |s - bad| >= |s| - |Before(rows, bad, stop)|
    ensures |s| == |Good(rows, bad, stop)| + |Before(rows, bad, stop)| ==> Good(rows, bad, stop) <= s - bad
  {
    hide FirstUndelivered, Waiting, SeqsOf, Before, Good, Until, Rising;
    var n := Until(rows, stop);
    var front, back := rows[..n], rows[n..];
    assert rows == front + back;
    var u := FirstUndelivered(front, BATCH_ROWS);
    s := SeqsOf(u);
    FirstOfPrefix(front, back, BATCH_ROWS);
    WaitingUntil(rows, bad, stop);
    FirstTakes(front, BATCH_ROWS);
    SeqsJoin(u, FirstUndelivered(back, BATCH_ROWS - |u|));
    NoMoreThanRows(u);
    NothingFirst(back);
    Sizes(s, bad, Waiting(front));
    assert Waiting(front) == (Waiting(front) - bad) + (Waiting(front) * bad);
  }

  lemma NothingFirst(rows: seq<Row>)
    ensures SeqsOf(FirstUndelivered(rows, 0)) == {}
  {
  }

  lemma SeqsJoin(a: seq<Row>, b: seq<Row>)
    ensures SeqsOf(a + b) == SeqsOf(a) + SeqsOf(b)
  {
  }

  lemma {:induction false} NoMoreThanRows(u: seq<Row>)
    ensures |SeqsOf(u)| <= |u|
  {
    hide SeqsOf;
    if u == [] {
      NoneWaiting();
    } else {
      var n := |u| - 1;
      NoMoreThanRows(u[..n]);
      assert u == u[..n] + [u[n]];
      SeqsJoin(u[..n], [u[n]]);
      OneSeq(u[n]);
    }
  }

  lemma OneSeq(r: Row)
    ensures SeqsOf([r]) == {r.seqNo}
  {
  }

  lemma SubsetSize(a: set<nat>, b: set<nat>)
    requires a <= b
    ensures |a| <= |b|
  {
    assert b == a + (b - a);
  }

  /** One reachable cycle acknowledges at least 200 - b of the other rows before a number,
      or all of them, b rejected rows waiting there; the rejected rows keep waiting. */
  lemma CycleProgress(rows: seq<Row>, bad: set<nat>, bound: int, stop: nat)
    requires Rising(rows)
    ensures var b, n := |Before(rows, bad, stop)|, |Good(rows, bad, stop)|;
            var after := CycleRows(rows, bad, bound);
            && Waiting(after) <= Waiting(rows) && Waiting(after) * bad == Waiting(rows) * bad
            && (b <= BATCH_ROWS ==>
                  |Good(after, bad, stop)| <= n - (if BATCH_ROWS - b < n then BATCH_ROWS - b else n))
  {
    hide FirstUndelivered, CycleRows, Waiting, SeqsOf, Before, Rising;
    var after, all := CycleRows(rows, bad, bound), SeqsOf(FirstUndelivered(rows, BATCH_ROWS));
    CycleTakes(rows, bad, bound);
    assert Waiting(after) * bad == Waiting(rows) * bad;
    var s := FrontTakes(rows, bad, stop);
    var good, gone := Good(rows, bad, stop), s - bad;
    GoodOnly(rows, bad, stop, s);
    assert good == (good - gone) + gone;
    assert Good(after, bad, stop) <= good - gone;
    SubsetSize(Good(after, bad, stop), good - gone);
  }

  lemma GoodOnly(rows: seq<Row>, bad: set<nat>, stop: nat, s: set<nat>)
    requires s <= Good(rows, bad, stop) + Before(rows, bad, stop)
    ensures s - bad <= Good(rows, bad, stop)
  {
  }

  /** Reachable cycles, one for each bound of the prunes in between. */
  function AfterCycles(rows: seq<Row>, bad: set<nat>, bounds: seq<int>): seq<Row> {
    if bounds == [] then rows else
    var k := |bounds| - 1;
    CycleRows(AfterCycles(rows, bad, bounds[..k]), bad, bounds[k])
  }

  lemma {:induction false} CyclesProgress(rows: seq<Row>, bad: set<nat>, bounds: seq<int>, stop: nat)
    requires Rising(rows) && |Before(rows, bad, stop)| < BATCH_ROWS
    ensures var after := AfterCycles(rows, bad, bounds);
            && Rising(after) && Waiting(after) <= Waiting(rows) && Waiting(after) * bad == Waiting(rows) * bad
            && var left := |Good(after, bad, stop)|;
               left == 0 || left + |bounds| * (BATCH_ROWS - |Before(rows, bad, stop)|) <= |Good(rows, bad, stop)|
  {
    hide Waiting, CycleRows, Rising, Before, Good;
    if bounds != [] {
      var k := |bounds| - 1;
      CyclesProgress(rows, bad, bounds[..k], stop);
      var before := AfterCycles(rows, bad, bounds[..k]);
      SameBefore(rows, before, bad, stop);
      CycleRises(before, bad, bounds[k]);
      CycleProgress(before, bad, bounds[k], stop);
      var step := BATCH_ROWS - |Before(rows, bad, stop)|;
      assert |bounds| * step == k * step + step;
    }
  }

  lemma SameBefore(a: seq<Row>, b: seq<Row>, bad: set<nat>, stop: nat)
    requires Waiting(a) * bad == Waiting(b) * bad
    ensures Before(a, bad, stop) == Before(b, bad, stop)
  {
    hide Waiting;
    assert forall s :: s in Waiting(a) && s in bad <==> s in Waiting(a) * bad;
    assert forall s :: s in Waiting(b) && s in bad <==> s in Waiting(b) * bad;
  }

  /** k cycles are enough for all N other rows: k (200 - f) reaches N, fewer than 200
      rejected rows waiting. */
  predicate AllOut(rows: seq<Row>, bad: set<nat>, k: nat) {
    var f, n := |Waiting(rows) * bad|, |Waiting(rows) - bad|;
    Rising(rows) && f < 200 && k * (200 - f) >= n
  }

  /** With fewer than 200 rejected rows waiting, all the others are delivered once there
      were enough reachable cycles, whatever is pruned in between. */
  lemma PoisonRowsDoNotBlock(rows: seq<Row>, bad: set<nat>, bounds: seq<int>)
    requires AllOut(rows, bad, |bounds|)
    ensures Waiting(AfterCycles(rows, bad, bounds)) <= bad
  {
    hide Waiting, AfterCycles, Rising;
    var stop := EndOf(rows);
    EndIsBehind(rows, bad);
    CyclesProgress(rows, bad, bounds, stop);
    NothingLeft(rows, AfterCycles(rows, bad, bounds), bad, stop);
  }

  /** ceil(N / (200 - f)) cycles are enough. */
  lemma CeilIsEnough(rows: seq<Row>, bad: set<nat>)
    requires Rising(rows) && |Waiting(rows) * bad| < BATCH_ROWS
    ensures var f, n := |Waiting(rows) * bad|, |Waiting(rows) - bad|;
            AllOut(rows, bad, (n + BATCH_ROWS - f - 1) / (BATCH_ROWS - f))
  {
    hide Waiting, Rising;
    CeilCovers(|Waiting(rows) - bad|, BATCH_ROWS - |Waiting(rows) * bad|);
  }

  lemma CeilCovers(n: nat, d: nat)
    requires d > 0
    ensures (n + d - 1) / d * d >= n
  {
    var q := (n + d - 1) / d;
    assert n + d - 1 == q * d + (n + d - 1) % d;
  }

  function EndOf(rows: seq<Row>): nat {
    if rows == [] then 0 else rows[|rows| - 1].seqNo + 1
  }

  lemma EndIsBehind(rows: seq<Row>, bad: set<nat>)
    requires Rising(rows)
    ensures forall s | s in Waiting(rows) :: s < EndOf(rows)
    ensures Before(rows, bad, EndOf(rows)) == Waiting(rows) * bad
    ensures Good(rows, bad, EndOf(rows)) == Waiting(rows) - bad
  {
    forall r | r in rows
      ensures r.seqNo < EndOf(rows)
    {
      var i :| 0 <= i < |rows| && rows[i] == r;
    }
  }

  lemma NothingLeft(rows: seq<Row>, after: seq<Row>, bad: set<nat>, stop: nat)
    requires Waiting(after) <= Waiting(rows) && |Good(after, bad, stop)| == 0
    requires forall s | s in Waiting(rows) - bad :: s < stop
    ensures Waiting(after) <= bad
  {
    hide Waiting;
    assert Good(after, bad, stop) == {};
    forall s | s in Waiting(after)
      ensures s in bad
    {
      assert s !in bad ==> s in Waiting(rows) - bad;
      assert s !in Good(after, bad, stop);
    }
  }

  // ── Exactly which rows get out ──────────────────────────────────────────────

  /** A row with 200 rejected rows waiting before it waits on. */
  lemma {:induction false} BehindPoison(rows: seq<Row>, bad: set<nat>, bounds: seq<int>, s: nat)
    requires Rising(rows) && s in Waiting(rows) && |Before(rows, bad, s)| >= BATCH_ROWS
    ensures var after := AfterCycles(rows, bad, bounds);
            Rising(after) && s in Waiting(after) && Waiting(after) * bad == Waiting(rows) * bad
  {
    hide Waiting, CycleRows, Rising, Before, Good;
    if bounds != [] {
      var k := |bounds| - 1;
      BehindPoison(rows, bad, bounds[..k], s);
      var before := AfterCycles(rows, bad, bounds[..k]);
      SameBefore(rows, before, bad, s);
      CycleRises(before, bad, bounds[k]);
      CycleProgress(before, bad, bounds[k], s);
      CycleTakes(before, bad, bounds[k]);
      var taken := FrontTakes(before, bad, s);
      NotBeforeItself(before, bad, s);
    }
  }

  lemma NotBeforeItself(rows: seq<Row>, bad: set<nat>, s: nat)
    ensures s !in Good(rows, bad, s) + Before(rows, bad, s)
  {
  }

  /** Exactly which rows get out, however long it takes and whatever is pruned: a row that
      is not rejected is delivered at last if and only if fewer than 200 rejected rows wait
      before it, and then the b rejected rows delay the n others up to it by no more than
      ceil(n / (200 - b)) cycles. */
  lemma RowGetsOutExactly(rows: seq<Row>, bad: set<nat>, s: nat)
    requires Rising(rows) && s in Waiting(rows) - bad
    ensures (exists bounds: seq<int> :: s !in Waiting(AfterCycles(rows, bad, bounds)))
            <==> |Before(rows, bad, s)| < 200
    ensures |Before(rows, bad, s)| < 200 ==>
              forall bounds: seq<int> | |bounds| * (200 - |Before(rows, bad, s)|) >= |Good(rows, bad, s + 1)| ::
                s !in Waiting(AfterCycles(rows, bad, bounds))
  {
    hide Waiting, AfterCycles, Rising, Before, Good;
    if |Before(rows, bad, s)| < BATCH_ROWS {
      forall bounds: seq<int> | |bounds| * (BATCH_ROWS - |Before(rows, bad, s)|) >= |Good(rows, bad, s + 1)|
        ensures s !in Waiting(AfterCycles(rows, bad, bounds))
      {
        RowGetsOut(rows, bad, bounds, s);
      }
      var many := ManyCycles(|Good(rows, bad, s + 1)|, |Before(rows, bad, s)|);
      RowGetsOut(rows, bad, many, s);
    } else {
      forall bounds: seq<int>
        ensures s in Waiting(AfterCycles(rows, bad, bounds))
      {
        BehindPoison(rows, bad, bounds, s);
      }
    }
  }

  lemma RowGetsOut(rows: seq<Row>, bad: set<nat>, bounds: seq<int>, s: nat)
    requires Rising(rows) && s !in bad && |Before(rows, bad, s)| < BATCH_ROWS
    requires |bounds| * (BATCH_ROWS - |Before(rows, bad, s)|) >= |Good(rows, bad, s + 1)|
    ensures s !in Waiting(AfterCycles(rows, bad, bounds))
  {
    hide Waiting, AfterCycles, Rising, Before, Good;
    RejectedIsNotBefore(rows, bad, s);
    CyclesProgress(rows, bad, bounds, s + 1);
    GoneFromGood(AfterCycles(rows, bad, bounds), bad, s);
  }

  lemma ManyCycles(n: nat, b: nat) returns (bounds: seq<int>)
    requires b < BATCH_ROWS
    ensures |bounds| * (BATCH_ROWS - b) >= n
  {
    bounds := seq(n, _ => 0);
    assert n * (BATCH_ROWS - b - 1) >= 0;
    assert n * (BATCH_ROWS - b) == n * (BATCH_ROWS - b - 1) + n;
  }

  lemma RejectedIsNotBefore(rows: seq<Row>, bad: set<nat>, s: nat)
    requires s !in bad
    ensures Before(rows, bad, s + 1) == Before(rows, bad, s)
  {
  }

  lemma GoneFromGood(rows: seq<Row>, bad: set<nat>, s: nat)
    requires |Good(rows, bad, s + 1)| == 0 && s !in bad
    ensures s !in Waiting(rows)
  {
    hide Waiting;
    assert Good(rows, bad, s + 1) == {};
    assert s !in Good(rows, bad, s + 1);
  }

  /** All other rows get out if and only if fewer than 200 rejected rows wait before the
      last of them. */
  lemma AllGetOutExactly(rows: seq<Row>, bad: set<nat>, last: nat)
    requires Rising(rows) && last in Waiting(rows) - bad && forall s | s in Waiting(rows) - bad :: s <= last
    ensures (exists bounds: seq<int> :: Waiting(AfterCycles(rows, bad, bounds)) <= bad)
            <==> |Before(rows, bad, last)| < 200
  {
    hide Waiting, AfterCycles, Rising, Before, Good;
    RowGetsOutExactly(rows, bad, last);
    if |Before(rows, bad, last)| < BATCH_ROWS {
      var many := ManyCycles(|Good(rows, bad, last + 1)|, |Before(rows, bad, last)|);
      RejectedIsNotBefore(rows, bad, last);
      CyclesProgress(rows, bad, many, last + 1);
      NothingLeft(rows, AfterCycles(rows, bad, many), bad, last + 1);
    }
  }

  // ── Nothing gets out ────────────────────────────────────────────────────────

  lemma FirstSurvivesMore(a: seq<Row>, x: Row, n: nat)
    requires x.delivered
    ensures FirstUndelivered(a + [x], n) == FirstUndelivered(a, n)
  {
    hide FirstUndelivered;
    FirstOfPrefix(a, [x], n);
    DeliveredAlone(x, n - |FirstUndelivered(a, n)|);
  }

  lemma DeliveredAlone(x: Row, n: nat)
    requires x.delivered
    ensures FirstUndelivered([x], n) == []
  {
  }

  /** A prune takes no row that waits, so the first ones stay the first ones. */
  lemma {:induction false} FirstSurvivesPrune(rows: seq<Row>, cutoff: int, n: nat)
    ensures FirstUndelivered(Without(rows, cutoff), n) == FirstUndelivered(rows, n)
  {
    hide FirstUndelivered;
    if rows != [] {
      var k := |rows| - 1;
      assert rows == rows[..k] + [rows[k]];
      FirstSurvivesPrune(rows[..k], cutoff, n);
      if Prunable(rows[k], cutoff) {
        assert Without(rows, cutoff) == Without(rows[..k], cutoff);
        FirstSurvivesMore(rows[..k], rows[k], n);
      } else {
        FirstOfPrefix(rows[..k], [rows[k]], n);
        FirstOfPrefix(Without(rows[..k], cutoff), [rows[k]], n);
      }
    }
  }

  /** Only rejected rows among the first 200: a cycle delivers nothing and leaves the same
      first rows. */
  lemma BlockedCycle(rows: seq<Row>, bad: set<nat>, bound: int)
    requires SeqsOf(FirstUndelivered(rows, BATCH_ROWS)) <= bad
    ensures var after := CycleRows(rows, bad, bound);
            && Waiting(after) == Waiting(rows)
            && FirstUndelivered(after, BATCH_ROWS) == FirstUndelivered(rows, BATCH_ROWS)
  {
    hide FirstUndelivered, Marked, Waiting, Without;
    CycleTakes(rows, bad, bound);
    var u := FirstUndelivered(rows, BATCH_ROWS);
    assert SeqsOf(u) - bad == {};
    MarkedNothing(rows);
    FirstSurvivesPrune(rows, bound - KEEP_MARGIN, BATCH_ROWS);
  }

  lemma {:induction false} BlockedCycles(rows: seq<Row>, bad: set<nat>, bounds: seq<int>)
    requires SeqsOf(FirstUndelivered(rows, BATCH_ROWS)) <= bad
    ensures var after := AfterCycles(rows, bad, bounds);
            && Waiting(after) == Waiting(rows)
            && FirstUndelivered(after, BATCH_ROWS) == FirstUndelivered(rows, BATCH_ROWS)
  {
    hide FirstUndelivered, CycleRows, Waiting, SeqsOf;
    if bounds != [] {
      var k := |bounds| - 1;
      BlockedCycles(rows, bad, bounds[..k]);
      BlockedCycle(AfterCycles(rows, bad, bounds[..k]), bad, bounds[k]);
    }
  }

  /** Delivery stops for good if and only if every one of the first 200 rows is rejected:
      then no number of cycles delivers a row, and the same rows stay in front. */
  lemma EnoughPoisonBlocks(rows: seq<Row>, bad: set<nat>)
    ensures var front := FirstUndelivered(rows, 200);
            && (SeqsOf(front) <= bad <==>
                  forall bounds: seq<int> :: Waiting(AfterCycles(rows, bad, bounds)) == Waiting(rows))
            && (SeqsOf(front) <= bad ==>
                  forall bounds: seq<int> :: FirstUndelivered(AfterCycles(rows, bad, bounds), 200) == front)
  {
    hide FirstUndelivered, AfterCycles, Waiting, SeqsOf, CycleRows;
    var front := FirstUndelivered(rows, BATCH_ROWS);
    if SeqsOf(front) <= bad {
      forall bounds: seq<int>
        ensures Waiting(AfterCycles(rows, bad, bounds)) == Waiting(rows)
        ensures FirstUndelivered(AfterCycles(rows, bad, bounds), BATCH_ROWS) == front
      {
        BlockedCycles(rows, bad, bounds);
      }
    } else {
      var s :| s in SeqsOf(front) && s !in bad;
      OneCycle(rows, bad);
      CycleTakes(rows, bad, 0);
      FrontWaits(rows, s);
      assert s !in Waiting(AfterCycles(rows, bad, [0]));
    }
  }

  lemma OneCycle(rows: seq<Row>, bad: set<nat>)
    ensures AfterCycles(rows, bad, [0]) == CycleRows(rows, bad, 0)
  {
    hide CycleRows;
    assert [0][..0] == [];
    assert AfterCycles(rows, bad, []) == rows;
  }

  lemma FrontWaits(rows: seq<Row>, s: nat)
    requires s in SeqsOf(FirstUndelivered(rows, BATCH_ROWS))
    ensures s in Waiting(rows)
  {
  }
}
