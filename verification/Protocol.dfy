/** Everything that can happen to the agent's work between dispatch and the host: the
    production task, the deliver loop, the heartbeat's re-arming, crashes and the host's
    own rollbacks, interleaved at every await (remote_worker/remote_server.py). */
module Protocol {
  import opened Bytes
  import opened ResultStore

  /** The one running production task: its assignment and what its pass has left. */
  datatype Runner = Idle | Producing(aid: Aid, todo: set<int>)

  /** The one post of the deliver loop: sent, or answered by the host with the rows it
      saved and the number it confirms, the answer still on its way. */
  datatype Flight = Nothing | Sent(seqs: set<nat>) | Answered(seqs: set<nat>, saved: set<nat>, confirmed: nat)

  /** The agent's store and memory, the host's rows, and the history: `made` every result
      ever written under its number, `acked` the numbers the host has ever acknowledged,
      `maxConfirmed` the highest number it has ever confirmed, `closed` the assignments it
      called reconciled, `doneSignals` those a done was posted for. */
  datatype World = World(db: Db, runner: Runner, flight: Flight, highConfirmed: nat, host: set<nat>,
                         made: map<nat, Item>, acked: set<nat>, maxConfirmed: nat,
                         closed: set<Aid>, doneSignals: set<Aid>)

  const START: World := World(Db(map[], map[], [], 0, {}, false), Idle, Nothing, 0, {}, map[], {}, 0, {}, {})

  datatype Event =
    | Dispatch(aid: Aid, sids: set<int>)
    | StartPass(aid: Aid)
    | Produce(sid: int)
    | DiskRefuses
    | EndPass
    | CloseFinished(aid: Aid)
    | SetAside(aid: Aid, state: State)
    | Reconciled(aid: Aid)
    | Post(seqs: set<nat>)
    | HostSaves(saved: set<nat>, confirmed: nat)
    | ReplyArrives
    | PostFails
    | LateSave(saved: set<nat>)
    | PostDone(aid: Aid)
    | DoneAnswered(aid: Aid)
    | Prune
    | Rearm(since: int)
    | Rollback(kept: set<nat>)
    | Crash

  function SeqsOf(rows: seq<Row>): set<nat> {
    set r | r in rows :: r.seqNo
  }

  function Max(a: nat, b: nat): nat {
    if a > b then a else b
  }

  /** When a step can happen. An assignment comes again only with the rows it had; a pass
      writes only rows it read as pending; a done is posted only for a complete assignment
      with nothing undelivered. */
  predicate Enabled(w: World, e: Event) {
    match e
    case Dispatch(aid, sids) => aid in w.db.assignments ==> forall s | s in sids :: Item(aid, s) in w.db.manifest
    case StartPass(aid) => w.runner.Idle? && aid in w.db.assignments
    case Produce(sid) => w.runner.Producing? && sid in w.runner.todo
    case DiskRefuses => w.runner.Producing?
    case EndPass => w.runner.Producing?
    case CloseFinished(aid) => Pending(w.db, aid) == {}
    case SetAside(_, state) => state != Complete
    case Reconciled(_) => true
    case Post(seqs) => w.flight.Nothing? && seqs <= SeqsOf(w.db.results)
    case HostSaves(saved, _) => w.flight.Sent? && saved <= w.flight.seqs
    case ReplyArrives => w.flight.Answered?
    case PostFails => !w.flight.Nothing?
    case LateSave(saved) => saved <= w.made.Keys
    case PostDone(aid) =>
      aid in w.db.assignments && w.db.assignments[aid] == Complete && UndeliveredOf(w.db.results, aid) == {}
    case DoneAnswered(aid) => aid in w.doneSignals
    case Prune => w.highConfirmed > 0
    case Rearm(_) => true
    case Rollback(_) => true
    case Crash => true
  }

  function Next(w: World, e: Event): World
    requires Enabled(w, e)
  {
    match e
    case Dispatch(aid, sids) => w.(db := Added(w.db, aid, sids))
    case StartPass(aid) => w.(runner := Producing(aid, Pending(w.db, aid)))
    case Produce(sid) =>
      var item := Item(w.runner.aid, sid);
      w.(db := Written(w.db, item), made := w.made[w.db.last + 1 := item],
         runner := Producing(w.runner.aid, w.runner.todo - {sid}))
    case DiskRefuses => w.(db := w.db.(diskFull := true))
    case EndPass => w.(runner := Idle)
    case CloseFinished(aid) => w.(db := WithState(w.db, aid, Complete))
    case SetAside(aid, state) => w.(db := WithState(w.db, aid, state))
    case Reconciled(aid) => w.(db := WithState(w.db, aid, Complete), closed := w.closed + {aid})
    case Post(seqs) => w.(flight := Sent(seqs))
    case HostSaves(saved, confirmed) =>
      w.(flight := Answered(w.flight.seqs, saved, confirmed), host := w.host + saved, acked := w.acked + saved)
    case ReplyArrives =>
      w.(db := w.db.(results := Marked(w.db.results, w.flight.saved)), flight := Nothing,
         highConfirmed := Max(w.highConfirmed, w.flight.confirmed),
         maxConfirmed := Max(w.maxConfirmed, w.flight.confirmed))
    case PostFails => w.(flight := Nothing)
    case LateSave(saved) => w.(host := w.host + saved)
    case PostDone(aid) => w.(doneSignals := w.doneSignals + {aid})
    case DoneAnswered(aid) => w.(db := w.db.(doneSent := w.db.doneSent + {aid}))
    case Prune => w.(db := w.db.(results := Pruned(w.db.results, w.highConfirmed)))
    case Rearm(since) => w.(db := w.db.(results := Rearmed(w.db.results, since)))
    case Rollback(kept) => w.(host := w.host * kept)
    case Crash => w.(runner := Idle, flight := Nothing, highConfirmed := 0)
  }

  /** Who changes what. Rows reach the host by a post or behind its back and leave it by a
      rollback alone; an acknowledgement is an answered post; a post is open from its sending
      to its reply, its failure or a crash; what is in memory alone goes with a crash, what is
      in the store does not; and only a pass makes results. */
  lemma WhoChangesWhat(w: World, e: Event)
    requires Enabled(w, e)
    ensures var v := Next(w, e);
            && v.host == (if e.HostSaves? || e.LateSave? then w.host + e.saved
                          else if e.Rollback? then w.host * e.kept else w.host)
            && v.acked == (if e.HostSaves? then w.acked + e.saved else w.acked)
            && v.highConfirmed == (if e.Crash? then 0
                                   else if e.ReplyArrives? && w.flight.confirmed > w.highConfirmed then w.flight.confirmed
                                   else w.highConfirmed)
            && (v.flight.Nothing? <==> e in {ReplyArrives, PostFails, Crash} || (w.flight.Nothing? && !e.Post?))
            && (v.flight != w.flight ==> e.Post? || e.HostSaves? || e in {ReplyArrives, PostFails, Crash})
            && (v.runner.Idle? <==> e in {EndPass, Crash} || (w.runner.Idle? && !e.StartPass?))
            && (v.runner != w.runner ==> e.StartPass? || e.Produce? || e in {EndPass, Crash})
            && (v.made != w.made || v.db.last != w.db.last ==> e.Produce?)
            && (v.db.diskFull <==> e == DiskRefuses || (w.db.diskFull && !e.Produce?))
            && v.closed == (if e.Reconciled? then w.closed + {e.aid} else w.closed)
            && v.doneSignals == (if e.PostDone? then w.doneSignals + {e.aid} else w.doneSignals)
            && v.db.doneSent == (if e.DoneAnswered? then w.db.doneSent + {e.aid} else w.db.doneSent)
    ensures var v := Next(w, e);
            && (v.db.results != w.db.results ==> e.Produce? || e.Rearm? || e in {ReplyArrives, Prune})
            && (v.db.manifest != w.db.manifest ==> e.Dispatch? || e.Produce?)
            && (forall aid | aid in w.db.assignments ::
                  && aid in v.db.assignments
                  && v.db.assignments[aid] == if e == CloseFinished(aid) || e == Event.Reconciled(aid) then Complete
                                              else if e.SetAside? && e.aid == aid then e.state
                                              else w.db.assignments[aid])
  {
    hide Pending, Pruned, Rearmed, Marked, Max;
    MaxIsLarger(w, e);
  }

  lemma MaxIsLarger(w: World, e: Event)
    requires Enabled(w, e)
    ensures e.ReplyArrives? ==>
              Max(w.highConfirmed, w.flight.confirmed)
              == if w.flight.confirmed > w.highConfirmed then w.flight.confirmed else w.highConfirmed
  {
    hide Pending;
  }

  /** The world a run leads to, when every step of it could happen. */
  function Run(first: World, events: seq<Event>): Option<World> {
    if events == [] then Some(first) else
    var w := Run(first, events[..|events| - 1]);
    var e := events[|events| - 1];
    if w.None? || !Enabled(w.value, e) then None else Some(Next(w.value, e))
  }

  /** The world after a run from the beginning. */
  function After(events: seq<Event>): Option<World> {
    Run(START, events)
  }

  lemma RunUnfolds(first: World, events: seq<Event>)
    requires events != [] && Run(first, events).Some?
    ensures var w, e := Run(first, events[..|events| - 1]), events[|events| - 1];
            w.Some? && Enabled(w.value, e) && Run(first, events) == Some(Next(w.value, e))
  {
  }

  lemma RunNext(first: World, events: seq<Event>, w: World, e: Event)
    requires Run(first, events) == Some(w) && Enabled(w, e)
    ensures Run(first, events + [e]) == Some(Next(w, e))
  {
    assert (events + [e])[..|events|] == events;
  }

  lemma {:induction false} RunJoins(first: World, a: seq<Event>, w: World, b: seq<Event>)
    requires Run(first, a) == Some(w)
    ensures Run(first, a + b) == Run(w, b)
    decreases |b|
  {
    if b == [] {
      assert a + b == a;
    } else {
      assert (a + b)[..|a + b| - 1] == a + b[..|b| - 1];
      RunJoins(first, a, w, b[..|b| - 1]);
    }
  }

  // ── What every run keeps ────────────────────────────────────────────────────

  /** Numbers are given out once, in order; a stored row is the result made under its
      number. */
  predicate NumbersHold(w: World) {
    && (forall r | r in w.db.results :: r.seqNo in w.made && w.made[r.seqNo] == r.item)
    && (forall i, j | 0 <= i < j < |w.db.results| :: w.db.results[i].seqNo < w.db.results[j].seqNo)
    && (forall s | s in w.made :: 1 <= s <= w.db.last)
  }

  /** A manifest row is done if and only if a result was made for it, and no row has two. */
  predicate OncePerRow(w: World) {
    && (forall s, u | s in w.made && u in w.made && w.made[s] == w.made[u] :: s == u)
    && (forall s | s in w.made :: w.made[s] in w.db.manifest && w.db.manifest[w.made[s]])
    && (forall k | k in w.db.manifest && w.db.manifest[k] :: Made(w, k))
    && (forall k | k in w.db.manifest :: k.aid in w.db.assignments)
  }

  predicate Made(w: World, k: Item) {
    exists s | s in w.made :: w.made[s] == k
  }

  /** A row is marked delivered, and later pruned, only once the host has acknowledged it;
      pruning leaves the margin. */
  predicate AcknowledgedFirst(w: World) {
    && (forall r | r in w.db.results && r.delivered :: r.seqNo in w.acked)
    && (forall s | s in w.made && s !in SeqsOf(w.db.results) :: s in w.acked && s + KEEP_MARGIN <= w.maxConfirmed)
    && (forall s | s in w.acked :: s in w.made)
  }

  predicate InFlight(w: World) {
    && (w.flight.Sent? ==> forall s | s in w.flight.seqs :: s in w.made)
    && (w.flight.Answered? ==> w.flight.saved <= w.acked)
    && w.highConfirmed <= w.maxConfirmed
  }

  /** The pass has left only rows that are pending. */
  predicate PassIsPending(w: World) {
    w.runner.Producing? ==> forall s | s in w.runner.todo ::
      Item(w.runner.aid, s) in w.db.manifest && !w.db.manifest[Item(w.runner.aid, s)]
  }

  /** Complete means done, unless the host said so; and a done was posted only when the
      host had acknowledged every row. */
  predicate DoneIsTrue(w: World) {
    && (forall aid | aid in w.db.assignments && w.db.assignments[aid] == Complete && aid !in w.closed ::
          Pending(w.db, aid) == {})
    && (forall aid | aid in w.doneSignals && aid !in w.closed :: AllAcknowledged(w, aid))
    && (forall aid | aid in w.db.doneSent :: aid in w.doneSignals)
  }

  predicate Acknowledged(w: World, k: Item) {
    exists s | s in w.acked && s in w.made :: w.made[s] == k
  }

  predicate AllAcknowledged(w: World, aid: Aid) {
    && aid in w.db.assignments
    && forall k | k in w.db.manifest && k.aid == aid :: Acknowledged(w, k)
  }

  predicate Inv(w: World) {
    NumbersHold(w) && OncePerRow(w) && AcknowledgedFirst(w) && InFlight(w) && PassIsPending(w) && DoneIsTrue(w)
  }

  // ── One step ────────────────────────────────────────────────────────────────

  /** The same rows in the same order, only their marks may differ. */
  predicate SameRows(a: seq<Row>, b: seq<Row>) {
    |a| == |b| && forall i | 0 <= i < |a| :: a[i].seqNo == b[i].seqNo && a[i].item == b[i].item
  }

  predicate Rising(rows: seq<Row>) {
    forall i, j | 0 <= i < j < |rows| :: rows[i].seqNo < rows[j].seqNo
  }

  lemma SameRowsSameSeqs(a: seq<Row>, b: seq<Row>)
    requires SameRows(a, b)
    ensures SeqsOf(a) == SeqsOf(b)
  {
    forall s | s in SeqsOf(a)
      ensures s in SeqsOf(b)
    {
      var i :| 0 <= i < |a| && a[i].seqNo == s;
      assert b[i] in b;
    }
    forall s | s in SeqsOf(b)
      ensures s in SeqsOf(a)
    {
      var i :| 0 <= i < |b| && b[i].seqNo == s;
      assert a[i] in a;
    }
  }

  lemma {:induction false} WithoutRises(rows: seq<Row>, cutoff: int)
    requires Rising(rows)
    ensures Rising(Without(rows, cutoff))
  {
    if rows != [] {
      var n := |rows| - 1;
      WithoutRises(rows[..n], cutoff);
      var kept := Without(rows[..n], cutoff);
      forall i | 0 <= i < |kept|
        ensures kept[i].seqNo < rows[n].seqNo
      {
        assert kept[i] in kept;
      }
    }
  }

  /** What a step may do to the stored rows: nothing, a new one, new marks, or a prune. */
  lemma NumbersStep(w: World, e: Event)
    requires NumbersHold(w) && Enabled(w, e)
    ensures NumbersHold(Next(w, e))
    ensures w.made.Keys <= Next(w, e).made.Keys && forall s | s in w.made :: Next(w, e).made[s] == w.made[s]
  {
    hide Marked, Rearmed, Pruned, Pending, Written;
    match e {
      case ReplyArrives => MarksKeepNumbers(w.db.results, Marked(w.db.results, w.flight.saved));
      case Rearm(since) => MarksKeepNumbers(w.db.results, Rearmed(w.db.results, since));
      case Prune => PruneKeepsNumbers(w);
      case Produce(sid) => ProduceKeepsNumbers(w, sid);
      case _ =>
    }
  }

  lemma PruneKeepsNumbers(w: World)
    requires NumbersHold(w) && Enabled(w, Prune)
    ensures NumbersHold(Next(w, Prune))
  {
    hide Without;
    if w.highConfirmed > KEEP_MARGIN { WithoutRises(w.db.results, w.highConfirmed - KEEP_MARGIN); }
  }

  lemma ProduceKeepsNumbers(w: World, sid: int)
    requires NumbersHold(w) && Enabled(w, Produce(sid))
    ensures NumbersHold(Next(w, Produce(sid)))
  {
    var v, rows := Next(w, Produce(sid)), w.db.results;
    forall i | 0 <= i < |rows|
      ensures rows[i].seqNo <= w.db.last
    {
      assert rows[i] in rows;
    }
    assert forall r | r in v.db.results :: r in rows || r.seqNo == w.db.last + 1;
  }

  lemma MarksKeepNumbers(a: seq<Row>, b: seq<Row>)
    requires SameRows(a, b)
    ensures Rising(a) ==> Rising(b)
    ensures forall r | r in b :: exists q | q in a :: q.seqNo == r.seqNo && q.item == r.item
  {
    forall r | r in b
      ensures exists q | q in a :: q.seqNo == r.seqNo && q.item == r.item
    {
      var i :| 0 <= i < |b| && b[i] == r;
      assert a[i] in a;
    }
  }

  lemma OnceStep(w: World, e: Event)
    requires NumbersHold(w) && OncePerRow(w) && PassIsPending(w) && Enabled(w, e)
    ensures OncePerRow(Next(w, e))
  {
    hide Marked, Rearmed, Pruned, Pending;
    match e {
      case Dispatch(aid, sids) => DispatchOnce(w, aid, sids);
      case Produce(sid) => ProduceOnce(w, sid);
      case _ => OnceUnchanged(w, Next(w, e));
    }
  }

  lemma OnceUnchanged(w: World, v: World)
    requires OncePerRow(w) && v.made == w.made && v.db.manifest == w.db.manifest
    requires w.db.assignments.Keys <= v.db.assignments.Keys
    ensures OncePerRow(v)
  {
    forall k | k in v.db.manifest && v.db.manifest[k]
      ensures Made(v, k)
    {
      assert Made(w, k);
    }
  }

  lemma DispatchOnce(w: World, aid: Aid, sids: set<int>)
    requires OncePerRow(w) && Enabled(w, Dispatch(aid, sids))
    ensures OncePerRow(Next(w, Dispatch(aid, sids)))
  {
    var v := Next(w, Dispatch(aid, sids));
    forall k | k in v.db.manifest && v.db.manifest[k]
      ensures Made(v, k)
    {
      assert Made(w, k);
    }
  }

  lemma ProduceOnce(w: World, sid: int)
    requires NumbersHold(w) && OncePerRow(w) && PassIsPending(w) && Enabled(w, Produce(sid))
    ensures OncePerRow(Next(w, Produce(sid)))
  {
    var v, item := Next(w, Produce(sid)), Item(w.runner.aid, sid);
    assert item in w.db.manifest && !w.db.manifest[item];
    assert v.made[w.db.last + 1] == item;
    assert w.db.last + 1 !in w.made;
    forall k | k in v.db.manifest && v.db.manifest[k]
      ensures Made(v, k)
    {
      if k != item {
        assert Made(w, k);
        var s :| s in w.made && w.made[s] == k;
        assert s in v.made && v.made[s] == k;
      }
    }
  }

  lemma PassStep(w: World, e: Event)
    requires OncePerRow(w) && PassIsPending(w) && Enabled(w, e)
    ensures PassIsPending(Next(w, e))
  {
    hide Marked, Rearmed, Pruned, Made;
  }

  lemma AcknowledgedStep(w: World, e: Event)
    requires NumbersHold(w) && AcknowledgedFirst(w) && InFlight(w) && Enabled(w, e)
    ensures AcknowledgedFirst(Next(w, e)) && InFlight(Next(w, e))
  {
    hide Marked, Rearmed, Pruned, Pending, SeqsOf;
    match e {
      case Produce(sid) => ProduceAcknowledged(w, sid);
      case Post(seqs) => StoredAreMade(w);
      case HostSaves(saved, confirmed) =>
      case ReplyArrives => ReplyAcknowledged(w);
      case Prune => PruneAcknowledged(w);
      case Rearm(since) => RearmAcknowledged(w, since);
      case _ =>
    }
  }

  lemma StoredAreMade(w: World)
    requires NumbersHold(w)
    ensures forall s | s in SeqsOf(w.db.results) :: s in w.made
  {
  }

  lemma ProduceAcknowledged(w: World, sid: int)
    requires NumbersHold(w) && AcknowledgedFirst(w) && Enabled(w, Produce(sid))
    ensures AcknowledgedFirst(Next(w, Produce(sid)))
  {
    var v, item := Next(w, Produce(sid)), Item(w.runner.aid, sid);
    assert v.db.results == w.db.results + [Row(w.db.last + 1, item, false)];
    assert SeqsOf(v.db.results) == SeqsOf(w.db.results) + {w.db.last + 1};
  }

  lemma ReplyAcknowledged(w: World)
    requires AcknowledgedFirst(w) && InFlight(w) && Enabled(w, ReplyArrives)
    ensures AcknowledgedFirst(Next(w, ReplyArrives)) && InFlight(Next(w, ReplyArrives))
  {
    hide Marked;
    var a, b := w.db.results, Marked(w.db.results, w.flight.saved);
    SameRowsSameSeqs(a, b);
    forall r | r in b && r.delivered
      ensures r.seqNo in w.acked
    {
      var i :| 0 <= i < |b| && b[i] == r;
      assert a[i] in a;
    }
  }

  lemma RearmAcknowledged(w: World, since: int)
    requires AcknowledgedFirst(w)
    ensures AcknowledgedFirst(Next(w, Rearm(since)))
  {
    hide Rearmed;
    var a, b := w.db.results, Rearmed(w.db.results, since);
    SameRowsSameSeqs(a, b);
    forall r | r in b && r.delivered
      ensures r.seqNo in w.acked
    {
      var i :| 0 <= i < |b| && b[i] == r;
      assert a[i] in a;
    }
  }

  lemma PruneAcknowledged(w: World)
    requires AcknowledgedFirst(w) && InFlight(w) && Enabled(w, Prune)
    ensures AcknowledgedFirst(Next(w, Prune))
  {
    hide Without;
    var a, b := w.db.results, Pruned(w.db.results, w.highConfirmed);
    forall s | s in w.made && s !in SeqsOf(b)
      ensures s in w.acked && s + KEEP_MARGIN <= w.maxConfirmed
    {
      if s in SeqsOf(a) {
        var r :| r in a && r.seqNo == s;
        assert r in b || Prunable(r, w.highConfirmed - KEEP_MARGIN);
        assert r !in b;
      }
    }
  }

  lemma DoneStep(w: World, e: Event)
    requires Inv(w) && Enabled(w, e)
    ensures DoneIsTrue(Next(w, e))
  {
    hide Marked, Rearmed, Pruned, Pending, NumbersHold, AcknowledgedFirst, InFlight, PassIsPending;
    var v := Next(w, e);
    PendingShrinks(w, e);
    AcknowledgedStays(w, e);
    match e {
      case PostDone(aid) =>
        if aid !in w.closed { CompleteIsAcknowledged(w, aid); }
        AcknowledgedAgrees(w, v, aid);
      case _ =>
    }
  }

  lemma AcknowledgedAgrees(w: World, v: World, aid: Aid)
    requires v.db == w.db && v.acked == w.acked && v.made == w.made
    ensures AllAcknowledged(w, aid) ==> AllAcknowledged(v, aid)
  {
    forall k | Acknowledged(w, k)
      ensures Acknowledged(v, k)
    {
    }
  }

  /** An assignment known to the agent never gets new pending rows. */
  lemma PendingShrinks(w: World, e: Event)
    requires OncePerRow(w) && Enabled(w, e)
    ensures forall aid | aid in w.db.assignments && Pending(w.db, aid) == {} :: Pending(Next(w, e).db, aid) == {}
    ensures forall aid | aid !in w.db.assignments :: Pending(w.db, aid) == {}
  {
    hide Marked, Rearmed, Pruned, Made;
    forall aid | aid in w.db.assignments
      ensures Pending(Next(w, e).db, aid) <= Pending(w.db, aid)
    {
    }
    forall aid | aid !in w.db.assignments
      ensures Pending(w.db, aid) == {}
    {
    }
  }

  /** What the host has once acknowledged stays so for every assignment known. */
  lemma AcknowledgedStays(w: World, e: Event)
    requires NumbersHold(w) && OncePerRow(w) && Enabled(w, e)
    ensures forall aid | AllAcknowledged(w, aid) :: AllAcknowledged(Next(w, e), aid)
  {
    hide Marked, Rearmed, Pruned, Made, Pending;
    var v := Next(w, e);
    NumbersStep(w, e);
    forall aid | AllAcknowledged(w, aid)
      ensures AllAcknowledged(v, aid)
    {
      forall k | k in v.db.manifest && k.aid == aid
        ensures Acknowledged(v, k)
      {
        assert k in w.db.manifest;
        assert Acknowledged(w, k);
        var s :| s in w.acked && s in w.made && w.made[s] == k;
        assert s in v.acked && s in v.made && v.made[s] == k;
      }
    }
  }

  /** Complete, not closed by the host, nothing undelivered: then the host has
      acknowledged every row. */
  lemma CompleteIsAcknowledged(w: World, aid: Aid)
    requires Inv(w) && Enabled(w, PostDone(aid)) && aid !in w.closed
    ensures AllAcknowledged(w, aid)
  {
    hide InFlight, PassIsPending, SeqsOf;
    forall k | k in w.db.manifest && k.aid == aid
      ensures Acknowledged(w, k)
    {
      assert w.db.manifest[k] || k.sid in Pending(w.db, aid);
      assert Made(w, k);
      var s :| s in w.made && w.made[s] == k;
      MadeIsAcknowledged(w, s);
    }
  }

  lemma MadeIsAcknowledged(w: World, s: nat)
    requires NumbersHold(w) && AcknowledgedFirst(w) && s in w.made
    requires UndeliveredOf(w.db.results, w.made[s].aid) == {}
    ensures s in w.acked
  {
    var aid := w.made[s].aid;
    if s in SeqsOf(w.db.results) {
      var r :| r in w.db.results && r.seqNo == s;
      assert r.delivered || r.seqNo in UndeliveredOf(w.db.results, aid);
    }
  }

  lemma InvStep(w: World, e: Event)
    requires Inv(w) && Enabled(w, e)
    ensures Inv(Next(w, e))
  {
    hide NumbersHold, OncePerRow, AcknowledgedFirst, InFlight, PassIsPending, DoneIsTrue, Next, Enabled;
    NumbersStep(w, e);
    OnceStep(w, e);
    PassStep(w, e);
    AcknowledgedStep(w, e);
    assert Inv(w);
    DoneStep(w, e);
  }

  // ── Every run ───────────────────────────────────────────────────────────────

  /** No loss, exactly once, no early done: in every run, rollbacks and crashes included. */
  lemma {:induction false} EveryRunKeeps(events: seq<Event>)
    requires After(events).Some?
    ensures Inv(After(events).value)
  {
    hide Inv, Next, Enabled;
    if events == [] {
      StartIsFine();
    } else {
      EveryRunKeeps(events[..|events| - 1]);
      InvStep(After(events[..|events| - 1]).value, events[|events| - 1]);
    }
  }

  lemma StartIsFine()
    ensures Inv(START)
  {
  }

  // ── The host and its rollbacks ──────────────────────────────────────────────

  /** The row of this number is stored and waits for delivery. */
  predicate Armed(w: World, s: nat) {
    exists r | r in w.db.results :: r.seqNo == s && !r.delivered
  }

  /** Every result ever made is with the host or waits for delivery. */
  predicate Lossless(w: World) {
    forall s | s in w.made :: s in w.host || Armed(w, s)
  }

  /** A reply that says saved of rows the host has since lost. */
  predicate Stale(w: World) {
    w.flight.Answered? && exists s | s in w.flight.saved :: s !in w.host
  }

  lemma ArmedAfterMarks(rows: seq<Row>, marked: seq<Row>, s: nat)
    requires SameRows(rows, marked) && s in SeqsOf(rows)
    requires forall i | 0 <= i < |rows| && rows[i].seqNo == s :: !marked[i].delivered
    ensures exists r | r in marked :: r.seqNo == s && !r.delivered
  {
    var i :| 0 <= i < |rows| && rows[i].seqNo == s;
    assert marked[i] in marked;
  }

  /** The margin is enough: whatever was pruned, sent and lost before, once the host holds
      every row up to rs, with rs no further back than the margin, and the agent re-arms
      from there, every row the host lacks is stored and waits for delivery. */
  lemma MarginRestores(w: World, rs: int)
    requires NumbersHold(w) && AcknowledgedFirst(w)
    requires rs >= w.maxConfirmed - 1000
    requires forall s | s in w.made && s <= rs :: s in w.host
    ensures Lossless(Next(w, Rearm(rs)))
  {
    hide Rearmed;
    var v := Next(w, Rearm(rs));
    forall s | s in v.made && s !in v.host
      ensures Armed(v, s)
    {
      assert s > rs;
      assert s in SeqsOf(w.db.results);
      ArmedAfterMarks(w.db.results, v.db.results, s);
    }
  }

  /** Nothing but a rollback and a stale reply can lose a row: every other step keeps
      every result with the host or waiting. */
  lemma LosslessStep(w: World, e: Event)
    requires Inv(w) && Lossless(w) && Enabled(w, e)
    requires !e.Rollback? && !(e.ReplyArrives? && Stale(w))
    ensures Lossless(Next(w, e))
  {
    hide Marked, Rearmed, Pruned, Pending, OncePerRow, AcknowledgedFirst, PassIsPending, DoneIsTrue;
    match e {
      case Produce(sid) => ProduceLossless(w, sid);
      case ReplyArrives => ReplyLossless(w);
      case Prune => PruneLossless(w);
      case Rearm(since) => RearmLossless(w, since);
      case Rollback(_) =>
      case _ => SameStoreLossless(w, Next(w, e));
    }
  }

  lemma SameStoreLossless(w: World, v: World)
    requires Lossless(w) && v.made == w.made && v.db.results == w.db.results && w.host <= v.host
    ensures Lossless(v)
  {
    forall s | s in v.made && s !in v.host
      ensures Armed(v, s)
    {
      assert Armed(w, s);
    }
  }

  lemma ProduceLossless(w: World, sid: int)
    requires Lossless(w) && Enabled(w, Produce(sid))
    ensures Lossless(Next(w, Produce(sid)))
  {
    var v, row := Next(w, Produce(sid)), Row(w.db.last + 1, Item(w.runner.aid, sid), false);
    assert v.db.results == w.db.results + [row];
    forall s | s in v.made && s !in v.host
      ensures Armed(v, s)
    {
      if s == w.db.last + 1 {
        assert row in v.db.results;
      } else {
        assert Armed(w, s);
        var r :| r in w.db.results && r.seqNo == s && !r.delivered;
        assert r in v.db.results;
      }
    }
  }

  lemma ReplyLossless(w: World)
    requires NumbersHold(w) && Lossless(w) && w.flight.Answered? && !Stale(w)
    ensures Lossless(Next(w, ReplyArrives))
  {
    hide Marked;
    var v := Next(w, ReplyArrives);
    forall s | s in v.made && s !in v.host
      ensures Armed(v, s)
    {
      StillArmed(w, v.db.results, s);
    }
  }

  lemma RearmLossless(w: World, since: int)
    requires NumbersHold(w) && Lossless(w)
    ensures Lossless(Next(w, Rearm(since)))
  {
    hide Rearmed;
    var v := Next(w, Rearm(since));
    forall s | s in v.made && s !in v.host
      ensures Armed(v, s)
    {
      StillArmed(w, v.db.results, s);
    }
  }

  lemma StillArmed(w: World, rows: seq<Row>, s: nat)
    requires Rising(w.db.results) && Armed(w, s) && SameRows(w.db.results, rows)
    requires forall i | 0 <= i < |rows| && rows[i].seqNo == s && !w.db.results[i].delivered :: !rows[i].delivered
    ensures exists r | r in rows :: r.seqNo == s && !r.delivered
  {
    var r :| r in w.db.results && r.seqNo == s && !r.delivered;
    var i :| 0 <= i < |rows| && w.db.results[i] == r;
    assert rows[i] in rows;
  }

  lemma PruneLossless(w: World)
    requires Lossless(w) && Enabled(w, Prune)
    ensures Lossless(Next(w, Prune))
  {
    hide Without;
    var v := Next(w, Prune);
    forall s | s in v.made && s !in v.host
      ensures Armed(v, s)
    {
      assert Armed(w, s);
      var r :| r in w.db.results && r.seqNo == s && !r.delivered;
      assert r in v.db.results;
    }
  }

  /** The one bad reply: it keeps every row with the host or waiting if and only if the
      host still has what it says it saved. */
  lemma ReplyLosesExactly(w: World)
    requires Inv(w) && Lossless(w) && w.flight.Answered?
    ensures Lossless(Next(w, ReplyArrives)) <==> !Stale(w)
  {
    hide OncePerRow, PassIsPending, DoneIsTrue, Marked;
    if Stale(w) {
      var s :| s in w.flight.saved && s !in w.host;
      assert s in w.acked && s in w.made;
      NoLongerArmed(w, s);
    } else {
      ReplyLossless(w);
    }
  }

  lemma NoLongerArmed(w: World, s: nat)
    requires w.flight.Answered? && s in w.flight.saved
    ensures !Armed(Next(w, ReplyArrives), s)
  {
    hide Marked;
    var b := Marked(w.db.results, w.flight.saved);
    forall r | r in b && r.seqNo == s
      ensures r.delivered
    {
      var i :| 0 <= i < |b| && b[i] == r;
    }
  }

  /** Without a rollback every result is always with the host or waiting, and every
      acknowledged row is with the host. */
  lemma {:induction false} NoRollbackNoLoss(events: seq<Event>)
    requires After(events).Some? && forall e | e in events :: !e.Rollback?
    ensures Lossless(After(events).value)
    ensures After(events).value.acked <= After(events).value.host
  {
    hide Inv, Next, Enabled, Lossless;
    if events == [] {
      StartIsLossless();
    } else {
      var n := |events| - 1;
      var w := After(events[..n]).value;
      NoRollbackNoLoss(events[..n]);
      EveryRunKeeps(events[..n]);
      AcknowledgedIsHeld(w, events[n]);
      LosslessStep(w, events[n]);
    }
  }

  lemma StartIsLossless()
    ensures Lossless(START) && START.acked <= START.host
  {
  }

  lemma AcknowledgedIsHeld(w: World, e: Event)
    requires Inv(w) && w.acked <= w.host && Enabled(w, e) && !e.Rollback?
    ensures Next(w, e).acked <= Next(w, e).host && !Stale(w)
  {
    hide NumbersHold, OncePerRow, AcknowledgedFirst, PassIsPending, DoneIsTrue, Marked, Rearmed, Pruned, Pending;
  }

  /** Only a rollback makes a reply on its way stale. */
  lemma StaleComesFromRollback(w: World, e: Event)
    requires !Stale(w) && Enabled(w, e) && !e.Rollback?
    ensures !Stale(Next(w, e))
  {
    hide Marked, Rearmed, Pruned, Pending, Written, Added;
  }

  /** Once every row is with the host or waiting, and no stale reply is on its way, no run
      without another rollback loses a row, whatever is sent, lost, re-armed and pruned. */
  lemma {:induction false} LosslessForGood(w: World, events: seq<Event>)
    requires Inv(w) && Lossless(w) && !Stale(w)
    requires Run(w, events).Some? && forall e | e in events :: !e.Rollback?
    ensures Inv(Run(w, events).value) && Lossless(Run(w, events).value) && !Stale(Run(w, events).value)
  {
    hide Inv, Next, Enabled, Lossless, Stale, Run;
    if events == [] {
      RunNothing(w);
    } else {
      var n := |events| - 1;
      RunUnfolds(w, events);
      assert forall e | e in events[..n] :: e in events;
      LosslessForGood(w, events[..n]);
      var v := Run(w, events[..n]).value;
      InvStep(v, events[n]);
      LosslessStep(v, events[n]);
      StaleComesFromRollback(v, events[n]);
    }
  }

  /** The steps that lose a row: a stale reply, and a rollback that drops a row no longer
      waiting for delivery. */
  predicate Loses(w: World, e: Event) {
    || (e.ReplyArrives? && Stale(w))
    || (e.Rollback? && exists s | s in w.made && s in w.host :: s !in e.kept && !Armed(w, s))
  }

  lemma LosesExactly(w: World, e: Event)
    requires Inv(w) && Lossless(w) && Enabled(w, e)
    ensures Lossless(Next(w, e)) <==> !Loses(w, e)
  {
    hide Inv, Stale;
    match e {
      case ReplyArrives => ReplyLosesExactly(w);
      case Rollback(kept) => RollbackLosesExactly(w, kept);
      case _ => LosslessStep(w, e);
    }
  }

  lemma RollbackLosesExactly(w: World, kept: set<nat>)
    requires Lossless(w)
    ensures Lossless(Next(w, Rollback(kept))) <==> !Loses(w, Rollback(kept))
  {
    hide Armed;
    var v := Next(w, Rollback(kept));
    forall s
      ensures Armed(v, s) <==> Armed(w, s)
    {
      SameRowsSameArmed(w, v, s);
    }
  }

  lemma SameRowsSameArmed(w: World, v: World, s: nat)
    requires v.db.results == w.db.results
    ensures Armed(v, s) <==> Armed(w, s)
  {
  }

  /** Every state of the run has every result with the host or waiting. */
  predicate LosslessThroughout(first: World, events: seq<Event>) {
    forall i | 0 <= i <= |events| :: Run(first, events[..i]).Some? ==> Lossless(Run(first, events[..i]).value)
  }

  /** No step of the run is a stale reply, nor a rollback past a row that no longer waits. */
  predicate NeverLoses(first: World, events: seq<Event>) {
    forall i | 0 <= i < |events| ::
      Run(first, events[..i]).Some? ==> !Loses(Run(first, events[..i]).value, events[i])
  }

  /** Over every run, rollbacks and crashes included: every state keeps every result with
      the host or waiting if and only if no step is one of those two. */
  lemma {:induction false} LosslessExactly(w: World, events: seq<Event>)
    requires Inv(w) && Lossless(w) && Run(w, events).Some?
    ensures LosslessThroughout(w, events) <==> NeverLoses(w, events)
    ensures Inv(Run(w, events).value)
  {
    hide Inv, Next, Enabled, Lossless, Loses, Run;
    if events == [] {
      RunNothing(w);
      assert events[..0] == [];
    } else {
      var n := |events| - 1;
      RunUnfolds(w, events);
      LosslessExactly(w, events[..n]);
      OneStateMore(w, events);
      OneStepMore(w, events);
      var v := Run(w, events[..n]).value;
      InvStep(v, events[n]);
      if LosslessThroughout(w, events[..n]) {
        assert events[..n][..n] == events[..n];
        LosesExactly(v, events[n]);
      }
    }
  }

  lemma PrefixesOfPrefix(events: seq<Event>, n: nat)
    requires n <= |events|
    ensures forall i | 0 <= i <= n :: events[..n][..i] == events[..i]
  {
  }

  lemma OneStateMore(first: World, events: seq<Event>)
    requires events != [] && Run(first, events).Some?
    ensures LosslessThroughout(first, events)
            <==> LosslessThroughout(first, events[..|events| - 1]) && Lossless(Run(first, events).value)
  {
    hide Lossless, Run;
    var n := |events| - 1;
    assert events[..n + 1] == events;
    PrefixesOfPrefix(events, n);
    if LosslessThroughout(first, events[..n]) && Lossless(Run(first, events).value) {
      forall i | 0 <= i <= |events| && Run(first, events[..i]).Some?
        ensures Lossless(Run(first, events[..i]).value)
      {
        if i <= n { assert events[..n][..i] == events[..i]; }
      }
    }
  }

  lemma OneStepMore(first: World, events: seq<Event>)
    requires events != [] && Run(first, events[..|events| - 1]).Some?
    ensures var n := |events| - 1;
            NeverLoses(first, events)
            <==> NeverLoses(first, events[..n]) && !Loses(Run(first, events[..n]).value, events[n])
  {
    hide Loses, Run;
    PrefixesOfPrefix(events, |events| - 1);
  }

  /** Without another rollback only the stale reply is left: every state is lossless if and
      only if no reply arrives while it is stale. */
  lemma OnlyStaleRepliesLose(w: World, events: seq<Event>)
    requires Inv(w) && Lossless(w) && Run(w, events).Some? && forall e | e in events :: !e.Rollback?
    ensures LosslessThroughout(w, events) <==>
            forall i | 0 <= i < |events| && events[i].ReplyArrives? ::
              Run(w, events[..i]).Some? ==> !Stale(Run(w, events[..i]).value)
  {
    hide Inv, Lossless, LosslessThroughout, Stale, Run;
    LosslessExactly(w, events);
    assert forall i | 0 <= i < |events| :: events[i] in events;
  }

  lemma RunNothing(w: World)
    ensures Run(w, []) == Some(w)
  {
  }

  /** The rollback margin over whole runs: after any history, when the host holds every row
      up to rs, rs lies within the margin, and no stale reply is on its way, re-arming from
      rs makes sure that no later run without another rollback loses a row. */
  lemma MarginHoldsForGood(before: seq<Event>, rs: int, later: seq<Event>)
    requires After(before).Some?
    requires var w := After(before).value;
             && rs >= w.maxConfirmed - 1000
             && (forall s | s in w.made && s <= rs :: s in w.host)
             && !Stale(w)
             && Run(Next(w, Rearm(rs)), later).Some?
    requires forall e | e in later :: !e.Rollback?
    ensures Lossless(Run(Next(After(before).value, Rearm(rs)), later).value)
  {
    hide Lossless, Stale, Run, Rearmed;
    var w := After(before).value;
    EveryRunKeeps(before);
    InvStep(w, Rearm(rs));
    MarginRestores(w, rs);
    StaleComesFromRollback(w, Rearm(rs));
    LosslessForGood(Next(w, Rearm(rs)), later);
  }

  // ── No assignment is ever out of reach ──────────────────────────────────────

  /** Every result ever made is with the host or at least stored. */
  predicate Kept(w: World) {
    forall s | s in w.made :: s in w.host || s in SeqsOf(w.db.results)
  }

  /** What a whole pass leaves of the rest of the world. */
  predicate SameButProduced(w: World, v: World) {
    && v.db.assignments == w.db.assignments && v.db.manifest.Keys == w.db.manifest.Keys
    && v.flight == w.flight && v.host == w.host && (Kept(w) ==> Kept(v))
  }

  lemma ProduceEffect(w: World, sid: int)
    requires Inv(w) && Enabled(w, Produce(sid))
    ensures var v := Next(w, Produce(sid));
            && v.runner == Producing(w.runner.aid, w.runner.todo - {sid})
            && Pending(v.db, w.runner.aid) == Pending(w.db, w.runner.aid) - {sid}
            && SameButProduced(w, v)
  {
    hide OncePerRow, AcknowledgedFirst, InFlight, DoneIsTrue, NumbersHold;
    var v, aid := Next(w, Produce(sid)), w.runner.aid;
    var row := Row(w.db.last + 1, Item(aid, sid), false);
    assert v.db.results == w.db.results + [row];
    assert SeqsOf(v.db.results) == SeqsOf(w.db.results) + {row.seqNo};
    assert v.db.manifest == w.db.manifest[Item(aid, sid) := true];
    forall s
      ensures s in Pending(v.db, aid) <==> s in Pending(w.db, aid) - {sid}
    {
      assert s in Pending(w.db, aid) <==> Item(aid, s) in w.db.manifest && !w.db.manifest[Item(aid, s)];
      assert s in Pending(v.db, aid) <==> Item(aid, s) in v.db.manifest && !v.db.manifest[Item(aid, s)];
    }
  }

  lemma {:induction false} PassRuns(w: World) returns (events: seq<Event>, v: World)
    requires Inv(w) && w.runner.Producing?
    ensures Run(w, events) == Some(v) && Inv(v) && forall e | e in events :: e.Produce?
    ensures v.runner == Producing(w.runner.aid, {})
    ensures Pending(v.db, w.runner.aid) == Pending(w.db, w.runner.aid) - w.runner.todo
    ensures SameButProduced(w, v)
    decreases |w.runner.todo|
  {
    hide Inv, Next, Enabled, Run, Pending, Kept;
    var todo := w.runner.todo;
    if forall s :: s !in todo {
      events, v := [], w;
      RunNothing(w);
      assert todo == {};
      assert Pending(w.db, w.runner.aid) - todo == Pending(w.db, w.runner.aid);
    } else {
      var sid :| sid in todo;
      var e := Produce(sid);
      ProducingIsEnabled(w, sid);
      ProduceEffect(w, sid);
      InvStep(w, e);
      RunNothing(w);
      RunNext(w, [], w, e);
      var u := Next(w, e);
      var more;
      more, v := PassRuns(u);
      events := [] + [e] + more;
      RunJoins(w, [] + [e], u, more);
      assert Pending(w.db, w.runner.aid) - {sid} - (todo - {sid}) == Pending(w.db, w.runner.aid) - todo;
    }
  }

  lemma ProducingIsEnabled(w: World, sid: int)
    requires w.runner.Producing? && sid in w.runner.todo
    ensures Enabled(w, Produce(sid))
  {
  }

  /** The first half: whatever was under way is dropped, a pass makes what is pending, and
      the assignment is closed. */
  lemma ProductionRuns(w: World, aid: Aid) returns (events: seq<Event>, v: World)
    requires Inv(w) && aid in w.db.assignments
    ensures Run(w, events) == Some(v) && Inv(v) && forall e | e in events :: !e.Rollback? && !e.Reconciled?
    ensures Pending(v.db, aid) == {} && aid in v.db.assignments && v.db.assignments[aid] == Complete && v.flight.Nothing?
    ensures v.db.manifest.Keys == w.db.manifest.Keys && (Kept(w) ==> Kept(v))
  {
    hide Inv, Run, Pending, Kept;
    RunNothing(w);
    RunNext(w, [], w, Crash);
    InvStep(w, Crash);
    var crashed := Next(w, Crash);
    KeptStays(w, crashed);
    RunNext(w, [] + [Crash], crashed, StartPass(aid));
    InvStep(crashed, StartPass(aid));
    var begun := Next(crashed, StartPass(aid));
    KeptStays(crashed, begun);
    var pass, made := PassRuns(begun);
    events := [] + [Crash] + [StartPass(aid)];
    RunJoins(w, events, begun, pass);
    events := events + pass;
    RunNext(w, events, made, EndPass);
    InvStep(made, EndPass);
    var ended := Next(made, EndPass);
    KeptStays(made, ended);
    assert Pending(ended.db, aid) == {};
    events := events + [EndPass];
    RunNext(w, events, ended, CloseFinished(aid));
    InvStep(ended, CloseFinished(aid));
    v := Next(ended, CloseFinished(aid));
    KeptStays(ended, v);
    SamePending(ended.db, v.db, aid);
    events := events + [CloseFinished(aid)];
  }

  lemma KeptStays(w: World, v: World)
    requires v.made == w.made && v.host == w.host && v.db.results == w.db.results
    ensures Kept(w) <==> Kept(v)
  {
  }

  lemma SamePending(a: Db, b: Db, aid: Aid)
    requires a.manifest == b.manifest
    ensures Pending(a, aid) == Pending(b, aid)
  {
  }

  /** The second half: every stored row is sent, saved and acknowledged, and the done is
      sent and answered. */
  lemma DeliveryRuns(w: World, aid: Aid) returns (events: seq<Event>, v: World)
    requires Inv(w) && aid in w.db.assignments && w.db.assignments[aid] == Complete && w.flight.Nothing?
    ensures Run(w, events) == Some(v) && Inv(v) && forall e | e in events :: !e.Rollback? && !e.Reconciled?
    ensures aid in v.db.doneSent && v.db.manifest == w.db.manifest && v.db.assignments == w.db.assignments
    ensures Kept(w) ==> v.made.Keys <= v.host
    ensures v.closed == w.closed && v.made == w.made
  {
    hide Inv, Run, Marked, Pending;
    var seqs := SeqsOf(w.db.results);
    RunNothing(w);
    RunNext(w, [], w, Post(seqs));
    InvStep(w, Post(seqs));
    var sent := Next(w, Post(seqs));
    events := [] + [Post(seqs)];
    RunNext(w, events, sent, HostSaves(seqs, 0));
    InvStep(sent, HostSaves(seqs, 0));
    var saved := Next(sent, HostSaves(seqs, 0));
    events := events + [HostSaves(seqs, 0)];
    RunNext(w, events, saved, ReplyArrives);
    InvStep(saved, ReplyArrives);
    var answered := Next(saved, ReplyArrives);
    events := events + [ReplyArrives];
    AllMarked(w.db.results, aid);
    RunNext(w, events, answered, PostDone(aid));
    InvStep(answered, PostDone(aid));
    var told := Next(answered, PostDone(aid));
    events := events + [PostDone(aid)];
    RunNext(w, events, told, DoneAnswered(aid));
    InvStep(told, DoneAnswered(aid));
    v := Next(told, DoneAnswered(aid));
    events := events + [DoneAnswered(aid)];
  }

  lemma AllMarked(rows: seq<Row>, aid: Aid)
    ensures UndeliveredOf(Marked(rows, SeqsOf(rows)), aid) == {}
  {
    var m := Marked(rows, SeqsOf(rows));
    forall r | r in m
      ensures r.delivered
    {
      var i :| 0 <= i < |m| && m[i] == r;
      assert rows[i] in rows;
    }
  }

  /** From every state of every run, rollbacks and crashes behind it, each known assignment
      can still be finished without the host's closing it: every row made, sent and
      acknowledged, the done sent and answered; and unless a row was lost before, the host
      then holds every result ever made. */
  lemma AlwaysCanFinish(before: seq<Event>, aid: Aid) returns (later: seq<Event>, v: World)
    requires After(before).Some? && aid in After(before).value.db.assignments
    ensures Run(After(before).value, later) == Some(v)
    ensures forall e | e in later :: !e.Rollback? && !e.Reconciled?
    ensures v.db.manifest.Keys == After(before).value.db.manifest.Keys
    ensures forall k | k in v.db.manifest && k.aid == aid :: v.db.manifest[k]
    ensures aid in v.db.assignments && v.db.assignments[aid] == Complete && aid in v.db.doneSent
    ensures aid !in v.closed ==> AllAcknowledged(v, aid)
    ensures Lossless(After(before).value) ==> v.made.Keys <= v.host
  {
    hide Inv, Run, Kept, Lossless, Pending, AllAcknowledged;
    var w := After(before).value;
    EveryRunKeeps(before);
    var first, u := ProductionRuns(w, aid);
    var second;
    second, v := DeliveryRuns(u, aid);
    later := first + second;
    RunJoins(w, first, u, second);
    SamePending(u.db, v.db, aid);
    NothingPending(v.db, aid);
    if Lossless(w) { LosslessIsKept(w); }
    DoneIsAcknowledged(v, aid);
  }

  lemma NothingPending(t: Db, aid: Aid)
    requires Pending(t, aid) == {}
    ensures forall k | k in t.manifest && k.aid == aid :: t.manifest[k]
  {
    forall k | k in t.manifest && k.aid == aid
      ensures t.manifest[k]
    {
      assert t.manifest[k] || k.sid in Pending(t, aid);
    }
  }

  lemma LosslessIsKept(w: World)
    requires Lossless(w)
    ensures Kept(w)
  {
    forall s | s in w.made && s !in w.host
      ensures s in SeqsOf(w.db.results)
    {
      assert Armed(w, s);
    }
  }

  lemma DoneIsAcknowledged(w: World, aid: Aid)
    requires Inv(w) && aid in w.db.doneSent
    ensures aid !in w.closed ==> AllAcknowledged(w, aid)
  {
    hide NumbersHold, OncePerRow, AcknowledgedFirst, InFlight, PassIsPending, AllAcknowledged, Pending;
  }

  /** A run that loses a row: the host saves it, falls back, the agent re-arms, and only
      then the old reply arrives. */
  function StaleRun(): seq<Event> {
    [Dispatch("a", {7}), StartPass("a"), Produce(7), Post({1}), HostSaves({1}, 1), Rollback({}), Rearm(0),
     ReplyArrives]
  }

  lemma OneMore(events: seq<Event>, n: nat, w: World)
    requires n < |events| && After(events[..n]) == Some(w) && Enabled(w, events[n])
    ensures After(events[..n + 1]) == Some(Next(w, events[n]))
  {
    assert events[..n + 1][..n] == events[..n];
  }

  lemma StaleReplyLosesARow()
    ensures After(StaleRun()).Some? && !Lossless(After(StaleRun()).value)
    ensures After(StaleRun()[..7]).Some? && Lossless(After(StaleRun()[..7]).value)
  {
    hide Lossless, Run, Next, Inv;
    var r := StaleRun();
    var w3 := StaleBegins();
    LastSteps();
    OneMore(r, 3, w3);
    OneMore(r, 4, POSTED);
    OneMore(r, 5, SAVED);
    OneMore(r, 6, WAITING);
    OneMore(r, 7, WAITING);
    assert r[..8] == r;
    EveryRunKeeps(r[..7]);
    LosslessAgain(WAITING, Row(1, ONE, false));
    ReplyLosesExactly(WAITING);
  }

  const POSTED: World := MADE.(flight := Sent({1}))
  const SAVED: World := MADE.(flight := Answered({1}, {1}, 1), host := {1}, acked := {1})
  const WAITING: World := SAVED.(host := {})

  lemma LastSteps()
    ensures Enabled(MADE, Post({1})) && Next(MADE, Post({1})) == POSTED
    ensures Next(POSTED, HostSaves({1}, 1)) == SAVED
    ensures Next(SAVED, Rollback({})) == WAITING
    ensures Next(WAITING, Rearm(0)) == WAITING
    ensures Stale(WAITING)
  {
    assert Row(1, ONE, false) in MADE.db.results;
    assert Rearmed(MADE.db.results, 0) == MADE.db.results;
  }

  lemma LosslessAgain(w: World, row: Row)
    requires w.made.Keys == {1} && w.db.results == [row] && row.seqNo == 1 && !row.delivered
    ensures Lossless(w)
  {
    assert row in w.db.results;
    assert Armed(w, 1);
  }

  const ONE := Item("a", 7)
  const DISPATCHED: World := START.(db := START.db.(assignments := map["a" := Open], manifest := map[ONE := false]))
  const PASSING: World := DISPATCHED.(runner := Producing("a", {7}))
  const MADE: World := PASSING.(db := Db(map["a" := Open], map[ONE := true], [Row(1, ONE, false)], 1, {}, false),
                         runner := Producing("a", {}), made := map[1 := ONE])

  lemma FirstSteps()
    ensures Next(START, Dispatch("a", {7})) == DISPATCHED
    ensures Enabled(DISPATCHED, StartPass("a")) && Next(DISPATCHED, StartPass("a")) == PASSING
    ensures Next(PASSING, Produce(7)) == MADE
  {
    assert Added(START.db, "a", {7}).manifest == map[ONE := false];
    PendingOne();
    assert {7} - {7} == {};
  }

  lemma PendingOne()
    ensures Pending(DISPATCHED.db, "a") == {7}
  {
    assert ONE in DISPATCHED.db.manifest && ONE.sid == 7;
  }

  /** The first three steps: one result made, nothing sent. */
  lemma StaleBegins() returns (w: World)
    ensures After(StaleRun()[..3]) == Some(w) && w == MADE
  {
    var r := StaleRun();
    assert r[..0] == [] && After(r[..0]) == Some(START);
    hide Run, Next;
    FirstSteps();
    OneMore(r, 0, START);
    OneMore(r, 1, DISPATCHED);
    OneMore(r, 2, PASSING);
    w := MADE;
  }
}
