/** The agent's durable store: assignments, their manifest, and the results waiting for
    delivery (remote_worker/result_store.py). Every method is one committed transaction. */
module ResultStore {
  import opened Bytes

  const KEEP_MARGIN := 1000

  type Aid = string

  /** A manifest row's primary key. */
  datatype Item = Item(aid: Aid, sid: int)

  datatype State = Open | Complete | Abandoned | Stalled | Cancelled

  /** What the host says of an assignment when the agent reports back. */
  datatype Verdict = Resume | Unknown | Reconciled | Reassigned

  datatype Row = Row(seqNo: nat, item: Item, delivered: bool)

  /** The tables: `results` in the order of their primary key, `last` the highest number
      the AUTOINCREMENT key has ever given out. */
  datatype Db = Db(assignments: map<Aid, State>, manifest: map<Item, bool>,
                           results: seq<Row>, last: nat, doneSent: set<Aid>, diskFull: bool)

  function SidsOf(items: seq<int>): set<int> {
    set s | s in items
  }

  // ── What each statement does to the tables ──────────────────────────────────

  /** INSERT OR IGNORE of the assignment and of every manifest row. */
  function Added(t: Db, aid: Aid, sids: set<int>): Db {
    var items := set s | s in sids :: Item(aid, s);
    t.(assignments := if aid in t.assignments then t.assignments else t.assignments[aid := Open],
       manifest := map k | k in t.manifest.Keys + items :: if k in t.manifest then t.manifest[k] else false)
  }

  function WithState(t: Db, aid: Aid, state: State): Db {
    if aid in t.assignments then t.(assignments := t.assignments[aid := state]) else t
  }

  function Written(t: Db, item: Item): Db {
    t.(results := t.results + [Row(t.last + 1, item, false)],
       last := t.last + 1,
       manifest := if item in t.manifest then t.manifest[item := true] else t.manifest,
       diskFull := false)
  }

  /** Manifest rows of an assignment that are not done. */
  function Pending(t: Db, aid: Aid): set<int> {
    set k | k in t.manifest && k.aid == aid && !t.manifest[k] :: k.sid
  }

  function Rows(t: Db, aid: Aid): set<Item> {
    set k | k in t.manifest && k.aid == aid
  }

  function DoneRows(t: Db, aid: Aid): set<Item> {
    set k | k in t.manifest && k.aid == aid && t.manifest[k]
  }

  /** The first undelivered rows, in order, at most `limit`. */
  function FirstUndelivered(rows: seq<Row>, limit: nat): (r: seq<Row>)
    ensures |r| <= limit
    ensures forall x | x in r :: x in rows && !x.delivered
  {
    if rows == [] || limit == 0 then []
    else if rows[0].delivered then FirstUndelivered(rows[1..], limit)
    else [rows[0]] + FirstUndelivered(rows[1..], limit - 1)
  }

  function Marked(rows: seq<Row>, seqs: set<nat>): (r: seq<Row>)
    ensures |r| == |rows|
    ensures forall i | 0 <= i < |rows| ::
              r[i] == rows[i].(delivered := rows[i].delivered || rows[i].seqNo in seqs)
  {
    seq(|rows|, i requires 0 <= i < |rows| =>
          rows[i].(delivered := rows[i].delivered || rows[i].seqNo in seqs))
  }

  function Rearmed(rows: seq<Row>, since: int): (r: seq<Row>)
    ensures |r| == |rows|
    ensures forall i | 0 <= i < |rows| ::
              r[i] == rows[i].(delivered := rows[i].delivered && rows[i].seqNo <= since)
  {
    seq(|rows|, i requires 0 <= i < |rows| =>
          rows[i].(delivered := rows[i].delivered && rows[i].seqNo <= since))
  }

  predicate Prunable(r: Row, cutoff: int) {
    r.delivered && r.seqNo <= cutoff
  }

  function Without(rows: seq<Row>, cutoff: int): (r: seq<Row>)
    ensures forall x :: x in r <==> x in rows && !Prunable(x, cutoff)
  {
    if rows == [] then [] else
    var n := |rows| - 1;
    assert rows == rows[..n] + [rows[n]];
    Without(rows[..n], cutoff) + if Prunable(rows[n], cutoff) then [] else [rows[n]]
  }

  /** Pruning up to a confirmed number, the margin kept. */
  function Pruned(rows: seq<Row>, confirmed: int): seq<Row> {
    if confirmed - KEEP_MARGIN <= 0 then rows else Without(rows, confirmed - KEEP_MARGIN)
  }

  function UndeliveredOf(rows: seq<Row>, aid: Aid): set<nat> {
    set r | r in rows && !r.delivered && r.item.aid == aid :: r.seqNo
  }

  // ── The object ──────────────────────────────────────────────────────────────

  class Store {
    var assignments: map<Aid, State>
    var manifest: map<Item, bool>
    var results: seq<Row>
    var last: nat
    var doneSent: set<Aid>
    var diskFull: bool

    function Contents(): Db
      reads this
    {
      Db(assignments, manifest, results, last, doneSent, diskFull)
    }

    constructor ()
      ensures Contents() == Db(map[], map[], [], 0, {}, false)
    {
      assignments, manifest, results, last, doneSent, diskFull := map[], map[], [], 0, {}, false;
    }

    method AddAssignment(aid: Aid, items: seq<int>)
      modifies this
      ensures Contents() == Added(old(Contents()), aid, SidsOf(items))
      ensures assignments == if aid in old(assignments) then old(assignments) else old(assignments)[aid := Open]
      ensures forall k :: k in manifest <==> k in old(manifest) || (k.aid == aid && k.sid in items)
      ensures forall k | k in manifest :: manifest[k] <==> k in old(manifest) && old(manifest)[k]
    {
      if aid !in assignments { assignments := assignments[aid := Open]; }
      AddManifestItems(aid, items);
    }

    method AddManifestItems(aid: Aid, items: seq<int>)
      requires aid in assignments
      modifies this`manifest
      ensures Contents() == Added(old(Contents()), aid, SidsOf(items))
    {
      ghost var was := Contents();
      for i := 0 to |items|
        invariant Contents() == Added(was, aid, SidsOf(items[..i]))
      {
        assert items[..i + 1] == items[..i] + [items[i]];
        var k := Item(aid, items[i]);
        if k !in manifest { manifest := manifest[k := false]; }
        AddedNext(was, aid, SidsOf(items[..i]), items[i]);
        assert SidsOf(items[..i + 1]) == SidsOf(items[..i]) + {items[i]};
      }
      assert items[..|items|] == items;
    }

    method SetAssignmentState(aid: Aid, state: State)
      modifies this`assignments
      ensures Contents() == WithState(old(Contents()), aid, state)
    {
      if aid in assignments { assignments := assignments[aid := state]; }
    }

    /** Acts on the host's verdicts: only states of known assignments change, so nothing
        produced is lost. */
    method ApplyReconcile(verdicts: map<Aid, Verdict>)
      modifies this`assignments
      ensures assignments.Keys == old(assignments).Keys
      ensures forall aid | aid in assignments ::
                assignments[aid] == if aid !in verdicts then old(assignments)[aid]
                                    else match verdicts[aid]
                                      case Reconciled => Complete
                                      case Reassigned => Abandoned
                                      case _ => old(assignments)[aid]
    {
      var left := verdicts.Keys;
      while left != {}
        invariant left <= verdicts.Keys
        invariant assignments.Keys == old(assignments).Keys
        invariant forall aid | aid in assignments ::
                    assignments[aid] == if aid !in verdicts || aid in left then old(assignments)[aid]
                                        else match verdicts[aid]
                                          case Reconciled => Complete
                                          case Reassigned => Abandoned
                                          case _ => old(assignments)[aid]
        decreases left
      {
        var aid :| aid in left;
        if verdicts[aid].Reconciled? {
          SetAssignmentState(aid, Complete);
        } else if verdicts[aid].Reassigned? {
          SetAssignmentState(aid, Abandoned);
        }
        left := left - {aid};
      }
    }

    method AssignmentProgress(aid: Aid) returns (total: nat, done: nat)
      ensures total == |Rows(Contents(), aid)| && done == |DoneRows(Contents(), aid)|
      ensures done >= total <==> Pending(Contents(), aid) == {}
    {
      total, done := |Rows(Contents(), aid)|, |DoneRows(Contents(), aid)|;
      AllDoneIsNothingPending(Contents(), aid);
    }

    /** The number of the new row, or `None` when the disk refused it. */
    method WriteResult(item: Item, diskRefuses: bool) returns (r: Option<nat>)
      modifies this
      ensures diskRefuses ==> r.None? && Contents() == old(Contents()).(diskFull := true)
      ensures !diskRefuses ==> r == Some(old(last) + 1) && Contents() == Written(old(Contents()), item)
      ensures !diskRefuses ==>
                && results == old(results) + [Row(old(last) + 1, item, false)] && last == old(last) + 1 && !diskFull
                && manifest.Keys == old(manifest).Keys
                && forall k | k in manifest :: manifest[k] <==> k == item || old(manifest)[k]
    {
      if diskRefuses {
        diskFull := true;
        return None;
      }
      last := last + 1;
      results := results + [Row(last, item, false)];
      if item in manifest { manifest := manifest[item := true]; }
      diskFull := false;
      return Some(last);
    }

    method MarkDeliveredSeqs(seqs: set<nat>)
      modifies this`results
      ensures results == Marked(old(results), seqs)
      ensures |results| == |old(results)| && forall i | 0 <= i < |results| ::
                && results[i].seqNo == old(results)[i].seqNo && results[i].item == old(results)[i].item
                && (results[i].delivered <==> old(results)[i].delivered || old(results)[i].seqNo in seqs)
    {
      results := Marked(results, seqs);
    }

    method MarkUndeliveredSince(since: int)
      modifies this`results
      ensures results == Rearmed(old(results), since)
      ensures |results| == |old(results)| && forall i | 0 <= i < |results| ::
                && results[i].seqNo == old(results)[i].seqNo && results[i].item == old(results)[i].item
                && (results[i].delivered <==> old(results)[i].delivered && old(results)[i].seqNo <= since)
    {
      results := Rearmed(results, since);
    }

    method PruneConfirmed(confirmed: int)
      modifies this`results
      ensures results == Pruned(old(results), confirmed)
      ensures forall r :: r in results <==>
                r in old(results) && !(r.delivered && r.seqNo + 1000 <= confirmed && confirmed > 1000)
    {
      var cutoff := confirmed - KEEP_MARGIN;
      if cutoff <= 0 { return; }
      results := Without(results, cutoff);
    }

    method SetDoneSent(aid: Aid)
      modifies this`doneSent
      ensures doneSent == old(doneSent) + {aid}
    {
      doneSent := doneSent + {aid};
    }
  }

  lemma AddedNext(t: Db, aid: Aid, sids: set<int>, s: int)
    requires aid in t.assignments
    ensures var a, k := Added(t, aid, sids), Item(aid, s);
            Added(t, aid, sids + {s}) == if k in a.manifest then a else a.(manifest := a.manifest[k := false])
  {
    var a, b, k := Added(t, aid, sids), Added(t, aid, sids + {s}), Item(aid, s);
    var expected := if k in a.manifest then a.manifest else a.manifest[k := false];
    assert b.manifest.Keys == expected.Keys;
    assert b.manifest == expected;
  }

  lemma AllDoneIsNothingPending(t: Db, aid: Aid)
    ensures |DoneRows(t, aid)| >= |Rows(t, aid)| <==> Pending(t, aid) == {}
    ensures |DoneRows(t, aid)| <= |Rows(t, aid)|
  {
    var rows, done := Rows(t, aid), DoneRows(t, aid);
    assert rows == done + (rows - done);
    if Pending(t, aid) == {} {
      forall k | k in rows
        ensures k in done
      {
        assert k in done || k.sid in Pending(t, aid);
      }
      assert rows == done;
    }
    forall s | s in Pending(t, aid)
      ensures Item(aid, s) in rows - done
    {
    }
  }
}
