/** The loop that works through every open assignment (remote_worker/remote_server.py). */
module Drain {
  import opened Bytes

  const STALL_TRIES := 3

  /** `Closed`: set aside by the host before this run. */
  datatype State = Open | Complete | Stalled | Closed

  /** One assignment: the rows of its manifest and how many are done. */
  datatype Job = Job(total: nat, done: nat, state: State) {
    function Pending(): int {
      total - done
    }
  }

  /** What one production run adds, and whether the machine's window is open behind it. */
  datatype Attempt = Attempt(gain: nat, windowOpen: bool)

  /** One attempt as it went: on which assignment, with any new row, in an open window. */
  datatype Event = Event(job: nat, gained: bool, counted: bool)

  predicate Sane(jobs: seq<Job>) {
    forall j | j in jobs :: j.done <= j.total
  }

  /** Counted attempts on a job without a new row since its last new row. */
  function Misses(log: seq<Event>, job: nat): nat {
    if log == [] then 0 else
    var e, before := log[|log| - 1], Misses(log[..|log| - 1], job);
    if e.job != job || (!e.gained && !e.counted) then before
    else if e.gained then 0
    else before + 1
  }

  function Uncounted(log: seq<Event>): nat {
    if log == [] then 0 else
    var e := log[|log| - 1];
    Uncounted(log[..|log| - 1]) + if !e.gained && !e.counted then 1 else 0
  }

  function TriesOf(tries: map<nat, nat>, job: nat): nat {
    if job in tries then tries[job] else 0
  }

  // ── What is left to try ─────────────────────────────────────────────────────

  /** Attempts an open job may still cost: three for each missing row and three more,
      less those it has used up. */
  function Share(j: Job, tries: nat): int {
    if j.state.Open? then 3 * j.Pending() + 3 - tries else 0
  }

  function Left(jobs: seq<Job>, tries: map<nat, nat>, n: nat): int
    requires n <= |jobs|
  {
    if n == 0 then 0 else Left(jobs, tries, n - 1) + Share(jobs[n - 1], TriesOf(tries, n - 1))
  }

  lemma {:induction false} LeftChanges(a: seq<Job>, s: map<nat, nat>, b: seq<Job>, t: map<nat, nat>, i: nat, n: nat)
    requires |a| == |b| && i < |a| && n <= |a|
    requires forall k | 0 <= k < |a| && k != i :: a[k] == b[k] && TriesOf(s, k) == TriesOf(t, k)
    ensures Left(b, t, n) - Left(a, s, n)
            == if i < n then Share(b[i], TriesOf(t, i)) - Share(a[i], TriesOf(s, i)) else 0
  {
    if n > 0 { LeftChanges(a, s, b, t, i, n - 1); }
  }

  lemma {:induction false} LeftIsNatural(jobs: seq<Job>, tries: map<nat, nat>, n: nat)
    requires n <= |jobs| && Sane(jobs) && forall k | 0 <= k < |jobs| :: TriesOf(tries, k) <= 3
    ensures Left(jobs, tries, n) >= 0
  {
    if n > 0 {
      assert jobs[n - 1] in jobs;
      LeftIsNatural(jobs, tries, n - 1);
    }
  }

  /** Finishing a job takes its share away. */
  lemma {:induction false} LeftShrinks(a: seq<Job>, b: seq<Job>, tries: map<nat, nat>, n: nat)
    requires |a| == |b| && n <= |a| && Sane(a)
    requires forall k | 0 <= k < |a| :: TriesOf(tries, k) < 3 && (b[k] == a[k] || !b[k].state.Open?)
    ensures Left(b, tries, n) <= Left(a, tries, n)
  {
    if n > 0 {
      assert a[n - 1] in a;
      LeftShrinks(a, b, tries, n - 1);
    }
  }

  // ── The code ────────────────────────────────────────────────────────────────

  /** The store's view of the assignments, in the order they were created. */
  class Queue {
    var jobs: seq<Job>

    constructor (initial: seq<Job>)
      ensures jobs == initial
    {
      jobs := initial;
    }

    method SetState(i: nat, state: State)
      requires i < |jobs|
      modifies this
      ensures jobs == old(jobs)[i := old(jobs)[i].(state := state)]
    {
      jobs := jobs[i := jobs[i].(state := state)];
    }

    /** One production run: the new rows, and `complete` once nothing is pending. */
    method Produce(i: nat, gain: nat)
      requires i < |jobs| && jobs[i].state.Open? && jobs[i].done < jobs[i].total
      modifies this
      ensures jobs == old(jobs)[i := After(old(jobs)[i], gain)]
      ensures jobs[i].total == old(jobs)[i].total && jobs[i].done == Least(jobs[i].total, old(jobs)[i].done + gain)
      ensures jobs[i].state == if jobs[i].done == jobs[i].total then Complete else Open
    {
      var j := jobs[i];
      var done := if j.done + gain <= j.total then j.done + gain else j.total;
      jobs := jobs[i := j.(done := done)];
      if done >= j.total { SetState(i, Complete); }
    }

    /** The first open job with work left; finished ones before it are closed on the way. */
    method Next() returns (next: Option<nat>)
      requires Sane(jobs)
      modifies this
      ensures |jobs| == |old(jobs)| && forall k | 0 <= k < |jobs| :: Passed(old(jobs)[k], jobs[k])
      ensures next.None? ==> forall k | 0 <= k < |jobs| :: !jobs[k].state.Open?
      ensures next.Some? ==>
        && next.value < |jobs| && jobs[next.value].state.Open? && jobs[next.value].done < jobs[next.value].total
        && forall k | 0 <= k < next.value :: !jobs[k].state.Open?
      ensures forall k | 0 <= k < if next.Some? then next.value else |jobs| ::
        jobs[k] == if old(jobs)[k].state.Open? then old(jobs)[k].(state := Complete) else old(jobs)[k]
      ensures forall k | next.Some? && next.value <= k < |jobs| :: jobs[k] == old(jobs)[k]
    {
      for i := 0 to |jobs|
        invariant |jobs| == |old(jobs)| && forall k | 0 <= k < |jobs| :: Passed(old(jobs)[k], jobs[k])
        invariant forall k | 0 <= k < i ::
          jobs[k] == if old(jobs)[k].state.Open? then old(jobs)[k].(state := Complete) else old(jobs)[k]
        invariant forall k | i <= k < |jobs| :: jobs[k] == old(jobs)[k]
      {
        if jobs[i].state.Open? {
          if jobs[i].done < jobs[i].total { return Some(i); }
          SetState(i, Complete);
        }
      }
      return None;
    }
  }

  function Least(a: nat, b: nat): nat {
    if a < b then a else b
  }

  function After(j: Job, gain: nat): Job {
    var done := Least(j.total, j.done + gain);
    Job(j.total, done, if done >= j.total then Complete else j.state)
  }

  /** Left alone, or found finished and marked complete. */
  predicate Passed(was: Job, is_: Job) {
    is_ == was || (was.state.Open? && was.done >= was.total && is_ == was.(state := Complete))
  }

  type Tries = map<nat, nat>

  /** The books after one attempt on job i. */
  function Booked(jobs: seq<Job>, tries: Tries, i: nat, a: Attempt): (seq<Job>, Tries)
    requires i < |jobs|
  {
    var m := TriesOf(tries, i) + 1;
    if a.gain > 0 then (jobs[i := After(jobs[i], a.gain)], tries - {i})
    else if !a.windowOpen then (jobs, tries)
    else if m >= STALL_TRIES then (jobs[i := jobs[i].(state := Stalled)], tries - {i})
    else (jobs, tries[i := m])
  }

  function EventOf(i: nat, a: Attempt): Event {
    Event(i, a.gain > 0, a.windowOpen)
  }

  /** What holds of a job between two attempts. */
  ghost predicate JobCoherent(was: Job, j: Job, known: bool, tries: nat, misses: nat) {
    && j.total == was.total && was.done <= j.done <= j.total
    && (!was.state.Open? ==> j == was && !known)
    && (was.state.Open? ==>
          && !j.state.Closed?
          && (j.state.Open? ==> tries == misses < STALL_TRIES)
          && (known ==> j.state.Open? && j.done < j.total)
          && (j.state.Complete? ==> j.done == j.total)
          && (j.state.Stalled? ==> j.done < j.total && misses == STALL_TRIES))
  }

  /** What holds between two attempts: the jobs the run began with, the log so far. */
  ghost predicate Coherent(start: seq<Job>, jobs: seq<Job>, tries: Tries, log: seq<Event>) {
    && |jobs| == |start|
    && forall k | 0 <= k < |jobs| ::
         JobCoherent(start[k], jobs[k], k in tries, TriesOf(tries, k), Misses(log, k))
  }

  lemma MissesNext(log: seq<Event>, e: Event, k: nat)
    ensures Misses(log + [e], k) ==
            if e.job != k || (!e.gained && !e.counted) then Misses(log, k)
            else if e.gained then 0 else Misses(log, k) + 1
    ensures Uncounted(log + [e]) == Uncounted(log) + if !e.gained && !e.counted then 1 else 0
  {
    assert (log + [e])[..|log|] == log;
  }

  /** One attempt keeps the books. */
  lemma AttemptCounts(start: seq<Job>, jobs: seq<Job>, tries: Tries, log: seq<Event>, i: nat, a: Attempt)
    requires Coherent(start, jobs, tries, log)
    requires i < |jobs| && jobs[i].state.Open? && jobs[i].done < jobs[i].total
    ensures var (jobs', tries') := Booked(jobs, tries, i, a);
            Coherent(start, jobs', tries', log + [EventOf(i, a)])
  {
    hide Misses;
    var (jobs', tries') := Booked(jobs, tries, i, a);
    forall k | 0 <= k < |jobs|
      ensures JobCoherent(start[k], jobs'[k], k in tries', TriesOf(tries', k), Misses(log + [EventOf(i, a)], k))
    {
      MissesNext(log, EventOf(i, a), k);
      assert JobCoherent(start[k], jobs[k], k in tries, TriesOf(tries, k), Misses(log, k));
    }
  }

  /** One attempt that gains a row or counts uses up at least one of those left. */
  lemma AttemptCosts(start: seq<Job>, jobs: seq<Job>, tries: Tries, log: seq<Event>, i: nat, a: Attempt)
    requires Coherent(start, jobs, tries, log)
    requires i < |jobs| && jobs[i].state.Open? && jobs[i].done < jobs[i].total
    ensures var (jobs', tries') := Booked(jobs, tries, i, a);
            |jobs'| == |jobs| && Left(jobs', tries', |jobs|) + (if a.gain > 0 || a.windowOpen then 1 else 0)
            <= Left(jobs, tries, |jobs|)
  {
    hide Misses, Left;
    var (jobs', tries') := Booked(jobs, tries, i, a);
    assert JobCoherent(start[i], jobs[i], i in tries, TriesOf(tries, i), Misses(log, i));
    LeftChanges(jobs, tries, jobs', tries', i, |jobs|);
  }

  lemma SweepKeeps(start: seq<Job>, jobs: seq<Job>, tries: Tries, log: seq<Event>, jobs': seq<Job>)
    requires Coherent(start, jobs, tries, log) && |jobs'| == |jobs|
    requires forall k | 0 <= k < |jobs| :: Passed(jobs[k], jobs'[k])
    ensures Coherent(start, jobs', tries, log)
    ensures Left(jobs', tries, |jobs|) <= Left(jobs, tries, |jobs|)
  {
    hide Misses, Left;
    forall k | 0 <= k < |jobs|
      ensures JobCoherent(start[k], jobs'[k], k in tries, TriesOf(tries, k), Misses(log, k))
      ensures jobs[k].done <= jobs[k].total && TriesOf(tries, k) < 3
    {
      assert JobCoherent(start[k], jobs[k], k in tries, TriesOf(tries, k), Misses(log, k));
      assert Passed(jobs[k], jobs'[k]);
    }
    forall j | j in jobs
      ensures j.done <= j.total
    {
      var k :| 0 <= k < |jobs| && jobs[k] == j;
      assert JobCoherent(start[k], jobs[k], k in tries, TriesOf(tries, k), Misses(log, k));
    }
    LeftShrinks(jobs, jobs', tries, |jobs|);
  }

  lemma CoherentBounds(start: seq<Job>, jobs: seq<Job>, tries: Tries, log: seq<Event>)
    requires Coherent(start, jobs, tries, log)
    ensures Sane(jobs) && Left(jobs, tries, |jobs|) >= 0
  {
    hide Misses, Left;
    forall k | 0 <= k < |jobs|
      ensures jobs[k].done <= jobs[k].total && TriesOf(tries, k) < 3
    {
      assert JobCoherent(start[k], jobs[k], k in tries, TriesOf(tries, k), Misses(log, k));
    }
    LeftIsNatural(jobs, tries, |jobs|);
  }

  /** How the run ends for a job. */
  ghost predicate Settled(was: Job, j: Job, misses: nat) {
    && j.total == was.total && was.done <= j.done <= j.total
    && (!was.state.Open? ==> j == was)
    && (was.state.Open? ==>
          && (j.state.Complete? <==> j.done == j.total)
          && (j.state.Stalled? <==> j.done < j.total)
          && (j.state.Stalled? ==> misses == 3)
          && (j.state.Complete? || j.state.Stalled?))
  }

  lemma AllSettled(start: seq<Job>, jobs: seq<Job>, tries: Tries, log: seq<Event>)
    requires Coherent(start, jobs, tries, log)
    requires forall k | 0 <= k < |jobs| :: !jobs[k].state.Open?
    ensures forall k | 0 <= k < |jobs| :: Settled(start[k], jobs[k], Misses(log, k))
  {
    hide Misses;
    forall k | 0 <= k < |jobs|
      ensures Settled(start[k], jobs[k], Misses(log, k))
    {
      assert JobCoherent(start[k], jobs[k], k in tries, TriesOf(tries, k), Misses(log, k));
    }
  }

  // ── What the log records ────────────────────────────────────────────────────

  /** Rows the recorded attempts on a job have brought. */
  function Gained(log: seq<Event>, runs: nat -> Attempt, job: nat): nat {
    if log == [] then 0 else
    var n := |log| - 1;
    Gained(log[..n], runs, job) + if log[n].job == job then runs(n).gain else 0
  }

  /** Every attempt is in the log as it went, on jobs in the order they were created, and
      the rows of each job are those it had and those it gained. */
  ghost predicate Recorded(start: seq<Job>, jobs: seq<Job>, runs: nat -> Attempt, log: seq<Event>) {
    && |jobs| == |start|
    && (forall x | 0 <= x < |log| ::
          log[x].job < |jobs| && log[x].gained == (runs(x).gain > 0) && log[x].counted == runs(x).windowOpen)
    && (forall x, y | 0 <= x < y < |log| :: log[x].job <= log[y].job)
    && forall k | 0 <= k < |jobs| && start[k].state.Open? ::
         jobs[k].done == Least(start[k].total, start[k].done + Gained(log, runs, k))
  }

  /** No job before one that has been tried is open. */
  ghost predicate Behind(jobs: seq<Job>, log: seq<Event>) {
    forall x, k | 0 <= x < |log| && 0 <= k < log[x].job && k < |jobs| :: !jobs[k].state.Open?
  }

  lemma GainedNext(log: seq<Event>, runs: nat -> Attempt, e: Event, k: nat)
    ensures Gained(log + [e], runs, k) == Gained(log, runs, k) + if e.job == k then runs(|log|).gain else 0
  {
    assert (log + [e])[..|log|] == log;
  }

  lemma RecordNext(start: seq<Job>, jobs: seq<Job>, tries: Tries, runs: nat -> Attempt, log: seq<Event>, i: nat)
    requires Recorded(start, jobs, runs, log) && Behind(jobs, log)
    requires i < |jobs| && jobs[i].state.Open? && start[i].total == jobs[i].total
    requires forall k | 0 <= k < i :: !jobs[k].state.Open?
    ensures var (jobs', _) := Booked(jobs, tries, i, runs(|log|));
            var log' := log + [EventOf(i, runs(|log|))];
            Recorded(start, jobs', runs, log') && Behind(jobs', log')
  {
    hide Gained;
    forall k: nat {
      GainedNext(log, runs, EventOf(i, runs(|log|)), k);
    }
  }

  lemma RecordSwept(start: seq<Job>, jobs: seq<Job>, runs: nat -> Attempt, log: seq<Event>, jobs': seq<Job>)
    requires Recorded(start, jobs, runs, log) && Behind(jobs, log) && |jobs'| == |jobs|
    requires forall k | 0 <= k < |jobs| :: Passed(jobs[k], jobs'[k])
    ensures Recorded(start, jobs', runs, log) && Behind(jobs', log)
  {
    hide Gained;
    forall k | 0 <= k < |jobs|
      ensures jobs'[k].done == jobs[k].done && (jobs'[k].state.Open? ==> jobs[k].state.Open?)
    {
      assert Passed(jobs[k], jobs'[k]);
    }
  }

  lemma NothingRecorded(start: seq<Job>, runs: nat -> Attempt)
    requires Sane(start)
    ensures Recorded(start, start, runs, []) && Behind(start, [])
  {
    forall k | 0 <= k < |start|
      ensures start[k].done <= start[k].total
    {
      assert start[k] in start;
    }
  }

  // ── How much it costs ───────────────────────────────────────────────────────

  /** Missing rows of the open jobs among the first n, and how many open jobs there are. */
  function Missing(jobs: seq<Job>, n: nat): int
    requires n <= |jobs|
  {
    if n == 0 then 0 else
    Missing(jobs, n - 1) + if jobs[n - 1].state.Open? then jobs[n - 1].total - jobs[n - 1].done else 0
  }

  function Count(jobs: seq<Job>, n: nat): nat
    requires n <= |jobs|
  {
    if n == 0 then 0 else Count(jobs, n - 1) + if jobs[n - 1].state.Open? then 1 else 0
  }

  lemma {:induction false} LeftIsThrice(jobs: seq<Job>, n: nat)
    requires n <= |jobs|
    ensures Left(jobs, map[], n) == 3 * Missing(jobs, n) + 3 * Count(jobs, n)
  {
    if n > 0 { LeftIsThrice(jobs, n - 1); }
  }

  lemma TotalStays(start: seq<Job>, jobs: seq<Job>, tries: Tries, log: seq<Event>, i: nat)
    requires Coherent(start, jobs, tries, log) && i < |jobs|
    ensures start[i].total == jobs[i].total
  {
    hide Misses;
    assert JobCoherent(start[i], jobs[i], i in tries, TriesOf(tries, i), Misses(log, i));
  }

  lemma RecordSays(start: seq<Job>, jobs: seq<Job>, runs: nat -> Attempt, log: seq<Event>)
    requires Recorded(start, jobs, runs, log) && forall k | 0 <= k < |jobs| :: jobs[k].total == start[k].total
    ensures forall k | 0 <= k < |jobs| && start[k].state.Open? ::
              jobs[k].done == Least(jobs[k].total, start[k].done + Gained(log, runs, k))
    ensures forall x | 0 <= x < |log| ::
              log[x].job < |jobs| && log[x].gained == (runs(x).gain > 0) && log[x].counted == runs(x).windowOpen
    ensures forall x, y | 0 <= x < y < |log| :: log[x].job <= log[y].job
  {
    hide Gained;
  }

  lemma Begins(start: seq<Job>)
    requires Sane(start)
    ensures Coherent(start, start, map[], [])
  {
  }

  /** The drain loop against any outcomes of the single runs; from attempt `patience` on
      the window stays open. It ends with no job open: complete are exactly the jobs fully
      done, the others are stalled, each after three counted attempts in a row without a
      row. The attempts that counted are at most three for every missing row and three for
      every open job; those behind a closed window come on top. */
  method DrainOpenAssignments(q: Queue, runs: nat -> Attempt, patience: nat)
    returns (ghost log: seq<Event>, attempts: nat)
    requires Sane(q.jobs)
    requires forall i | i >= patience :: runs(i).windowOpen
    modifies q
    ensures |q.jobs| == |old(q.jobs)| && forall k | 0 <= k < |q.jobs| :: !q.jobs[k].state.Open?
    ensures forall k | 0 <= k < |q.jobs| :: Settled(old(q.jobs)[k], q.jobs[k], Misses(log, k))
    ensures forall k | 0 <= k < |q.jobs| && old(q.jobs)[k].state.Open? ::
              q.jobs[k].done == Least(q.jobs[k].total, old(q.jobs)[k].done + Gained(log, runs, k))
    ensures forall x | 0 <= x < |log| ::
              log[x].job < |q.jobs| && log[x].gained == (runs(x).gain > 0) && log[x].counted == runs(x).windowOpen
    ensures forall x, y | 0 <= x < y < |log| :: log[x].job <= log[y].job
    ensures attempts == |log| <= 3 * Missing(old(q.jobs), |q.jobs|) + 3 * Count(old(q.jobs), |q.jobs|) + Uncounted(log)
    ensures Uncounted(log) <= patience
  {
    hide Misses, Left, Uncounted, Coherent, Gained, Recorded, Behind, Missing, Count;
    var tries: Tries := map[];
    log, attempts := [], 0;
    ghost var start := q.jobs;
    Begins(start);
    MissesNothing();
    NothingRecorded(start, runs);
    LeftIsThrice(start, |start|);
    CoherentBounds(start, q.jobs, tries, log);
    while true
      invariant Coherent(start, q.jobs, tries, log) && Left(q.jobs, tries, |q.jobs|) >= 0 && |q.jobs| == |start|
      invariant Recorded(start, q.jobs, runs, log) && Behind(q.jobs, log)
      invariant attempts == |log|
      invariant |log| + Left(q.jobs, tries, |q.jobs|) <= Left(start, map[], |start|) + Uncounted(log)
      invariant Uncounted(log) <= patience && Uncounted(log) <= |log|
      decreases Left(q.jobs, tries, |q.jobs|), if attempts < patience then patience - attempts else 0
    {
      CoherentBounds(start, q.jobs, tries, log);
      ghost var before := q.jobs;
      var next := q.Next();
      SweepKeeps(start, before, tries, log, q.jobs);
      RecordSwept(start, before, runs, log, q.jobs);
      CoherentBounds(start, q.jobs, tries, log);
      if next.None? {
        AllSettled(start, q.jobs, tries, log);
        RecordSays(start, q.jobs, runs, log);
        return;
      }
      var i, run := next.value, runs(attempts);
      ghost var jobs, was := q.jobs, tries;
      AttemptCounts(start, jobs, was, log, i, run);
      TotalStays(start, jobs, was, log, i);
      RecordNext(start, jobs, was, runs, log, i);
      AttemptCosts(start, jobs, was, log, i, run);
      MissesNext(log, EventOf(i, run), i);
      var doneBefore := q.jobs[i].done;
      q.Produce(i, run.gain);
      attempts := attempts + 1;
      log := log + [EventOf(i, run)];
      assert run.gain == 0 ==> q.jobs == jobs by {
        assert jobs[i := jobs[i]] == jobs;
      }
      if q.jobs[i].done > doneBefore {
        tries := tries - {i};
      } else if run.windowOpen {
        var m := TriesOf(tries, i) + 1;
        if m >= STALL_TRIES {
          q.SetState(i, Stalled);
          tries := tries - {i};
        } else {
          tries := tries[i := m];
        }
      }
      assert (q.jobs, tries) == Booked(jobs, was, i, run);
      CoherentBounds(start, q.jobs, tries, log);
    }
  }

  lemma MissesNothing()
    ensures Uncounted([]) == 0
  {
  }
}
