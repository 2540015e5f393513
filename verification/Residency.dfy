/** When the agent holds its model: sleeping outside working hours, handing the model back
    when idle, and waking up again, with the pull worker and the host's commands running in
    between (remote_worker/remote_server.py). The unit of interleaving is the stretch of
    code between two awaits. */
module Residency {
  import opened Bytes

  const WAKE_RETRY_MIN := 30
  const WAKE_RETRY_MAX := 600

  /** The flags of the server state. `loaded`: a backend is set; `retryAt` is 0 when no
      wake is owed; `spec`: a model to reload is remembered. */
  datatype Machine = Machine(loaded: bool, asleep: bool, idle: bool, retryAt: nat, failures: nat, spec: bool)

  function Power(n: nat): (p: nat)
    ensures p >= 1
  {
    if n == 0 then 1 else 2 * Power(n - 1)
  }

  /** The pause before the next attempt after n failures in a row. */
  function Delay(n: nat): (d: nat)
    requires n > 0
    ensures WAKE_RETRY_MIN <= d <= WAKE_RETRY_MAX
  {
    var d := WAKE_RETRY_MIN * Power(n - 1);
    if d < WAKE_RETRY_MAX then d else WAKE_RETRY_MAX
  }

  lemma {:induction false} PowerGrows(m: nat, n: nat)
    requires m <= n
    ensures Power(m) <= Power(n)
  {
    if m < n { PowerGrows(m, n - 1); }
  }

  /** More failures never mean a shorter pause. */
  lemma DelayGrows(m: nat, n: nat)
    requires 0 < m <= n
    ensures Delay(m) <= Delay(n)
  {
    PowerGrows(m - 1, n - 1);
  }

  /** The pause is half a minute after the first failure and doubles with every further
      one, up to ten minutes. */
  lemma DelayDoubles(n: nat)
    requires n > 0
    ensures Delay(1) == 30
    ensures Delay(n + 1) == if 2 * Delay(n) < 600 then 2 * Delay(n) else 600
  {
    assert Power(0) == 1 && Power(n) == 2 * Power(n - 1);
  }

  // ── What each stretch of code does to the flags ─────────────────────────────

  function Owing(m: Machine, now: nat): Machine {
    m.(failures := m.failures + 1, retryAt := now + Delay(m.failures + 1))
  }

  function WakeFailed(m: Machine, now: nat): Machine {
    Owing(m.(asleep := false), now)
  }

  function Woken(m: Machine): Machine {
    Machine(true, false, false, 0, 0, m.spec)
  }

  /** The end of an off-hours tick. */
  function AtNight(m: Machine): Machine {
    Machine(false, true, false, 0, 0, m.spec)
  }

  /** The end of an unload for idleness. */
  function HandedBack(m: Machine): Machine {
    m.(loaded := false, idle := true, retryAt := 0, failures := 0)
  }

  datatype Controller = Resting | UnloadingForNight | UnloadingForIdle | Waking

  /** One look of the controller at the clock, up to its first await. */
  function Ticked(m: Machine, open: bool, idleLong: bool, now: nat): (Machine, Controller) {
    if !open then
      if m.loaded then (m, UnloadingForNight) else (AtNight(m), Resting)
    else if m.asleep then WakeBegun(m, now)
    else if m.loaded then (m.(idle := false), if idleLong then UnloadingForIdle else Resting)
    else if m.idle then (m, Resting)
    else if 0 < m.retryAt <= now then WakeBegun(m, now)
    else (m, Resting)
  }

  function WakeBegun(m: Machine, now: nat): (Machine, Controller) {
    if m.spec then (m, Waking) else (WakeFailed(m, now), Resting)
  }

  /** A chunk of work asking for the model, up to its first await; whether a wake began. */
  function Asked(m: Machine, open: bool, now: nat): (Machine, bool) {
    if m.loaded || !open then (m, false)
    else if !m.idle && (m.failures > 0 || !m.spec) then (m, false)
    else if m.spec then (m.(idle := false), true)
    else (WakeFailed(m.(idle := false), now), false)
  }

  class ServerState {
    var loaded: bool
    var asleep: bool
    var idle: bool
    var retryAt: nat
    var failures: nat
    var spec: bool

    function Flags(): Machine
      reads this
    {
      Machine(loaded, asleep, idle, retryAt, failures, spec)
    }

    /** A restart of the agent: what was remembered is owed at once. */
    constructor (remembered: bool, now: nat)
      ensures Flags() == Machine(false, false, false, if remembered then now else 0, 0, remembered)
    {
      loaded, asleep, idle, failures, spec := false, false, false, 0, remembered;
      retryAt := if remembered then now else 0;
    }

    method OweAnotherWake(now: nat)
      modifies this
      ensures Flags() == Owing(old(Flags()), now)
      ensures failures == old(failures) + 1 && retryAt == now + Delay(failures)
    {
      failures := failures + 1;
      var factor, delay := 1, WAKE_RETRY_MIN;
      for i := 1 to failures
        invariant factor == Power(i - 1)
      {
        factor := 2 * factor;
      }
      delay := WAKE_RETRY_MIN * factor;
      if delay > WAKE_RETRY_MAX { delay := WAKE_RETRY_MAX; }
      retryAt := now + delay;
    }

    /** What follows the loading attempt of a wake. */
    method WakeEnds(ok: bool, now: nat)
      modifies this
      ensures Flags() == if ok then Woken(old(Flags())) else WakeFailed(old(Flags()), now)
      ensures ok ==> loaded && !asleep && !idle && retryAt == 0 && failures == 0
      ensures !ok ==> !asleep && failures == old(failures) + 1 && retryAt == now + Delay(failures)
                      && loaded == old(loaded) && idle == old(idle)
      ensures spec == old(spec)
    {
      if ok {
        loaded := true;
        asleep := false;
        idle := false;
        retryAt := 0;
        failures := 0;
      } else {
        asleep := false;
        OweAnotherWake(now);
      }
    }

    /** What follows the unload of an off-hours tick, or its lack. */
    method NightEnds()
      modifies this
      ensures Flags() == AtNight(old(Flags()))
      ensures !loaded && asleep && !idle && retryAt == 0 && failures == 0 && spec == old(spec)
    {
      loaded := false;
      asleep := true;
      idle := false;
      retryAt := 0;
      failures := 0;
    }

    method IdleUnloadEnds()
      modifies this
      ensures Flags() == HandedBack(old(Flags()))
      ensures !loaded && idle && retryAt == 0 && failures == 0 && asleep == old(asleep) && spec == old(spec)
    {
      loaded := false;
      idle := true;
      retryAt := 0;
      failures := 0;
    }

    method Tick(open: bool, idleLong: bool, now: nat) returns (c: Controller)
      modifies this
      ensures (Flags(), c) == Ticked(old(Flags()), open, idleLong, now)
    {
      c := Resting;
      if !open {
        if loaded { return UnloadingForNight; }
        NightEnds();
      } else if asleep {
        c := BeginWake(now);
      } else if loaded {
        idle := false;
        if idleLong { c := UnloadingForIdle; }
      } else if idle {
      } else if 0 < retryAt <= now {
        c := BeginWake(now);
      }
    }

    method BeginWake(now: nat) returns (c: Controller)
      modifies this
      ensures (Flags(), c) == WakeBegun(old(Flags()), now)
    {
      if spec { return Waking; }
      asleep := false;
      OweAnotherWake(now);
      c := Resting;
    }

    method EnsureModelForWork(open: bool, now: nat) returns (waking: bool)
      modifies this
      ensures (Flags(), waking) == Asked(old(Flags()), open, now)
    {
      if loaded || !open { return false; }
      if !idle && (failures > 0 || !spec) { return false; }
      idle := false;
      var c := BeginWake(now);
      waking := c == Waking;
    }
  }

  // ── All tasks together ──────────────────────────────────────────────────────

  /** The flags, what the controller and the pull worker are waiting for, the clock and
      the window. */
  datatype World = World(m: Machine, controller: Controller, asking: bool, now: nat, open: bool)

  datatype Event =
    | Time(later: nat, open: bool)
    | Tick(idleLong: bool)
    | NightUnloaded
    | IdleUnloaded
    | ControllerWakes(ok: bool)
    | WorkArrives
    | WorkerWakes(ok: bool)
    | HostLoads            // the pull worker's and the socket's load command
    | Loaded               // a load that leaves the idle flag alone
    | Remembered
    | HostUnloads

  predicate Enabled(w: World, e: Event) {
    match e
    case Time(later, _) => later >= w.now
    case Tick(_) => w.controller.Resting?
    case NightUnloaded => w.controller.UnloadingForNight?
    case IdleUnloaded => w.controller.UnloadingForIdle?
    case ControllerWakes(_) => w.controller.Waking?
    case WorkArrives => !w.asking
    case WorkerWakes(_) => w.asking
    case _ => true
  }

  function Next(w: World, e: Event): World
    requires Enabled(w, e)
  {
    match e
    case Time(later, open) => w.(now := later, open := open)
    case Tick(idleLong) =>
      var (m, c) := Ticked(w.m, w.open, idleLong, w.now);
      w.(m := m, controller := c)
    case NightUnloaded => w.(m := AtNight(w.m), controller := Resting)
    case IdleUnloaded => w.(m := HandedBack(w.m), controller := Resting)
    case ControllerWakes(ok) =>
      w.(m := if ok then Woken(w.m) else WakeFailed(w.m, w.now), controller := Resting)
    case WorkArrives =>
      var (m, waking) := Asked(w.m, w.open, w.now);
      w.(m := m, asking := waking)
    case WorkerWakes(ok) =>
      w.(m := if ok then Woken(w.m) else WakeFailed(w.m, w.now), asking := false)
    case HostLoads => w.(m := w.m.(loaded := true, idle := false))
    case Loaded => w.(m := w.m.(loaded := true))
    case Remembered => w.(m := w.m.(spec := true))
    case HostUnloads => w.(m := w.m.(loaded := false))
  }

  function Start(remembered: bool, now: nat, open: bool): World {
    World(Machine(false, false, false, if remembered then now else 0, 0, remembered), Resting, false, now, open)
  }

  function After(first: World, events: seq<Event>): Option<World> {
    if events == [] then Some(first) else
    var w, e := After(first, events[..|events| - 1]), events[|events| - 1];
    if w.None? || !Enabled(w.value, e) then None else Some(Next(w.value, e))
  }

  // ── One reason for having no model at a time ────────────────────────────────

  /** At most one of: asleep, handed back for idleness, a wake owed. */
  predicate Exclusive(m: Machine) {
    && !(m.asleep && m.idle) && !(m.asleep && m.retryAt > 0) && !(m.idle && m.retryAt > 0)
  }

  /** Only the controller puts the machine to sleep or hands the model back, so neither
      happens while it waits. */
  predicate Awaited(w: World) {
    && (w.controller.UnloadingForIdle? ==> !w.m.asleep)
    && (w.controller.Waking? ==> !w.m.idle)
  }

  /** The one step that mixes two reasons: a wake of the pull worker fails after an idle
      unload has finished under it. */
  predicate FailsUnderIdle(w: World, e: Event) {
    e == WorkerWakes(false) && w.m.idle
  }

  lemma ExclusiveStep(w: World, e: Event)
    requires Exclusive(w.m) && Awaited(w) && Enabled(w, e)
    ensures Exclusive(Next(w, e).m) <==> !FailsUnderIdle(w, e)
    ensures Awaited(Next(w, e))
  {
  }

  /** Every state of the run keeps the three reasons apart. */
  predicate ExclusiveThroughout(first: World, events: seq<Event>) {
    forall i | 0 <= i <= |events| ::
      After(first, events[..i]).Some? ==> Exclusive(After(first, events[..i]).value.m)
  }

  /** No step of the run is a failing wake of the pull worker under an idle unload. */
  predicate NeverFailsUnderIdle(first: World, events: seq<Event>) {
    forall i | 0 <= i < |events| ::
      After(first, events[..i]).Some? ==> !FailsUnderIdle(After(first, events[..i]).value, events[i])
  }

  /** Exactly the runs in which the three reasons exclude each other in every state. */
  lemma {:induction false} AlwaysExclusive(remembered: bool, now: nat, open: bool, events: seq<Event>)
    requires After(Start(remembered, now, open), events).Some?
    ensures var first := Start(remembered, now, open);
            ExclusiveThroughout(first, events) <==> NeverFailsUnderIdle(first, events)
    ensures ExclusiveThroughout(Start(remembered, now, open), events) ==>
              Awaited(After(Start(remembered, now, open), events).value)
  {
    hide Next, Enabled, Exclusive, Awaited, FailsUnderIdle, After;
    var first := Start(remembered, now, open);
    if events == [] {
      StartIsExclusive(remembered, now, open);
      AfterNothing(first);
      assert events[..0] == [];
    } else {
      var n := |events| - 1;
      AfterUnfolds(first, events);
      AlwaysExclusive(remembered, now, open, events[..n]);
      OneStateMore(first, events);
      OneStepMore(first, events);
      var w := After(first, events[..n]).value;
      if ExclusiveThroughout(first, events[..n]) {
        assert events[..n][..n] == events[..n];
        ExclusiveStep(w, events[n]);
      }
    }
  }

  /** One state more is kept apart. */
  lemma OneStateMore(first: World, events: seq<Event>)
    requires events != [] && After(first, events).Some?
    ensures ExclusiveThroughout(first, events)
            <==> ExclusiveThroughout(first, events[..|events| - 1]) && Exclusive(After(first, events).value.m)
  {
    hide Exclusive, After;
    var n := |events| - 1;
    assert events[..n + 1] == events;
    PrefixesOfPrefix(events, n);
    if ExclusiveThroughout(first, events[..n]) && Exclusive(After(first, events).value.m) {
      forall i | 0 <= i <= |events| && After(first, events[..i]).Some?
        ensures Exclusive(After(first, events[..i]).value.m)
      {
        if i <= n { assert events[..n][..i] == events[..i]; }
      }
    }
  }

  lemma PrefixesOfPrefix(events: seq<Event>, n: nat)
    requires n <= |events|
    ensures forall i | 0 <= i <= n :: events[..n][..i] == events[..i]
  {
  }

  /** One step more is free of the failing wake. */
  lemma OneStepMore(first: World, events: seq<Event>)
    requires events != [] && After(first, events[..|events| - 1]).Some?
    ensures var n := |events| - 1;
            NeverFailsUnderIdle(first, events)
            <==> NeverFailsUnderIdle(first, events[..n])
                 && !FailsUnderIdle(After(first, events[..n]).value, events[n])
  {
    hide FailsUnderIdle, After;
    PrefixesOfPrefix(events, |events| - 1);
  }

  /** Whether an idle unload finishes while the pull worker is loading. */
  predicate UnloadsUnderWake(w: World, e: Event) {
    e == IdleUnloaded && w.asking
  }

  /** The run never finishes an idle unload under a wake of the pull worker. */
  predicate Apart(first: World, events: seq<Event>) {
    forall i | 0 <= i < |events| ::
      After(first, events[..i]).Some? ==> !UnloadsUnderWake(After(first, events[..i]).value, events[i])
  }

  /** It is enough that no idle unload finishes under a wake of the pull worker. */
  lemma {:induction false} ApartIsEnough(remembered: bool, now: nat, open: bool, events: seq<Event>)
    requires After(Start(remembered, now, open), events).Some? && Apart(Start(remembered, now, open), events)
    ensures NeverFailsUnderIdle(Start(remembered, now, open), events)
    ensures var w := After(Start(remembered, now, open), events).value; w.asking ==> !w.m.idle
  {
    hide Next, Enabled, After, FailsUnderIdle;
    var first := Start(remembered, now, open);
    if events == [] {
      AfterNothing(first);
    } else {
      var n := |events| - 1;
      ApartBefore(first, events);
      ApartIsEnough(remembered, now, open, events[..n]);
      AfterUnfolds(first, events);
      OneStepMore(first, events);
      ApartStep(After(first, events[..n]).value, events[n]);
    }
  }

  lemma StartIsExclusive(remembered: bool, now: nat, open: bool)
    ensures Exclusive(Start(remembered, now, open).m) && Awaited(Start(remembered, now, open))
  {
  }

  lemma ApartBefore(first: World, events: seq<Event>)
    requires Apart(first, events) && events != [] && After(first, events).Some?
    ensures Apart(first, events[..|events| - 1])
    ensures After(first, events[..|events| - 1]).Some?
    ensures !UnloadsUnderWake(After(first, events[..|events| - 1]).value, events[|events| - 1])
  {
    hide After;
    AfterUnfolds(first, events);
    var n := |events| - 1;
    forall i | 0 <= i < n && After(first, events[..n][..i]).Some?
      ensures !UnloadsUnderWake(After(first, events[..n][..i]).value, events[..n][i])
    {
      assert events[..n][..i] == events[..i];
    }
  }

  lemma AfterUnfolds(first: World, events: seq<Event>)
    requires events != [] && After(first, events).Some?
    ensures var w, e := After(first, events[..|events| - 1]), events[|events| - 1];
            w.Some? && Enabled(w.value, e) && After(first, events).value == Next(w.value, e)
  {
  }

  lemma ApartStep(w: World, e: Event)
    requires Enabled(w, e) && (w.asking ==> !w.m.idle) && !UnloadsUnderWake(w, e)
    ensures var v := Next(w, e); v.asking ==> !v.m.idle
    ensures !FailsUnderIdle(w, e)
  {
  }

  // ── What a failed wake leaves behind ────────────────────────────────────────

  /** The three things that settle what is owed. */
  predicate Settles(w: World, e: Event) {
    || e == ControllerWakes(true) || e == WorkerWakes(true)
    || e == NightUnloaded || e == IdleUnloaded
    || (e.Tick? && !w.open && !w.m.loaded)
  }

  /** What is owed stays owed until a wake succeeds, an off-hours tick ends, or an idle
      unload ends; a further failure only makes the pause longer, up to its ceiling. */
  lemma OwedStays(w: World, e: Event)
    requires w.m.retryAt > 0 && Enabled(w, e)
    ensures Settles(w, e) ==> Next(w, e).m.retryAt == 0 && Next(w, e).m.failures == 0
    ensures !Settles(w, e) ==>
              var m := Next(w, e).m;
              && m.retryAt > 0 && m.failures >= w.m.failures
              && (m.failures == w.m.failures ==> m.retryAt == w.m.retryAt)
              && (m.failures > w.m.failures ==>
                    && m.retryAt == w.now + Delay(m.failures) && Delay(m.failures) <= WAKE_RETRY_MAX
                    && (w.m.failures > 0 ==> Delay(m.failures) >= Delay(w.m.failures)))
  {
    hide Delay, Owing;
    OwingIsLonger(w.m.(asleep := false), w.now);
    OwingIsLonger(w.m.(asleep := false, idle := false), w.now);
  }

  lemma OwingIsLonger(m: Machine, now: nat)
    ensures var o := Owing(m, now);
            && o == m.(failures := m.failures + 1, retryAt := o.retryAt)
            && o.retryAt == now + Delay(o.failures) > 0
            && (m.failures > 0 ==> Delay(o.failures) >= Delay(m.failures))
  {
    hide Delay;
    if m.failures > 0 { DelayGrows(m.failures, m.failures + 1); }
  }

  /** A wake is owed, and its next attempt is at most the longest pause away. */
  predicate Owes(w: World) {
    0 < w.m.retryAt <= w.now + WAKE_RETRY_MAX
  }

  /** No step of the run settles what is owed. */
  predicate NeverSettles(first: World, events: seq<Event>) {
    forall i | 0 <= i < |events| ::
      After(first, events[..i]).Some? ==> !Settles(After(first, events[..i]).value, events[i])
  }

  /** Over any run: as long as nothing settles it the debt is there, no failure is
      forgotten, the next attempt is never more than the longest pause away, and it is put
      off only by a further failure and never by a shorter pause than before. */
  lemma {:induction false} OwedLasts(w: World, events: seq<Event>)
    requires Owes(w) && After(w, events).Some? && NeverSettles(w, events)
    ensures var v := After(w, events).value;
            && Owes(v) && v.m.failures >= w.m.failures
            && (v.m.failures == w.m.failures ==> v.m.retryAt == w.m.retryAt)
            && (w.m.failures > 0 ==> Delay(v.m.failures) >= Delay(w.m.failures))
  {
    hide Next, Enabled, Settles, Delay, After;
    if events == [] {
      AfterNothing(w);
    } else {
      var n := |events| - 1;
      AfterUnfolds(w, events);
      PrefixesOfPrefix(events, n);
      OwedLasts(w, events[..n]);
      var v := After(w, events[..n]).value;
      OwedStays(v, events[n]);
      ClockRises(v, events[n]);
    }
  }

  lemma ClockRises(w: World, e: Event)
    requires Enabled(w, e)
    ensures Next(w, e).now >= w.now
  {
  }

  // ── Off-hours ───────────────────────────────────────────────────────────────

  /** A closed window, no model and nothing owed: what an off-hours tick leaves behind. */
  predicate Dark(w: World) {
    !w.open && w.controller.Resting? && !w.m.loaded && w.m.retryAt == 0
  }

  /** Every off-hours tick ends without a model and with nothing owed. */
  lemma NightOwesNothing(w: World, e: Event)
    requires Enabled(w, e)
    requires e == NightUnloaded || (e.Tick? && !w.open && !w.m.loaded)
    ensures var m := Next(w, e).m;
            !m.loaded && m.asleep && !m.idle && m.retryAt == 0 && m.failures == 0
    ensures !w.open ==> Dark(Next(w, e))
  {
  }

  /** What alone can end it: the window opens, the host loads a model, or a wake the pull
      worker had begun before comes to its end. */
  predicate Disturbs(e: Event) {
    (e.Time? && e.open) || e.HostLoads? || e.Loaded? || e.WorkerWakes?
  }

  /** In a closed window only those three bring a model, and only the last brings a debt;
      a chunk of work brings neither. */
  lemma DarkStep(w: World, e: Event)
    requires Dark(w) && Enabled(w, e)
    ensures Next(w, e).m.loaded <==> e.HostLoads? || e.Loaded? || e == WorkerWakes(true)
    ensures Next(w, e).m.retryAt > 0 <==> e == WorkerWakes(false)
    ensures Dark(Next(w, e)) <==> !Disturbs(e)
  {
  }

  /** Between two off-hours ticks the machine stays dark through every run without such a
      disturbance. */
  lemma {:induction false} DarkLasts(w: World, events: seq<Event>)
    requires Dark(w) && After(w, events).Some? && forall e | e in events :: !Disturbs(e)
    ensures Dark(After(w, events).value)
  {
    hide Next, Enabled, Dark, Disturbs;
    if events != [] {
      var n := |events| - 1;
      AfterUnfolds(w, events);
      assert forall e | e in events[..n] :: e in events;
      DarkLasts(w, events[..n]);
      DarkStep(After(w, events[..n]).value, events[n]);
    }
  }

  // ── What the controller begins ──────────────────────────────────────────────

  /** The controller wants its model back: the window is open, and the machine is asleep or
      has no model, did not hand it back, and its next attempt is due. */
  predicate WantsModel(w: World) {
    w.open && (w.m.asleep || (!w.m.loaded && !w.m.idle && 0 < w.m.retryAt <= w.now))
  }

  /** Exactly what a look at the clock begins and changes, for every state of the machine. */
  lemma TickExactly(w: World, idleLong: bool)
    requires Enabled(w, Tick(idleLong))
    ensures var v := Next(w, Tick(idleLong));
            && (v.controller.Waking? <==> WantsModel(w) && w.m.spec)
            && (v.controller.UnloadingForNight? <==> !w.open && w.m.loaded)
            && (v.controller.UnloadingForIdle? <==> w.open && !w.m.asleep && w.m.loaded && idleLong)
            && (v.m.failures == w.m.failures + 1 <==> WantsModel(w) && !w.m.spec)
            && (WantsModel(w) && !w.m.spec ==>
                  v.m == w.m.(asleep := false, failures := w.m.failures + 1, retryAt := w.now + Delay(w.m.failures + 1)))
            && (!w.open && !w.m.loaded ==> v.m == Machine(false, true, false, 0, 0, w.m.spec))
            && (w.open && !w.m.asleep && w.m.loaded ==> v.m == w.m.(idle := false))
            && (v.m != w.m ==> (WantsModel(w) && !w.m.spec) || (!w.open && !w.m.loaded) || w.m.loaded)
            && v.asking == w.asking && v.now == w.now && v.open == w.open
  {
    hide Delay;
  }

  /** What every event does to the model, the two flags and what is remembered: only a load
      that ends well brings a model, only an unload takes it, nothing that is remembered is
      forgotten, a load of the host ends a handing back, and a failed one neither brings nor
      takes. An unload or a load ends only when it is under way, and the controller rests
      behind it. */
  lemma EventsExactly(w: World, e: Event)
    requires Enabled(w, e)
    ensures var v := Next(w, e);
            && (v.m.loaded <==> e in {HostLoads, Loaded, ControllerWakes(true), WorkerWakes(true)}
                                || (w.m.loaded && e !in {HostUnloads, NightUnloaded, IdleUnloaded}))
            && (v.m.spec <==> w.m.spec || e == Remembered)
            && (v.m.idle <==> e == IdleUnloaded
                              || (w.m.idle && e !in {HostLoads, ControllerWakes(true), WorkerWakes(true), NightUnloaded}
                                  && !ClearsIdle(w, e)))
            && (e in {HostLoads, Loaded, Remembered, HostUnloads} ==>
                  && v.m == w.m.(loaded := v.m.loaded, spec := v.m.spec, idle := v.m.idle)
                  && v == w.(m := v.m))
            && (e.Time? ==> v == w.(now := e.later, open := e.open))
            && (e == NightUnloaded ==> w.controller == UnloadingForNight && v.controller == Resting)
            && (e == IdleUnloaded ==> w.controller == UnloadingForIdle && v.controller == Resting)
            && (e.ControllerWakes? ==> w.controller == Waking && v.controller == Resting)
            && (e.WorkerWakes? ==> w.asking && !v.asking)
  {
    hide Delay;
  }

  /** A chunk of work that may wake the machine, and a look at the clock that finds a model or
      a closed window, end a handing back. */
  predicate ClearsIdle(w: World, e: Event) {
    || (e.WorkArrives? && w.open && !w.m.loaded)
    || (e.Tick? && (if w.open then !w.m.asleep && w.m.loaded else !w.m.loaded))
  }

  /** A machine that slept through the night, or whose next attempt is due, and that remembers
      its model gets it back: from the first look at the clock in the open window on the
      controller is loading it, whatever else happens, until the load ends, and a load that
      succeeds leaves no flag and no debt. */
  lemma {:induction false} MorningWakes(w: World, later: nat, idleLong: bool, more: seq<Event>)
    requires w.m.asleep || (!w.m.loaded && !w.m.idle && 0 < w.m.retryAt <= later)
    requires w.m.spec && w.controller.Resting? && later >= w.now
    requires After(w, [Time(later, true), Tick(idleLong)] + more).Some?
    requires forall e | e in more :: !e.ControllerWakes?
    ensures var v := After(w, [Time(later, true), Tick(idleLong)] + more).value;
            && v.controller.Waking? && v.m.spec && Enabled(v, ControllerWakes(true))
            && Next(v, ControllerWakes(true)).m == Machine(true, false, false, 0, 0, true)
    decreases |more|
  {
    hide Next, Enabled, After;
    var first := [Time(later, true), Tick(idleLong)];
    var events := first + more;
    var n := |events| - 1;
    AfterUnfolds(w, events);
    if more == [] {
      assert events[..1] == [Time(later, true)] && events[..1][..0] == [];
      AfterUnfolds(w, events[..1]);
      AfterNothing(w);
      WakesNow(w, later, idleLong);
    } else {
      assert events[..n] == first + more[..|more| - 1];
      assert forall e | e in more[..|more| - 1] :: e in more;
      MorningWakes(w, later, idleLong, more[..|more| - 1]);
      StillWaking(After(w, events[..n]).value, events[n]);
    }
    LoadEnds(After(w, events).value);
  }

  lemma WakesNow(w: World, later: nat, idleLong: bool)
    requires w.m.asleep || (!w.m.loaded && !w.m.idle && 0 < w.m.retryAt <= later)
    requires w.m.spec && w.controller.Resting? && later >= w.now
    ensures Enabled(w, Time(later, true)) && Enabled(Next(w, Time(later, true)), Tick(idleLong))
    ensures var v := Next(Next(w, Time(later, true)), Tick(idleLong)); v.controller.Waking? && v.m.spec
  {
  }

  lemma StillWaking(w: World, e: Event)
    requires w.controller.Waking? && Enabled(w, e) && !e.ControllerWakes?
    ensures Next(w, e).controller.Waking? && (w.m.spec ==> Next(w, e).m.spec)
  {
  }

  lemma LoadEnds(w: World)
    requires w.controller.Waking?
    ensures Enabled(w, ControllerWakes(true))
    ensures Next(w, ControllerWakes(true)).m == Machine(true, false, false, 0, 0, w.m.spec)
  {
  }

  /** So does a restarted agent, at its first look at the clock inside the hours; one that
      remembers nothing begins nothing and owes nothing. */
  lemma RestartLoads(remembered: bool, now: nat, open: bool, later: nat, idleLong: bool)
    requires 0 < now <= later
    ensures var v := After(Start(remembered, now, open), [Time(later, true), Tick(idleLong)]);
            && v.Some? && (v.value.controller.Waking? <==> remembered)
            && (remembered ==> Next(v.value, ControllerWakes(true)).m == Machine(true, false, false, 0, 0, true))
            && (!remembered ==> v.value.m == Machine(false, false, false, 0, 0, false))
  {
    var w, events := Start(remembered, now, open), [Time(later, true), Tick(idleLong)];
    assert events[..1][..0] == [] && events[..1][0] == Time(later, true);
    assert After(w, events[..1]) == Some(Next(w, Time(later, true)));
  }

  // ── What a chunk of work may begin ──────────────────────────────────────────

  /** Inside the hours, no model loaded, one remembered, and no failed wake to run ahead
      of unless the model was handed back on purpose. */
  predicate MayWake(w: World) {
    w.open && !w.m.loaded && w.m.spec && (w.m.idle || w.m.failures == 0)
  }

  /** Handed back, and nothing remembered that could be put back. */
  predicate NothingToWake(w: World) {
    w.open && !w.m.loaded && w.m.idle && !w.m.spec
  }

  /** A chunk of work begins to load a model at exactly those moments, which ends the
      handing back; where nothing is remembered it owes one more wake; at all other times,
      outside the hours above all, it changes nothing. */
  lemma WorkRespectsTheClock(w: World)
    requires Enabled(w, WorkArrives)
    ensures var v := Next(w, WorkArrives);
            && (v.asking <==> MayWake(w))
            && (MayWake(w) ==> v == w.(m := w.m.(idle := false), asking := true))
            && (NothingToWake(w) ==>
                  v.m == w.m.(idle := false, asleep := false, failures := w.m.failures + 1,
                              retryAt := w.now + Delay(w.m.failures + 1)))
            && (!MayWake(w) && !NothingToWake(w) ==> v == w)
  {
    hide Delay;
  }

  /** Step i of the run is a chunk of work at such a moment, and no load of the pull worker
      has ended since. */
  predicate BeganAt(first: World, events: seq<Event>, i: nat)
    requires i < |events|
  {
    && events[i] == WorkArrives && After(first, events[..i]).Some? && MayWake(After(first, events[..i]).value)
    && forall j | i < j < |events| :: !events[j].WorkerWakes?
  }

  predicate BegunInHours(first: World, events: seq<Event>) {
    exists i | 0 <= i < |events| :: BeganAt(first, events, i)
  }

  /** Over any run: the pull worker is loading a model if and only if it began to at such a
      moment and has not ended since. */
  lemma {:induction false} WakesBeginInHours(first: World, events: seq<Event>)
    requires !first.asking && After(first, events).Some?
    ensures After(first, events).value.asking <==> BegunInHours(first, events)
  {
    hide Next, Enabled, MayWake, After, BegunInHours;
    if events == [] {
      AfterNothing(first);
      NothingBegun(first);
    } else {
      var n := |events| - 1;
      AfterUnfolds(first, events);
      WakesBeginInHours(first, events[..n]);
      AskingStep(After(first, events[..n]).value, events[n]);
      BegunUnfolds(first, events);
    }
  }

  lemma NothingBegun(first: World)
    ensures !BegunInHours(first, [])
  {
  }

  lemma AskingStep(w: World, e: Event)
    requires Enabled(w, e)
    ensures Next(w, e).asking <==> (e == WorkArrives && MayWake(w)) || (w.asking && !e.WorkerWakes?)
  {
    if e.WorkArrives? { WorkRespectsTheClock(w); }
  }

  lemma BegunUnfolds(first: World, events: seq<Event>)
    requires events != [] && After(first, events[..|events| - 1]).Some?
    ensures var n := |events| - 1;
            BegunInHours(first, events) <==>
            || (events[n] == WorkArrives && MayWake(After(first, events[..n]).value))
            || (BegunInHours(first, events[..n]) && !events[n].WorkerWakes?)
  {
    hide MayWake, After;
    var n := |events| - 1;
    PrefixesOfPrefix(events, n);
    if BegunInHours(first, events) {
      var i :| 0 <= i < |events| && BeganAt(first, events, i);
      if i < n { assert BeganAt(first, events[..n], i); }
    }
    if BegunInHours(first, events[..n]) && !events[n].WorkerWakes? {
      var i :| 0 <= i < n && BeganAt(first, events[..n], i);
      assert BeganAt(first, events, i);
    }
    if events[n] == WorkArrives && MayWake(After(first, events[..n]).value) {
      assert BeganAt(first, events, n);
    }
  }

  // ── A run that mixes two reasons ────────────────────────────────────────────

  /** A loaded, long idle machine: the controller starts to unload; the host's unload
      command comes in between; a chunk asks for the model; the unload ends; the chunk's
      wake fails. */
  function MixedRun(): seq<Event> {
    [HostLoads, Tick(true), HostUnloads, WorkArrives, IdleUnloaded, WorkerWakes(false)]
  }

  const BEGIN: World := Start(true, 5, true)

  lemma MixedRunMixes()
    ensures After(BEGIN, MixedRun()).Some? && !Exclusive(After(BEGIN, MixedRun()).value.m)
    ensures !Apart(BEGIN, MixedRun())
  {
    hide After;
    var r := MixedRun();
    assert r[..0] == [] && r[..6] == r;
    AfterNothing(BEGIN);
    OneMore(r, 0, BEGIN);
    var w1 := Next(BEGIN, r[0]);
    OneMore(r, 1, w1);
    var w2 := Next(w1, r[1]);
    OneMore(r, 2, w2);
    var w3 := Next(w2, r[2]);
    OneMore(r, 3, w3);
    var w4 := Next(w3, r[3]);
    assert UnloadsUnderWake(w4, r[4]);
    OneMore(r, 4, w4);
    var w5 := Next(w4, r[4]);
    OneMore(r, 5, w5);
  }

  lemma AfterNothing(first: World)
    ensures After(first, []) == Some(first)
  {
  }

  lemma OneMore(events: seq<Event>, n: nat, w: World)
    requires n < |events| && After(BEGIN, events[..n]) == Some(w) && Enabled(w, events[n])
    ensures After(BEGIN, events[..n + 1]) == Some(Next(w, events[n]))
  {
    assert events[..n + 1][..n] == events[..n];
  }
}
