/** When a machine may translate (remote_worker/work_schedule.py). Time is counted in
    minutes of the machine's own clock since the midnight that began some Monday; dates
    are counted in days since that Monday. */
module WorkSchedule {
  import opened Bytes

  const DAY := 1440
  const WEEK := 10080

  type Minute = m: nat | m < DAY

  datatype Mode = Always | Paused | Schedule | Busy

  /** A window as it came off the wire: `None` for a time that does not parse. */
  datatype RawWindow = RawWindow(days: seq<int>, start: Option<Minute>, end: Option<Minute>)

  datatype Raw = Raw(mode: Option<Mode>, windows: seq<RawWindow>, free: set<int>)

  datatype Window = Window(days: set<int>, start: Minute, end: Minute)

  datatype Plan = Plan(mode: Mode, windows: seq<Window>, free: set<int>)

  const DEFAULT := Plan(Always, [], {})

  // ── Cleaning up ─────────────────────────────────────────────────────────────

  function Weekdays(days: seq<int>): (r: set<int>)
    ensures forall d | d in r :: 0 <= d <= 6
  {
    set d | d in days && 0 <= d <= 6
  }

  /** What is kept of one window; nothing when it is malformed or empty. */
  function Kept(w: RawWindow): (k: Option<Window>)
    ensures k.Some? ==> Proper(k.value)
  {
    if w.start.None? || w.end.None? || w.start.value == w.end.value then None
    else if Weekdays(w.days) == {} then None
    else
      var days := Weekdays(w.days);
      Some(Window(days, w.start.value, w.end.value))
  }

  /** A window that covers something: some weekdays, a start apart from the end. */
  predicate Proper(w: Window) {
    w.start != w.end && w.days != {} && forall d | d in w.days :: 0 <= d <= 6
  }

  function AllKept(ws: seq<RawWindow>): (r: seq<Window>)
    ensures forall w | w in r :: Proper(w)
  {
    if ws == [] then [] else
    var k := Kept(ws[|ws| - 1]);
    AllKept(ws[..|ws| - 1]) + if k.Some? then [k.value] else []
  }

  function Normalized(raw: Raw): (p: Plan)
    ensures Sound(p)
  {
    if raw.mode.None? then DEFAULT
    else
      var windows := AllKept(raw.windows);
      if (raw.mode.value.Schedule? || raw.mode.value.Busy?) && windows == [] then DEFAULT
      else Plan(raw.mode.value, windows, raw.free)
  }

  /** What every cleaned-up schedule satisfies. */
  predicate Sound(p: Plan) {
    && (forall w | w in p.windows :: Proper(w))
    && (p.mode.Schedule? || p.mode.Busy? ==> p.windows != [])
  }

  method Normalize(raw: Raw) returns (p: Plan)
    ensures p == Normalized(raw)
  {
    hide Kept;
    if raw.mode.None? { return DEFAULT; }
    var windows: seq<Window> := [];
    for i := 0 to |raw.windows|
      invariant windows == AllKept(raw.windows[..i])
    {
      assert raw.windows[..i + 1][..i] == raw.windows[..i];
      var k := Kept(raw.windows[i]);
      if k.Some? { windows := windows + [k.value]; }
    }
    assert raw.windows[..|raw.windows|] == raw.windows;
    if (raw.mode.value.Schedule? || raw.mode.value.Busy?) && windows == [] { return DEFAULT; }
    return Plan(raw.mode.value, windows, raw.free);
  }

  // ── Asking ──────────────────────────────────────────────────────────────────

  /** The two branches of the code: inside one day, or across midnight. */
  predicate Covers(w: Window, t: int) {
    var minute, today := t % DAY, t / DAY % 7;
    if w.start < w.end then today in w.days && w.start <= minute < w.end
    else (today in w.days && minute >= w.start) || ((today - 1) % 7 in w.days && minute < w.end)
  }

  predicate Covered(ws: seq<Window>, t: int) {
    exists w | w in ws :: Covers(w, t)
  }

  /** What the windows alone say. */
  predicate WindowsSay(p: Plan, t: int) {
    if p.mode.Busy? then !Covered(p.windows, t) else Covered(p.windows, t)
  }

  predicate Works(p: Plan, t: int) {
    match p.mode
    case Paused => false
    case Always => true
    case _ => t / DAY in p.free || WindowsSay(p, t)
  }

  // ── One window is its intervals ─────────────────────────────────────────────

  function Duration(w: Window): int {
    if w.start < w.end then w.end - w.start else w.end + DAY - w.start
  }

  /** The window opens at minute a. */
  predicate Opens(w: Window, a: int) {
    a % DAY == w.start && a / DAY % 7 in w.days
  }

  /** Both branches together say: some opening lies at most a duration back. */
  lemma CoversIsInterval(w: Window, t: int)
    requires w.start != w.end
    ensures 0 < Duration(w) < DAY
    ensures Covers(w, t) <==> exists a :: Opens(w, a) && a <= t < a + Duration(w)
  {
    var today, yesterday := t / DAY * DAY + w.start, (t / DAY - 1) * DAY + w.start;
    assert today / DAY == t / DAY && yesterday / DAY == t / DAY - 1;
    assert (t / DAY - 1) % 7 == (t / DAY % 7 - 1) % 7;
    if Covers(w, t) {
      if t >= today { assert Opens(w, today); } else { assert Opens(w, yesterday); }
    }
    if a :| Opens(w, a) && a <= t < a + Duration(w) {
      assert a / DAY == t / DAY || a / DAY == t / DAY - 1;
      assert a == today || a == yesterday;
    }
  }

  /** Only the minute of the week matters. */
  lemma WeeklyWindow(w: Window, t: int, u: int)
    requires t % WEEK == u % WEEK
    ensures Covers(w, t) == Covers(w, u)
  {
    MinuteOfWeek(t);
    MinuteOfWeek(u);
  }

  lemma MinuteOfWeek(t: int)
    ensures t % DAY == t % WEEK % DAY && t / DAY % 7 == t % WEEK / DAY
  {
    var q, r := t / WEEK, t % WEEK;
    assert t == 7 * DAY * q + r;
    assert t / DAY == 7 * q + r / DAY;
  }

  lemma WeeklyPlan(p: Plan, t: int, u: int)
    requires t % WEEK == u % WEEK
    ensures WindowsSay(p, t) == WindowsSay(p, u)
  {
    forall w | w in p.windows
      ensures Covers(w, t) == Covers(w, u)
    {
      WeeklyWindow(w, t, u);
    }
  }

  // ── How much of a week a window takes ───────────────────────────────────────

  /** Covered minutes among the n from t on. */
  function CoveredIn(w: Window, t: int, n: nat): nat {
    if n == 0 then 0 else CoveredIn(w, t, n - 1) + if Covers(w, t + n - 1) then 1 else 0
  }

  lemma {:induction false} CoveredInSplits(w: Window, t: int, m: nat, n: nat)
    ensures CoveredIn(w, t, m + n) == CoveredIn(w, t, m) + CoveredIn(w, t + m, n)
  {
    if n > 0 { CoveredInSplits(w, t, m, n - 1); }
  }

  function Overlap(n: nat, lo: int, hi: int): nat {
    var top := if hi < n then hi else n;
    if top > lo then top - lo else 0
  }

  /** The first n minutes of day d, by the window's two parts. */
  lemma {:induction false} CoveredInDay(w: Window, d: int, n: nat)
    requires n <= DAY && w.start != w.end
    ensures CoveredIn(w, d * DAY, n) ==
            if w.start < w.end then (if d % 7 in w.days then Overlap(n, w.start, w.end) else 0)
            else (if d % 7 in w.days then Overlap(n, w.start, DAY) else 0)
                 + (if (d - 1) % 7 in w.days then Overlap(n, 0, w.end) else 0)
  {
    if n > 0 {
      CoveredInDay(w, d, n - 1);
      var t := d * DAY + n - 1;
      assert t / DAY == d && t % DAY == n - 1;
      assert (d % 7 - 1) % 7 == (d - 1) % 7;
    }
  }

  function Ind(days: set<int>, d: int): nat {
    if d in days then 1 else 0
  }

  function Upto(days: set<int>, n: int): set<int> {
    set d | d in days && d < n
  }

  lemma Below(days: set<int>, n: int)
    ensures |Upto(days, n + 1)| == |Upto(days, n)| + Ind(days, n)
  {
    if n in days {
      assert Upto(days, n + 1) == Upto(days, n) + {n};
    } else {
      assert Upto(days, n + 1) == Upto(days, n);
    }
  }

  /** The part of a window on the day it opens, and the part on the day after. */
  function Evening(w: Window): int {
    if w.start < w.end then w.end - w.start else DAY - w.start
  }

  function Morning(w: Window): int {
    if w.start < w.end then 0 else w.end
  }

  function DayShare(w: Window, d: int): int {
    Ind(w.days, d % 7) * Evening(w) + Ind(w.days, (d - 1) % 7) * Morning(w)
  }

  lemma WholeDay(w: Window, d: int)
    requires w.start != w.end
    ensures CoveredIn(w, d * DAY, DAY) == DayShare(w, d)
  {
    CoveredInDay(w, d, DAY);
  }

  function DayShares(w: Window, n: nat): int {
    if n == 0 then 0 else DayShares(w, n - 1) + DayShare(w, n - 1)
  }

  lemma {:induction false} DaysAddUp(w: Window, n: nat)
    requires w.start != w.end
    ensures CoveredIn(w, 0, n * DAY) == DayShares(w, n)
  {
    hide CoveredIn, DayShare;
    if n > 0 {
      DaysAddUp(w, n - 1);
      CoveredInSplits(w, 0, (n - 1) * DAY, DAY);
      WholeDay(w, n - 1);
    } else {
      NoMinutes(w, 0);
    }
  }

  lemma NoMinutes(w: Window, t: int)
    ensures CoveredIn(w, t, 0) == 0
  {
  }

  lemma Distribute(x: int, y: int, z: int)
    ensures x * y + x * z == x * (y + z)
  {
  }

  lemma AddShares(a: int, i: int, x: int, b: int, j: int, y: int)
    ensures (a * x + b * y) + (i * x + j * y) == (a + i) * x + (b + j) * y
  {
  }

  /** The shares of the first n days: an evening for each listed day, and a morning for
      each day behind one. */
  lemma {:induction false} SharesUpto(w: Window, n: nat)
    requires Proper(w) && 1 <= n <= 7
    ensures DayShares(w, n) == |Upto(w.days, n)| * Evening(w) + (Ind(w.days, 6) + |Upto(w.days, n - 1)|) * Morning(w)
  {
    hide Upto, Ind, Evening, Morning;
    Below(w.days, n - 1);
    if n == 1 {
      NothingBelow(w.days);
      assert DayShares(w, 0) == 0;
    } else {
      var days := w.days;
      SharesUpto(w, n - 1);
      Below(days, n - 2);
      AddShares(|Upto(days, n - 1)|, Ind(days, n - 1), Evening(w),
                Ind(days, 6) + |Upto(days, n - 2)|, Ind(days, n - 2), Morning(w));
    }
  }

  lemma NothingBelow(days: set<int>)
    requires forall d | d in days :: 0 <= d <= 6
    ensures Upto(days, 0) == {} && Upto(days, 7) == days
  {
  }

  lemma SevenShares(w: Window)
    requires Proper(w)
    ensures DayShares(w, 7) == |w.days| * Duration(w)
  {
    hide DayShares, Upto, Ind;
    SharesUpto(w, 7);
    Below(w.days, 6);
    NothingBelow(w.days);
    Distribute(|w.days|, Evening(w), Morning(w));
  }

  /** Every week, wherever it starts, holds |days| times the duration. */
  lemma {:induction false} WeekIsDaysTimesDuration(w: Window, t: int)
    requires Proper(w)
    ensures CoveredIn(w, t, WEEK) == |w.days| * Duration(w)
    decreases if t < 0 then -t else t
  {
    hide CoveredIn, Covers;
    if t == 0 {
      DaysAddUp(w, 7);
      SevenShares(w);
    } else if t > 0 {
      WeekIsDaysTimesDuration(w, t - 1);
      SlideByOne(w, t - 1);
    } else {
      WeekIsDaysTimesDuration(w, t + 1);
      SlideByOne(w, t);
    }
  }

  lemma SlideByOne(w: Window, t: int)
    ensures CoveredIn(w, t + 1, WEEK) == CoveredIn(w, t, WEEK)
  {
    hide Covers, CoveredIn;
    CoveredInSplits(w, t, 1, WEEK);
    CoveredInSplits(w, t, WEEK, 1);
    WeeklyWindow(w, t, t + WEEK);
    OneMinute(w, t);
    OneMinute(w, t + WEEK);
  }

  lemma OneMinute(w: Window, t: int)
    ensures CoveredIn(w, t, 1) == if Covers(w, t) then 1 else 0
  {
    assert CoveredIn(w, t, 0) == 0;
  }

  // ── The next change ─────────────────────────────────────────────────────────

  /** A cleaned-up schedule as the code hands it back to itself. */
  function AsRaw(p: Plan): Raw {
    Raw(Some(p.mode), WindowsAsRaw(p.windows), p.free)
  }

  function WindowsAsRaw(ws: seq<Window>): seq<RawWindow> {
    if ws == [] then [] else
    WindowsAsRaw(ws[..|ws| - 1])
    + [RawWindow(Listed(ws[|ws| - 1].days, 7), Some(ws[|ws| - 1].start), Some(ws[|ws| - 1].end))]
  }

  /** The weekdays below n in ascending order. */
  function Listed(days: set<int>, n: nat): (r: seq<int>)
    ensures forall d :: d in r <==> d in days && 0 <= d < n
  {
    if n == 0 then [] else Listed(days, n - 1) + if n - 1 in days then [n - 1] else []
  }

  lemma {:induction false} WindowsStay(ws: seq<Window>)
    requires forall w | w in ws :: Proper(w)
    ensures AllKept(WindowsAsRaw(ws)) == ws
  {
    if ws != [] {
      var n := |ws| - 1;
      assert Proper(ws[n]);
      WindowsStay(ws[..n]);
      assert WindowsAsRaw(ws)[..n] == WindowsAsRaw(ws[..n]) by { LengthAsRaw(ws[..n]); }
      assert Weekdays(Listed(ws[n].days, 7)) == ws[n].days;
      LengthAsRaw(ws);
    }
  }

  lemma {:induction false} LengthAsRaw(ws: seq<Window>)
    ensures |WindowsAsRaw(ws)| == |ws|
  {
    if ws != [] { LengthAsRaw(ws[..|ws| - 1]); }
  }

  /** Cleaning up twice changes nothing: the code cleans up at every question. */
  lemma NormalizedStays(raw: Raw)
    ensures Normalized(AsRaw(Normalized(raw))) == Normalized(raw)
  {
    hide AllKept, WindowsAsRaw;
    WindowsStay(Normalized(raw).windows);
  }

  /** A window of the wire that covers something: two different times, and some weekday. */
  predicate Usable(w: RawWindow) {
    w.start.Some? && w.end.Some? && w.start.value != w.end.value && exists d | d in w.days :: 0 <= d <= 6
  }

  /** How long a window is open: to its end on the same day, or on the next. */
  function Open(w: RawWindow): int
    requires Usable(w)
  {
    (w.end.value - w.start.value) % DAY
  }

  /** Minute t lies in a stretch the window opens: at its start on one of its weekdays. */
  predicate InWindow(w: RawWindow, t: int)
    requires Usable(w)
  {
    exists a: int :: OpensAt(w, a) && a <= t < a + Open(w)
  }

  predicate OpensAt(w: RawWindow, a: int)
    requires Usable(w)
  {
    a % DAY == w.start.value && a / DAY % 7 in w.days
  }

  /** What the schedule on the wire promises for minute t, in its own terms: a schedule
      without a usable window, or without a mode, is ignored; paused is never, always is
      always; on a free day the machine works; else inside the windows of a schedule, and
      outside those of a busy machine. */
  predicate Promised(raw: Raw, t: int) {
    if raw.mode.None? then true
    else match raw.mode.value
      case Paused => false
      case Always => true
      case Schedule =>
        (forall w | w in raw.windows :: !Usable(w)) || t / DAY in raw.free
        || exists w | w in raw.windows :: Usable(w) && InWindow(w, t)
      case Busy =>
        (forall w | w in raw.windows :: !Usable(w)) || t / DAY in raw.free
        || forall w | w in raw.windows :: Usable(w) ==> !InWindow(w, t)
  }

  lemma {:induction false} KeptAre(ws: seq<RawWindow>)
    ensures forall k :: k in AllKept(ws) <==> exists w | w in ws :: Kept(w) == Some(k)
  {
    hide Kept;
    if ws != [] {
      var n := |ws| - 1;
      KeptAre(ws[..n]);
      assert ws == ws[..n] + [ws[n]];
      forall k | k in AllKept(ws)
        ensures exists w | w in ws :: Kept(w) == Some(k)
      {
        if k in AllKept(ws[..n]) {
          var w :| w in ws[..n] && Kept(w) == Some(k);
          assert w in ws;
        } else {
          assert ws[n] in ws;
        }
      }
    }
  }

  lemma KeptIsUsable(w: RawWindow, t: int)
    ensures Kept(w).Some? <==> Usable(w)
    ensures Usable(w) ==> (Covers(Kept(w).value, t) <==> InWindow(w, t))
  {
    if Usable(w) {
      var d :| d in w.days && 0 <= d <= 6;
      assert d in Weekdays(w.days);
      CoversIsInterval(Kept(w).value, t);
      assert forall a: int :: OpensAt(w, a) <==> Opens(Kept(w).value, a);
      assert Open(w) == Duration(Kept(w).value);
    }
  }

  /** The cleaned-up schedule keeps what the one on the wire promises. */
  lemma PromiseIsKept(raw: Raw, t: int)
    ensures Works(Normalized(raw), t) <==> Promised(raw, t)
  {
    hide Kept, Covers, Usable, InWindow, AllKept;
    KeptAre(raw.windows);
    forall w
      ensures Kept(w).Some? <==> Usable(w)
      ensures Usable(w) ==> (Covers(Kept(w).value, t) <==> InWindow(w, t))
    {
      KeptIsUsable(w, t);
    }
    assert forall w | w in raw.windows && Usable(w) :: Kept(w).value in AllKept(raw.windows);
    if AllKept(raw.windows) != [] {
      assert AllKept(raw.windows)[0] in AllKept(raw.windows);
    }
  }

  method IsWorking(raw: Raw, now: int) returns (r: bool)
    ensures r == Works(Normalized(raw), now)
    ensures r <==> Promised(raw, now)
  {
    PromiseIsKept(raw, now);
    var s := Normalize(raw);
    if s.mode.Paused? { return false; }
    if s.mode.Always? { return true; }
    if now / DAY in s.free { return true; }
    var covered := exists w | w in s.windows :: Covers(w, now);
    return if s.mode.Busy? then !covered else covered;
  }

  /** The first minute among the next n that differs from the state now. */
  function FirstFlip(p: Plan, now: int, n: nat): (r: Option<int>)
    ensures r.Some? ==> now < r.value <= now + n && Works(p, r.value) != Works(p, now)
    ensures r.Some? ==> forall t | now <= t < r.value :: Works(p, t) == Works(p, now)
    ensures r.None? ==> forall t | now <= t <= now + n :: Works(p, t) == Works(p, now)
  {
    if n == 0 then None else
    var r := FirstFlip(p, now, n - 1);
    if r.Some? then r
    else if Works(p, now + n) != Works(p, now) then Some(now + n)
    else None
  }

  function NextFlip(p: Plan, now: int): (r: Option<int>) {
    if p.mode.Always? || p.mode.Paused? then None else FirstFlip(p, now, WEEK)
  }

  method NextChange(raw: Raw, now: int) returns (r: Option<int>)
    ensures r == NextFlip(Normalized(raw), now)
    ensures r.Some? ==>
      && now < r.value <= now + 10080 && Promised(raw, r.value) != Promised(raw, now)
      && forall t | now <= t < r.value :: Promised(raw, t) == Promised(raw, now)
    ensures r.None? ==> forall t | now <= t <= now + 10080 :: Promised(raw, t) == Promised(raw, now)
  {
    hide Works, Normalized, Promised;
    forall t: int
      ensures Works(Normalized(raw), t) <==> Promised(raw, t)
    {
      PromiseIsKept(raw, t);
    }
    FlipsAreRight(Normalized(raw), now);
    var s := Normalize(raw);
    NormalizedStays(raw);
    if s.mode.Always? || s.mode.Paused? { return None; }
    var state := IsWorking(AsRaw(s), now);
    for step := 1 to WEEK + 1
      invariant FirstFlip(s, now, step - 1).None?
    {
      var t := now + step;
      var then_ := IsWorking(AsRaw(s), t);
      if then_ != state {
        FlipStays(s, now, step, WEEK);
        return Some(t);
      }
    }
    return None;
  }

  lemma FlipsAreRight(p: Plan, now: int)
    ensures var r := NextFlip(p, now);
            && (r.Some? ==> now < r.value <= now + 10080 && Works(p, r.value) != Works(p, now)
                            && forall t | now <= t < r.value :: Works(p, t) == Works(p, now))
            && (r.None? ==> forall t | now <= t <= now + 10080 :: Works(p, t) == Works(p, now))
  {
    hide WindowsSay;
  }

  lemma {:induction false} FlipStays(p: Plan, now: int, m: nat, n: nat)
    requires m <= n && FirstFlip(p, now, m).Some?
    ensures FirstFlip(p, now, n) == FirstFlip(p, now, m)
  {
    hide Works;
    if m < n { FlipStays(p, now, m, n - 1); }
  }

  // ── An unbounded question ───────────────────────────────────────────────────

  ghost predicate NeverFlips(p: Plan, now: int) {
    forall t | now <= t :: Works(p, t) == Works(p, now)
  }

  /** The windows say the same in every minute of the week. */
  predicate AllWeek(p: Plan, v: bool) {
    forall m | 0 <= m < WEEK :: WindowsSay(p, m) == v
  }

  lemma AllWeekIsAlways(p: Plan, v: bool)
    requires AllWeek(p, v)
    ensures forall t :: WindowsSay(p, t) == v
  {
    hide WindowsSay;
    forall t: int
      ensures WindowsSay(p, t) == v
    {
      WeeklyPlan(p, t, t % WEEK);
      assert WindowsSay(p, t % WEEK) == v;
    }
  }

  /** Some week begins after every free date and after day d. */
  lemma {:induction false} AfterAll(free: set<int>, d: int) returns (k: int)
    ensures d < 7 * k && forall f | f in free :: f < 7 * k
    decreases free
  {
    if forall f :: f !in free {
      k := if d < 0 then 0 else d + 1;
    } else {
      var f :| f in free;
      k := AfterAll(free - {f}, if f > d then f else d);
      assert forall g | g in free :: g == f || g in free - {f};
    }
  }

  /** Exactly when the answer never changes again. */
  lemma NeverFlipsExactly(p: Plan, now: int)
    requires p.mode.Schedule? || p.mode.Busy?
    ensures NeverFlips(p, now) <==>
            AllWeek(p, true) || (AllWeek(p, false) && forall f | f in p.free :: f < now / DAY)
  {
    hide WindowsSay, AllWeek;
    if AllWeek(p, true) { AllWeekIsAlways(p, true); }
    if AllWeek(p, false) && forall f | f in p.free :: f < now / DAY {
      AllWeekIsAlways(p, false);
      assert forall t | now <= t :: now / DAY <= t / DAY;
    }
    if NeverFlips(p, now) {
      LateMinutesTell(p, now);
      if !Works(p, now) { FreeDaysTell(p, now); }
    }
  }

  lemma LateMinutesTell(p: Plan, now: int)
    requires (p.mode.Schedule? || p.mode.Busy?) && NeverFlips(p, now)
    ensures AllWeek(p, Works(p, now))
  {
    hide WindowsSay, Works;
    var k := AfterAll(p.free, now / DAY);
    forall m | 0 <= m < WEEK
      ensures WindowsSay(p, m) == Works(p, now)
    {
      LateMinute(p, now, k, m);
      assert Works(p, k * WEEK + m) == Works(p, now);
    }
  }

  lemma LateMinute(p: Plan, now: int, k: int, m: int)
    requires (p.mode.Schedule? || p.mode.Busy?) && 0 <= m < WEEK
    requires now / DAY < 7 * k && forall f | f in p.free :: f < 7 * k
    ensures now <= k * WEEK + m && Works(p, k * WEEK + m) == WindowsSay(p, m)
  {
    hide WindowsSay;
    var t := k * WEEK + m;
    assert t / DAY >= 7 * k;
    assert t % WEEK == m % WEEK;
    WeeklyPlan(p, t, m);
  }

  lemma FreeDaysTell(p: Plan, now: int)
    requires (p.mode.Schedule? || p.mode.Busy?) && NeverFlips(p, now) && !Works(p, now)
    ensures forall f | f in p.free :: f < now / DAY
  {
    hide WindowsSay;
    forall f | f in p.free
      ensures f < now / DAY
    {
      var t := if now / DAY <= f then (if f * DAY < now then now else f * DAY) else now;
      assert now <= t && (now / DAY <= f ==> t / DAY == f);
      assert Works(p, t) == Works(p, now);
    }
  }

  /** What the scan of one week is worth: a minute it returns is the first change; when
      it returns nothing, nothing will ever change if and only if the windows say the same
      all week and, should they say no, no free date is left. */
  lemma NextFlipIsRight(p: Plan, now: int)
    ensures NextFlip(p, now).Some? ==>
              var t := NextFlip(p, now).value;
              now < t && Works(p, t) != Works(p, now) && forall u | now <= u < t :: Works(p, u) == Works(p, now)
    ensures NeverFlips(p, now) ==> NextFlip(p, now).None?
    ensures NextFlip(p, now).None? && (p.mode.Schedule? || p.mode.Busy?) ==>
              (NeverFlips(p, now) <==>
               AllWeek(p, true) || (AllWeek(p, false) && forall f | f in p.free :: f < now / DAY))
  {
    hide Works, AllWeek;
    if p.mode.Schedule? || p.mode.Busy? { NeverFlipsExactly(p, now); }
  }

  /** Without free dates the scan is always right. */
  lemma NoFreeDatesNoMistake(p: Plan, now: int)
    requires p.free == {}
    ensures NextFlip(p, now).None? <==> NeverFlips(p, now)
  {
    hide WindowsSay;
    if (p.mode.Schedule? || p.mode.Busy?) && NextFlip(p, now).None? {
      forall m | 0 <= m < WEEK
        ensures WindowsSay(p, m) == Works(p, now)
      {
        var t := now + (m - now) % WEEK;
        assert t % WEEK == m % WEEK;
        WeeklyPlan(p, t, m);
        assert Works(p, t) == Works(p, now);
      }
      assert AllWeek(p, Works(p, now));
      NeverFlipsExactly(p, now);
    }
  }

  /** Eight free days hide the windows from the scan: Mondays nine to ten, asked on the
      first free day. The machine stops on the ninth. */
  lemma FreeDatesHideAChange()
    ensures var p := Plan(Schedule, [Window({0}, 540, 600)], {0, 1, 2, 3, 4, 5, 6, 7});
            Sound(p) && NextFlip(p, 0).None? && Works(p, 0) && !Works(p, 8 * DAY)
  {
    var w := Window({0}, 540, 600);
    var p := Plan(Schedule, [w], {0, 1, 2, 3, 4, 5, 6, 7});
    assert 0 in w.days;
    assert Proper(w);
    forall t | 0 <= t <= WEEK
      ensures Works(p, t)
    {
      assert 0 <= t / DAY <= 7;
    }
    assert 8 * DAY / DAY == 8;
    assert !Covers(w, 8 * DAY);
  }
}
