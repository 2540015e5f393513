/** Scene mode: which scenes are live, how they order the work, and the pass that cuts
    the ordered work into batches (remote_worker/offline_translate.py). */
module Scenes {
  import opened Grouping
  import opened Batching

  const SCENE_LINES := 10

  function SceneOf(b: Item): string {
    b.scene
  }

  /** Whether a line belongs to one of the given scenes. */
  function InScene(live: set<string>): Item -> bool {
    (b: Item) => b.scene in live
  }

  function KeyFn(splitMods: bool): Item -> Key {
    (b: Item) => KeyOf(b, splitMods)
  }

  // ── Live scenes ─────────────────────────────────────────────────────────────

  /** A conversation needs two lines of the work. */
  predicate Live(s: seq<Item>, scene: string) {
    scene != "" && |Filter(s, SceneOf, scene)| >= 2
  }

  function LiveScenes(s: seq<Item>): (live: set<string>)
    ensures forall scene :: scene in live <==> Live(s, scene)
  {
    var live := set b | b in s && Live(s, b.scene) :: b.scene;
    assert forall scene | Live(s, scene) :: Filter(s, SceneOf, scene)[0] in s;
    live
  }

  /** Two lines of the work, wherever they stand, make a scene live. */
  lemma LiveExactly(s: seq<Item>, scene: string)
    ensures scene in LiveScenes(s) <==>
            scene != "" && exists i, j | 0 <= i < j < |s| :: s[i].scene == scene && s[j].scene == scene
  {
    hide Filter, LiveScenes;
    TwoInGroup(s, scene);
  }

  lemma {:induction false} OneInGroup(s: seq<Item>, scene: string)
    ensures |Filter(s, SceneOf, scene)| >= 1 <==> exists i | 0 <= i < |s| :: s[i].scene == scene
  {
    if s != [] {
      var n := |s| - 1;
      OneInGroup(s[..n], scene);
      assert forall i | 0 <= i < n :: s[..n][i] == s[i];
    }
  }

  lemma {:induction false} TwoInGroup(s: seq<Item>, scene: string)
    ensures |Filter(s, SceneOf, scene)| >= 2 <==>
            exists i, j | 0 <= i < j < |s| :: s[i].scene == scene && s[j].scene == scene
  {
    if s != [] {
      var n := |s| - 1;
      TwoInGroup(s[..n], scene);
      OneInGroup(s[..n], scene);
      assert forall i | 0 <= i < n :: s[..n][i] == s[i];
    }
  }

  /** Only how often a line occurs decides how often its group holds it. */
  lemma {:induction false} CountInGroup<T, K>(s: seq<T>, f: T -> K, k: K, x: T)
    ensures multiset(Filter(s, f, k))[x] == if f(x) == k then multiset(s)[x] else 0
  {
    if s != [] {
      var n := |s| - 1;
      assert s == s[..n] + [s[n]];
      CountInGroup(s[..n], f, k, x);
    }
  }

  lemma SameCountsSameBag<T>(u: seq<T>, v: seq<T>)
    requires forall x: T :: multiset(u)[x] == multiset(v)[x]
    ensures multiset(u) == multiset(v) && |u| == |v|
  {
    assert |multiset(u)| == |u| && |multiset(v)| == |v|;
  }

  lemma GroupSizes<T, K>(a: seq<T>, b: seq<T>, f: T -> K, k: K)
    requires multiset(a) == multiset(b)
    ensures multiset(Filter(a, f, k)) == multiset(Filter(b, f, k))
    ensures |Filter(a, f, k)| == |Filter(b, f, k)|
  {
    hide Filter;
    var u, v := Filter(a, f, k), Filter(b, f, k);
    forall x: T
      ensures multiset(u)[x] == multiset(v)[x]
    {
      CountInGroup(a, f, k, x);
      CountInGroup(b, f, k, x);
    }
    SameCountsSameBag(u, v);
  }

  /** Reordering the work makes no scene live or dead. */
  lemma LiveSurvivesReordering(a: seq<Item>, b: seq<Item>)
    requires multiset(a) == multiset(b)
    ensures LiveScenes(a) == LiveScenes(b)
  {
    hide Filter, LiveScenes;
    forall scene
      ensures scene in LiveScenes(a) <==> scene in LiveScenes(b)
    {
      GroupSizes(a, b, SceneOf, scene);
    }
  }

  ghost predicate Counted(counts: map<string, nat>, s: seq<Item>) {
    forall scene :: (scene in counts ==> counts[scene] == |Filter(s, SceneOf, scene)|)
                    && (scene !in counts ==> scene == "" || Filter(s, SceneOf, scene) == [])
  }

  lemma CountedNext(counts: map<string, nat>, s: seq<Item>, b: Item)
    requires Counted(counts, s) && "" !in counts
    ensures b.scene == "" ==> Counted(counts, s + [b])
    ensures b.scene != "" ==>
              Counted(counts[b.scene := (if b.scene in counts then counts[b.scene] else 0) + 1], s + [b])
  {
    hide Filter;
    forall scene
      ensures Filter(s + [b], SceneOf, scene)
              == Filter(s, SceneOf, scene) + if b.scene == scene then [b] else []
    {
      FilterSnoc(s, b, SceneOf, scene);
    }
  }

  method CountLiveScenes(pending: seq<Item>) returns (live: set<string>)
    ensures live == LiveScenes(pending)
  {
    hide Filter, Counted;
    var counts: map<string, nat> := map[];
    CountedNothing();
    for i := 0 to |pending|
      invariant Counted(counts, pending[..i]) && "" !in counts
    {
      var scene := pending[i].scene;
      CountedNext(counts, pending[..i], pending[i]);
      assert pending[..i + 1] == pending[..i] + [pending[i]];
      if scene != "" {
        var before := if scene in counts then counts[scene] else 0;
        counts := counts[scene := before + 1];
      }
    }
    live := set scene | scene in counts && counts[scene] >= 2;
    assert pending[..|pending|] == pending;
    CountsTell(counts, pending, live);
  }

  lemma CountedNothing()
    ensures Counted(map[], [])
  {
  }

  lemma CountsTell(counts: map<string, nat>, s: seq<Item>, live: set<string>)
    requires Counted(counts, s) && "" !in counts
    requires forall scene :: scene in live <==> scene in counts && counts[scene] >= 2
    ensures live == LiveScenes(s)
  {
    hide Filter, LiveScenes;
    assert forall scene :: scene in live <==> Live(s, scene);
  }

  // ── The order inside a scene ────────────────────────────────────────────────

  /** The order of play, ties broken by string id. */
  predicate Before(a: Item, b: Item) {
    a.scenePos < b.scenePos || (a.scenePos == b.scenePos && a.id < b.id)
  }

  function Rank(b: Item): (int, int) {
    (b.scenePos, b.id)
  }

  /** x behind every line it does not precede. */
  function Insert(s: seq<Item>, x: Item): (r: seq<Item>)
    ensures multiset(r) == multiset(s) + multiset{x}
  {
    if s == [] then [x]
    else
      var n := |s| - 1;
      assert s == s[..n] + [s[n]];
      if Before(x, s[n]) then Insert(s[..n], x) + [s[n]] else s + [x]
  }

  function Sorted(s: seq<Item>): (r: seq<Item>)
    ensures multiset(r) == multiset(s)
  {
    if s == [] then [] else
    var n := |s| - 1;
    assert s == s[..n] + [s[n]];
    Insert(Sorted(s[..n]), s[n])
  }

  predicate InOrder(s: seq<Item>) {
    forall i, j | 0 <= i < j < |s| :: !Before(s[j], s[i])
  }

  lemma {:induction false} InsertKeepsOrder(s: seq<Item>, x: Item)
    requires InOrder(s)
    ensures InOrder(Insert(s, x))
  {
    if s != [] {
      var n := |s| - 1;
      if Before(x, s[n]) {
        var r := Insert(s[..n], x);
        InsertKeepsOrder(s[..n], x);
        forall y | y in r
          ensures !Before(s[n], y)
        {
          assert y in multiset(r);
          assert y == x || y in s[..n];
        }
      }
    }
  }

  /** By place in the scene, and by string id where places are the same. */
  lemma {:induction false} SortedIsInOrder(s: seq<Item>)
    ensures InOrder(Sorted(s))
    ensures forall i, j | 0 <= i < j < |Sorted(s)| ::
              var a, b := Sorted(s)[i], Sorted(s)[j];
              a.scenePos < b.scenePos || (a.scenePos == b.scenePos && a.id <= b.id)
  {
    if s != [] {
      SortedIsInOrder(s[..|s| - 1]);
      InsertKeepsOrder(Sorted(s[..|s| - 1]), s[|s| - 1]);
    }
  }

  lemma {:induction false} InsertIsStable(s: seq<Item>, x: Item, k: (int, int))
    ensures Filter(Insert(s, x), Rank, k) == Filter(s + [x], Rank, k)
  {
    hide Filter;
    FilterSnoc(s, x, Rank, k);
    if s == [] {
      assert [x] == s + [x];
    } else {
      var n := |s| - 1;
      assert s == s[..n] + [s[n]];
      if Before(x, s[n]) {
        InsertIsStable(s[..n], x, k);
        FilterSnoc(s[..n], x, Rank, k);
        FilterSnoc(s[..n], s[n], Rank, k);
        FilterSnoc(Insert(s[..n], x), s[n], Rank, k);
      }
    }
  }

  /** Lines of the same place and id stay as they stood: with the order, this leaves
      only one possible result. */
  lemma {:induction false} SortedIsStable(s: seq<Item>, k: (int, int))
    ensures Filter(Sorted(s), Rank, k) == Filter(s, Rank, k)
  {
    hide Filter;
    if s != [] {
      var n := |s| - 1;
      assert s == s[..n] + [s[n]];
      SortedIsStable(s[..n], k);
      InsertIsStable(Sorted(s[..n]), s[n], k);
      FilterSnoc(Sorted(s[..n]), s[n], Rank, k);
      FilterSnoc(s[..n], s[n], Rank, k);
    }
  }

  // ── Scenes first, the rest behind ───────────────────────────────────────────

  /** The given scenes of s, one after another, each in its order of play. */
  function Played(s: seq<Item>, scenes: seq<string>): seq<Item> {
    if scenes == [] then [] else Sorted(Filter(s, SceneOf, scenes[0])) + Played(s, scenes[1..])
  }

  function SceneLines(s: seq<Item>): seq<Item> {
    Filter(s, InScene(LiveScenes(s)), true)
  }

  function OtherLines(s: seq<Item>): seq<Item> {
    Filter(s, InScene(LiveScenes(s)), false)
  }

  function GroupedScenes(s: seq<Item>): seq<Item> {
    Played(SceneLines(s), First(SceneLines(s), SceneOf))
  }

  function InSceneOrder(s: seq<Item>, splitMods: bool): seq<Item> {
    GroupedScenes(s) + Grouped(OtherLines(s), KeyFn(splitMods))
  }

  lemma SameBagSameMembers<T>(a: seq<T>, b: seq<T>)
    requires multiset(a) == multiset(b)
    ensures forall x :: x in a <==> x in b
  {
    assert forall x :: x in a <==> x in multiset(a);
  }

  /** What playing the scenes does to each of them. */
  lemma {:induction false} PlayedScene(s: seq<Item>, scenes: seq<string>, scene: string)
    requires Distinct(scenes)
    ensures Filter(Played(s, scenes), SceneOf, scene)
            == if scene in scenes then Sorted(Filter(s, SceneOf, scene)) else []
    ensures forall x | x in Played(s, scenes) :: x in s && x.scene in scenes
    decreases |scenes|
  {
    hide Sorted;
    if scenes != [] {
      var group := Filter(s, SceneOf, scenes[0]);
      var a, b := Sorted(group), Played(s, scenes[1..]);
      SameBagSameMembers(a, group);
      PlayedScene(s, scenes[1..], scene);
      FilterSplits(a, b, SceneOf, scene);
      if scene == scenes[0] { FilterKeeps(a, SceneOf, scene); } else { FilterDrops(a, SceneOf, scene); }
    } else {
      FilterDrops([], SceneOf, scene);
    }
  }

  lemma {:induction false} PlayedHasRuns(s: seq<Item>, scenes: seq<string>)
    requires Distinct(scenes)
    ensures OneRunEach(Played(s, scenes), SceneOf)
    decreases |scenes|
  {
    hide Sorted, Filter;
    if scenes != [] {
      var group := Filter(s, SceneOf, scenes[0]);
      var a, b := Sorted(group), Played(s, scenes[1..]);
      SameBagSameMembers(a, group);
      PlayedHasRuns(s, scenes[1..]);
      PlayedScene(s, scenes[1..], scenes[0]);
      JoinRuns(a, b, SceneOf, scenes[0]);
    }
  }

  /** Splitting by a yes-or-no question loses nothing. */
  lemma {:induction false} SplitIsPermutation<T>(s: seq<T>, f: T -> bool)
    ensures multiset(Filter(s, f, true)) + multiset(Filter(s, f, false)) == multiset(s)
  {
    hide Filter;
    if s == [] {
      FilterDrops(s, f, true);
      FilterDrops(s, f, false);
    } else {
      var n := |s| - 1;
      assert s == s[..n] + [s[n]];
      SplitIsPermutation(s[..n], f);
      FilterSnoc(s[..n], s[n], f, true);
      FilterSnoc(s[..n], s[n], f, false);
      var a, b := Filter(s[..n], f, true), Filter(s[..n], f, false);
      if f(s[n]) {
        assert Filter(s, f, true) == a + [s[n]] && Filter(s, f, false) == b;
      } else {
        assert Filter(s, f, true) == a && Filter(s, f, false) == b + [s[n]];
      }
    }
  }

  lemma PlayedIsPermutation(s: seq<Item>)
    ensures multiset(Played(s, First(s, SceneOf))) == multiset(s)
  {
    hide Filter, Played, First, Sorted;
    var p := Played(s, First(s, SceneOf));
    forall x: Item
      ensures multiset(p)[x] == multiset(s)[x]
    {
      PlayedScene(s, First(s, SceneOf), x.scene);
      var group := Filter(s, SceneOf, x.scene);
      CountInGroup(p, SceneOf, x.scene, x);
      CountInGroup(s, SceneOf, x.scene, x);
      assert multiset(Sorted(group)) == multiset(group);
      if x.scene !in First(s, SceneOf) { FilterDrops(s, SceneOf, x.scene); }
    }
  }

  /** Nothing is lost and nothing doubled. */
  lemma SceneOrderIsPermutation(s: seq<Item>, splitMods: bool)
    ensures multiset(InSceneOrder(s, splitMods)) == multiset(s)
  {
    hide Filter, Played, First, LiveScenes, Grouped;
    PlayedIsPermutation(SceneLines(s));
    GroupedIsPermutation(OtherLines(s), KeyFn(splitMods));
    SplitIsPermutation(s, InScene(LiveScenes(s)));
  }

  /** Filtering by scene after picking the lines of live scenes. */
  lemma {:induction false} SceneInside(s: seq<Item>, live: set<string>, scene: string, side: bool)
    requires (scene in live) == side
    ensures Filter(Filter(s, InScene(live), side), SceneOf, scene) == Filter(s, SceneOf, scene)
  {
    if s != [] {
      var n := |s| - 1;
      SceneInside(s[..n], live, scene, side);
      var a := Filter(s[..n], InScene(live), side);
      FilterSnoc(a, s[n], SceneOf, scene);
      assert a + [] == a;
    }
  }

  /** The shape of the order: the lines of live scenes come first, each scene in one run
      and sorted by its order of play; no line of a live scene comes later. */
  lemma ScenesComeFirst(s: seq<Item>, splitMods: bool)
    ensures var n := |GroupedScenes(s)|;
            && n <= |InSceneOrder(s, splitMods)|
            && (forall b | b in InSceneOrder(s, splitMods)[..n] :: b.scene in LiveScenes(s))
            && (forall b | b in InSceneOrder(s, splitMods)[n..] :: b.scene !in LiveScenes(s))
            && OneRunEach(InSceneOrder(s, splitMods)[..n], SceneOf)
            && InSceneOrder(s, splitMods)[n..] == Grouped(OtherLines(s), KeyFn(splitMods))
    ensures forall scene | scene in LiveScenes(s) ::
              Filter(GroupedScenes(s), SceneOf, scene) == Sorted(Filter(s, SceneOf, scene))
  {
    hide Filter, Played, First, LiveScenes, Grouped, Sorted, OneRunEach;
    var a, r := SceneLines(s), OtherLines(s);
    var scenes, tail := First(a, SceneOf), Grouped(r, KeyFn(splitMods));
    PlayedHasRuns(a, scenes);
    PlayedScene(a, scenes, "");
    GroupedIsPermutation(r, KeyFn(splitMods));
    SameBagSameMembers(tail, r);
    assert InSceneOrder(s, splitMods)[..|GroupedScenes(s)|] == GroupedScenes(s);
    assert InSceneOrder(s, splitMods)[|GroupedScenes(s)|..] == tail;
    forall scene | scene in LiveScenes(s)
      ensures Filter(GroupedScenes(s), SceneOf, scene) == Sorted(Filter(s, SceneOf, scene))
    {
      PlayedScene(a, scenes, scene);
      SceneInside(s, LiveScenes(s), scene, true);
      if scene !in scenes { FilterDrops(a, SceneOf, scene); SortedOfNothing(); }
    }
  }

  lemma SortedOfNothing()
    ensures Sorted([]) == []
  {
  }

  // ── The code ────────────────────────────────────────────────────────────────

  method GroupScenes(pending: seq<Item>, splitMods: bool) returns (out: seq<Item>)
    ensures out == InSceneOrder(pending, splitMods)
  {
    hide Filter, Holds, First, Sorted, LiveScenes, Grouped, Played;
    var live := CountLiveScenes(pending);
    var scenes: Dict<Item, string> := Dict([], map[]);
    var rest: seq<Item> := [];
    HoldsNothing<Item, string>(SceneOf);
    FilterDrops([], InScene(live), true);
    FilterDrops([], InScene(live), false);
    for i := 0 to |pending|
      invariant Holds(scenes, Filter(pending[..i], InScene(live), true), SceneOf)
      invariant rest == Filter(pending[..i], InScene(live), false)
    {
      var b := pending[i];
      ghost var before, lines := scenes, Filter(pending[..i], InScene(live), true);
      assert pending[..i + 1] == pending[..i] + [b];
      FilterSnoc(pending[..i], b, InScene(live), true);
      FilterSnoc(pending[..i], b, InScene(live), false);
      HoldsKeys(scenes, lines, SceneOf);
      if b.scene in live {
        scenes := SetDefaultAppend(scenes, b.scene, b);
        HoldsNext(before, lines, SceneOf, b, scenes);
      } else {
        assert lines + [] == lines;
        rest := rest + [b];
      }
    }
    assert pending[..|pending|] == pending;
    var ordered := PlayAll(scenes, SceneLines(pending));
    var others := GroupInOrder(rest, KeyFn(splitMods));
    HoldsFirst(scenes, SceneLines(pending), SceneOf);
    out := ordered + others;
  }

  lemma HoldsFirst<T, K>(d: Dict<T, K>, s: seq<T>, f: T -> K)
    requires Holds(d, s, f)
    ensures d.keys == First(s, f)
  {
  }

  /** Each group of the dictionary sorted, one after another. */
  method PlayAll(d: Dict<Item, string>, ghost lines: seq<Item>) returns (out: seq<Item>)
    requires Holds(d, lines, SceneOf)
    ensures out == Played(lines, d.keys)
  {
    hide Filter, First, Sorted;
    out := [];
    assert d.keys[0..] == d.keys;
    for i := 0 to |d.keys|
      invariant out + Played(lines, d.keys[i..]) == Played(lines, d.keys)
    {
      assert d.keys[i..][1..] == d.keys[i + 1..];
      assert d.keys[i] in d.keys;
      out := out + Sorted(d.groups[d.keys[i]]);
    }
  }

  /** The window one scene batch may fill. */
  function Window(cap: int): (n: nat)
    ensures 1 <= n <= SCENE_LINES
  {
    var m := if cap < SCENE_LINES then cap else SCENE_LINES;
    if m < 1 then 1 else m
  }

  /** A batch of one conversation. */
  predicate SceneBatch(b: seq<Item>, live: set<string>, cap: int) {
    && b != [] && |b| <= Window(cap) && ContextOk(b, false)
    && b[0].scene in live && forall x | x in b :: x.scene == b[0].scene
  }

  /** The limits in numbers: one to ten lines and no more than the cap, which counts as one
      at least, of one live scene, with at most six different blocks of known names when it
      is more than one. */
  lemma SceneBatchExactly(b: seq<Item>, live: set<string>, cap: int)
    ensures SceneBatch(b, live, cap) <==>
            && 1 <= |b| <= 10 && (|b| > 1 ==> |b| <= cap)
            && (|b| > 1 ==> |set x | x in b && x.entities != "" :: x.entities| <= 6)
            && forall i | 0 <= i < |b| :: b[i].scene == b[0].scene && b[i].scene in live
  {
  }

  /** An ordinary batch, with no line of a live scene in it. */
  predicate PlainBatch(b: seq<Item>, live: set<string>, cap: int, splitMods: bool) {
    Valid(b, cap, splitMods) && forall x | x in b :: x.scene !in live
  }

  predicate WellCut(b: seq<Item>, live: set<string>, cap: int, splitMods: bool) {
    SceneBatch(b, live, cap) || PlainBatch(b, live, cap, splitMods)
  }

  method NextScene(pending: seq<Item>, i: nat, live: set<string>, cap: int) returns (batch: seq<Item>)
    requires i < |pending| && pending[i].scene in live
    ensures SceneBatch(batch, live, cap) && batch <= pending[i..]
    ensures i + |batch| == |pending| || !SceneBatch(pending[i..][..|batch| + 1], live, cap)
  {
    hide ContextOk;
    var end := i;
    while end < |pending| && end - i < Window(cap) && pending[end].scene == pending[i].scene
      invariant i <= end <= |pending| && end - i <= Window(cap)
      invariant end == i ==> end < |pending|
      invariant forall j | i <= j < end :: pending[j].scene == pending[i].scene
    {
      end := end + 1;
    }
    batch := FitContext(pending[i..end], false);
    assert pending[i..end] <= pending[i..];
    assert forall x | x in batch :: x in pending[i..end];
    if i + |batch| < end {
      assert pending[i..end][..|batch| + 1] == pending[i..][..|batch| + 1];
    } else if i + |batch| < |pending| {
      var longer := pending[i..][..|batch| + 1];
      assert longer[|batch|] == pending[end] && longer[0] == pending[i] && longer[|batch|] in longer;
    }
  }

  lemma {:induction false} JoinedAppends(d: seq<seq<Item>>, b: seq<Item>)
    ensures Joined(d + [b]) == Joined(d) + b
  {
    if d == [] {
      assert [] + [b] == [b];
      assert [b][1..] == [];
    } else {
      assert (d + [b])[1..] == d[1..] + [b];
      JoinedAppends(d[1..], b);
    }
  }

  /** Every batch is well cut and could not have taken the first line of the next. */
  ghost predicate AllFull(out: seq<seq<Item>>, live: set<string>, cap: int, splitMods: bool) {
    && (forall x | 0 <= x < |out| :: out[x] != [] && WellCut(out[x], live, cap, splitMods))
    && (forall x, y | 0 <= x < y < |out| && y == x + 1 :: !WellCut(out[x] + [out[y][0]], live, cap, splitMods))
  }

  /** The last batch could not have taken this line. */
  ghost predicate Closed(out: seq<seq<Item>>, next: Item, live: set<string>, cap: int, splitMods: bool) {
    out != [] ==> !WellCut(out[|out| - 1] + [next], live, cap, splitMods)
  }

  lemma FullNext(out: seq<seq<Item>>, b: seq<Item>, live: set<string>, cap: int, splitMods: bool)
    requires AllFull(out, live, cap, splitMods) && b != [] && WellCut(b, live, cap, splitMods)
    requires Closed(out, b[0], live, cap, splitMods)
    ensures AllFull(out + [b], live, cap, splitMods)
  {
    hide WellCut;
  }

  lemma ClosedNext(out: seq<seq<Item>>, b: seq<Item>, next: Item, live: set<string>, cap: int, splitMods: bool)
    requires !WellCut(b + [next], live, cap, splitMods)
    ensures Closed(out + [b], next, live, cap, splitMods)
  {
  }

  /** One pass over the ordered work. */
  method Pass(pending: seq<Item>, live: set<string>, cap: int, splitMods: bool) returns (out: seq<seq<Item>>)
    ensures Joined(out) == pending
    ensures AllFull(out, live, cap, splitMods)
    ensures live == {} ==> Greedy(out, pending, cap, splitMods)
  {
    hide Longest, Leads, WellCut, Joined, Greedy, SceneBatch, AllFull, Closed, Fits;
    out := [];
    var i := 0;
    LeadsNothing(pending, cap, splitMods);
    JoinedNothing();
    NothingFull(live, cap, splitMods);
    while i < |pending|
      invariant i <= |pending| && Joined(out) == pending[..i]
      invariant AllFull(out, live, cap, splitMods)
      invariant i < |pending| ==> Closed(out, pending[i], live, cap, splitMods)
      invariant live == {} ==> Leads(out, pending, i, cap, splitMods)
    {
      var batch;
      if pending[i].scene in live {
        batch := NextScene(pending, i, live, cap);
        SceneBatchIsCut(batch, live, cap, splitMods);
        if i + |batch| < |pending| { SceneIsLongest(pending, i, batch, live, cap, splitMods); }
      } else {
        batch := NextBatch(pending, i, live, cap, splitMods);
        PlainBatchIsCut(batch, live, cap, splitMods);
        if i + |batch| < |pending| { PlainIsLongest(pending, i, batch, live, cap, splitMods); }
        if live == {} { LeadsNext(out, pending, i, batch, cap, splitMods); }
      }
      JoinedAppends(out, batch);
      assert pending[i..][..|batch|] == batch;
      assert batch[0] == pending[i];
      FullNext(out, batch, live, cap, splitMods);
      if i + |batch| < |pending| { ClosedNext(out, batch, pending[i + |batch|], live, cap, splitMods); }
      assert pending[..i + |batch|] == pending[..i] + batch;
      out := out + [batch];
      i := i + |batch|;
    }
    if live == {} { LeadsAll(out, pending, cap, splitMods); }
    assert pending[..|pending|] == pending;
  }

  lemma SceneIsLongest(pending: seq<Item>, i: nat, b: seq<Item>, live: set<string>, cap: int, splitMods: bool)
    requires i + |b| < |pending| && b <= pending[i..] && SceneBatch(b, live, cap)
    requires !SceneBatch(pending[i..][..|b| + 1], live, cap)
    ensures !WellCut(b + [pending[i + |b|]], live, cap, splitMods)
  {
    hide ContextOk, Valid, Window;
    var longer := b + [pending[i + |b|]];
    assert pending[i..][..|b| + 1] == longer;
    assert longer[0] == b[0] && longer[0] in longer;
  }

  lemma PlainIsLongest(pending: seq<Item>, i: nat, b: seq<Item>, live: set<string>, cap: int, splitMods: bool)
    requires i + |b| < |pending| && b <= pending[i..] && b != [] && forall x | x in b :: x.scene !in live
    requires pending[i + |b|].scene in live || !Fits(pending[i..][..|b| + 1], cap, splitMods)
    ensures !WellCut(b + [pending[i + |b|]], live, cap, splitMods)
  {
    hide ContextOk, Fits, Window;
    var longer := b + [pending[i + |b|]];
    assert pending[i..][..|b| + 1] == longer;
    assert longer[0] == b[0] && b[0] in b && longer[|b|] in longer;
  }

  lemma NothingFull(live: set<string>, cap: int, splitMods: bool)
    ensures AllFull([], live, cap, splitMods)
    ensures forall next :: Closed([], next, live, cap, splitMods)
  {
  }

  lemma JoinedNothing()
    ensures Joined([]) == []
  {
  }

  lemma SceneBatchIsCut(b: seq<Item>, live: set<string>, cap: int, splitMods: bool)
    requires SceneBatch(b, live, cap)
    ensures WellCut(b, live, cap, splitMods) && b != []
  {
  }

  lemma PlainBatchIsCut(b: seq<Item>, live: set<string>, cap: int, splitMods: bool)
    requires Valid(b, cap, splitMods) && forall x | x in b :: x.scene !in live
    ensures WellCut(b, live, cap, splitMods) && b != []
  {
  }

  /** A whole pass: every pending line is in exactly one batch, and every batch is one
      conversation or one key within the limits. */
  method Plan(pending: seq<Item>, sceneMode: bool, cap: int, splitMods: bool) returns (out: seq<seq<Item>>)
    ensures Joined(out) == if sceneMode then InSceneOrder(pending, splitMods) else Grouped(pending, KeyFn(splitMods))
    ensures multiset(Joined(out)) == multiset(pending)
    ensures AllFull(out, if sceneMode then LiveScenes(pending) else {}, cap, splitMods)
    ensures !sceneMode ==> Greedy(out, Grouped(pending, KeyFn(splitMods)), cap, splitMods)
  {
    hide Grouped, InSceneOrder, LiveScenes, Joined, WellCut, Greedy;
    var ordered, live;
    if sceneMode {
      ordered := GroupScenes(pending, splitMods);
      live := CountLiveScenes(ordered);
      SceneOrderIsPermutation(pending, splitMods);
      LiveSurvivesReordering(ordered, pending);
    } else {
      ordered := GroupInOrder(pending, KeyFn(splitMods));
      live := {};
      GroupedIsPermutation(pending, KeyFn(splitMods));
    }
    out := Pass(ordered, live, cap, splitMods);
  }
}
