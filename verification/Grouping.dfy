/** Regrouping a list by key: groups in order of first appearance, each in its old order. */
module Grouping {

  function Filter<T, K(==)>(s: seq<T>, f: T -> K, k: K): (r: seq<T>)
    ensures forall x | x in r :: x in s && f(x) == k
  {
    if s == [] then [] else
    var n := |s| - 1;
    Filter(s[..n], f, k) + if f(s[n]) == k then [s[n]] else []
  }

  /** The keys in order of first appearance. */
  function First<T, K(==)>(s: seq<T>, f: T -> K): (ks: seq<K>)
    ensures forall x | x in s :: f(x) in ks
    ensures forall k | k in ks :: exists x | x in s :: f(x) == k
    ensures Distinct(ks)
  {
    if s == [] then [] else
    var n := |s| - 1;
    var ks := First(s[..n], f);
    assert s == s[..n] + [s[n]];
    if f(s[n]) in ks then ks else ks + [f(s[n])]
  }

  predicate Distinct<K(==)>(ks: seq<K>) {
    forall i, j | 0 <= i < j < |ks| :: ks[i] != ks[j]
  }

  /** The groups of the given keys, one after another. */
  function Collect<T, K(==)>(s: seq<T>, f: T -> K, ks: seq<K>): seq<T> {
    if ks == [] then [] else Filter(s, f, ks[0]) + Collect(s, f, ks[1..])
  }

  function Grouped<T, K(==)>(s: seq<T>, f: T -> K): seq<T> {
    Collect(s, f, First(s, f))
  }

  lemma FilterSnoc<T, K>(s: seq<T>, x: T, f: T -> K, k: K)
    ensures Filter(s + [x], f, k) == Filter(s, f, k) + if f(x) == k then [x] else []
  {
    assert (s + [x])[..|s|] == s;
  }

  lemma {:induction false} FilterSplits<T, K>(a: seq<T>, b: seq<T>, f: T -> K, k: K)
    ensures Filter(a + b, f, k) == Filter(a, f, k) + Filter(b, f, k)
    decreases |b|
  {
    hide Filter;
    if b == [] {
      assert a + b == a;
      FilterKeeps(b, f, k);
    } else {
      var b', x := b[..|b| - 1], b[|b| - 1];
      assert b == b' + [x] && a + b == (a + b') + [x];
      FilterSplits(a, b', f, k);
      FilterSnoc(a + b', x, f, k);
      FilterSnoc(b', x, f, k);
    }
  }

  lemma {:induction false} FilterKeeps<T, K>(s: seq<T>, f: T -> K, k: K)
    requires forall x | x in s :: f(x) == k
    ensures Filter(s, f, k) == s
  {
    if s != [] {
      var n := |s| - 1;
      assert s == s[..n] + [s[n]];
      FilterKeeps(s[..n], f, k);
    }
  }

  lemma {:induction false} FilterDrops<T, K>(s: seq<T>, f: T -> K, k: K)
    requires forall x | x in s :: f(x) != k
    ensures Filter(s, f, k) == []
  {
    if s != [] {
      assert forall x | x in s[..|s| - 1] :: x in s;
      FilterDrops(s[..|s| - 1], f, k);
    }
  }

  lemma {:induction false} FilterOfCollect<T, K>(s: seq<T>, f: T -> K, ks: seq<K>, k: K)
    requires Distinct(ks)
    ensures Filter(Collect(s, f, ks), f, k) == if k in ks then Filter(s, f, k) else []
    ensures forall x | x in Collect(s, f, ks) :: x in s && f(x) in ks
    decreases |ks|
  {
    if ks != [] {
      var a, b := Filter(s, f, ks[0]), Collect(s, f, ks[1..]);
      FilterOfCollect(s, f, ks[1..], k);
      FilterSplits(a, b, f, k);
      if k == ks[0] { FilterKeeps(a, f, k); } else { FilterDrops(a, f, k); }
    }
  }

  /** Inside a group nothing changes places. */
  lemma GroupedIsStable<T, K>(s: seq<T>, f: T -> K, k: K)
    ensures Filter(Grouped(s, f), f, k) == Filter(s, f, k)
  {
    FilterOfCollect(s, f, First(s, f), k);
    if k !in First(s, f) { FilterDrops(s, f, k); }
  }

  lemma {:induction false} CountInFilter<T, K>(s: seq<T>, f: T -> K, x: T)
    ensures multiset(Filter(s, f, f(x)))[x] == multiset(s)[x]
  {
    if s != [] {
      var n := |s| - 1;
      assert s == s[..n] + [s[n]];
      CountInFilter(s[..n], f, x);
    }
  }

  /** Same members, same groups: the same multiset. */
  lemma SameGroupsSameBag<T, K>(a: seq<T>, b: seq<T>, f: T -> K)
    requires forall k :: Filter(a, f, k) == Filter(b, f, k)
    ensures multiset(a) == multiset(b)
  {
    forall x: T
      ensures multiset(a)[x] == multiset(b)[x]
    {
      CountInFilter(a, f, x);
      CountInFilter(b, f, x);
      assert Filter(a, f, f(x)) == Filter(b, f, f(x));
    }
  }

  lemma GroupedIsPermutation<T, K>(s: seq<T>, f: T -> K)
    ensures multiset(Grouped(s, f)) == multiset(s)
  {
    forall k
      ensures Filter(Grouped(s, f), f, k) == Filter(s, f, k)
    {
      GroupedIsStable(s, f, k);
    }
    SameGroupsSameBag(Grouped(s, f), s, f);
  }

  /** Every key stands in one run. */
  predicate OneRunEach<T, K(==)>(s: seq<T>, f: T -> K) {
    forall i, j, l | 0 <= i < j < l < |s| && f(s[i]) == f(s[l]) :: f(s[j]) == f(s[i])
  }

  lemma {:induction false} CollectHasRuns<T, K>(s: seq<T>, f: T -> K, ks: seq<K>)
    requires Distinct(ks)
    ensures OneRunEach(Collect(s, f, ks), f)
    decreases |ks|
  {
    if ks != [] {
      var a, b := Filter(s, f, ks[0]), Collect(s, f, ks[1..]);
      CollectHasRuns(s, f, ks[1..]);
      FilterOfCollect(s, f, ks[1..], ks[0]);
      JoinRuns(a, b, f, ks[0]);
    }
  }

  lemma JoinRuns<T, K>(a: seq<T>, b: seq<T>, f: T -> K, k: K)
    requires forall x | x in a :: f(x) == k
    requires forall x | x in b :: f(x) != k
    requires OneRunEach(b, f)
    ensures OneRunEach(a + b, f)
  {
    var c := a + b;
    forall i, j, l | 0 <= i < j < l < |c| && f(c[i]) == f(c[l])
      ensures f(c[j]) == f(c[i])
    {
      assert i < |a| ==> c[i] in a;
      assert j < |a| ==> c[j] in a;
      assert l >= |a| ==> c[l] in b;
    }
  }

  lemma GroupedHasRuns<T, K>(s: seq<T>, f: T -> K)
    ensures OneRunEach(Grouped(s, f), f)
  {
    CollectHasRuns(s, f, First(s, f));
  }

  // ── The dictionary of groups ────────────────────────────────────────────────

  /** An insertion-ordered dictionary: its keys in order and the group under each. */
  datatype Dict<T, K(==)> = Dict(keys: seq<K>, groups: map<K, seq<T>>)

  ghost predicate Holds<T, K>(d: Dict<T, K>, s: seq<T>, f: T -> K) {
    && d.keys == First(s, f)
    && d.groups.Keys == (set k | k in d.keys)
    && (forall k | k in d.keys :: d.groups[k] == Filter(s, f, k))
  }

  method SetDefaultAppend<T, K(==)>(d: Dict<T, K>, k: K, x: T) returns (r: Dict<T, K>)
    requires k in d.keys <==> k in d.groups
    ensures r.keys == if k in d.keys then d.keys else d.keys + [k]
    ensures r.groups == d.groups[k := (if k in d.keys then d.groups[k] else []) + [x]]
  {
    if k in d.groups {
      return d.(groups := d.groups[k := d.groups[k] + [x]]);
    }
    assert [] + [x] == [x];
    return Dict(d.keys + [k], d.groups[k := [x]]);
  }

  lemma HoldsNext<T, K>(d: Dict<T, K>, s: seq<T>, f: T -> K, x: T, r: Dict<T, K>)
    requires Holds(d, s, f)
    requires r.keys == if f(x) in d.keys then d.keys else d.keys + [f(x)]
    requires r.groups == d.groups[f(x) := (if f(x) in d.keys then d.groups[f(x)] else []) + [x]]
    ensures Holds(r, s + [x], f)
  {
    hide Filter, First, Distinct;
    FirstSnoc(s, x, f);
    forall k | k in r.keys
      ensures k in r.groups && r.groups[k] == Filter(s + [x], f, k)
    {
      FilterSnoc(s, x, f, k);
      if k !in d.keys { FilterDrops(s, f, k); }
    }
    assert r.groups.Keys == (set k | k in r.keys);
  }

  lemma FirstSnoc<T, K>(s: seq<T>, x: T, f: T -> K)
    ensures First(s + [x], f) == if f(x) in First(s, f) then First(s, f) else First(s, f) + [f(x)]
  {
    assert (s + [x])[..|s|] == s;
  }

  method CollectGroups<T, K(==)>(s: seq<T>, f: T -> K) returns (d: Dict<T, K>)
    ensures Holds(d, s, f)
  {
    hide Holds, First;
    d := Dict([], map[]);
    HoldsNothing(f);
    for i := 0 to |s|
      invariant Holds(d, s[..i], f)
    {
      ghost var before := d;
      HoldsKeys(d, s[..i], f);
      d := SetDefaultAppend(d, f(s[i]), s[i]);
      HoldsNext(before, s[..i], f, s[i], d);
      assert s[..i + 1] == s[..i] + [s[i]];
    }
    assert s[..|s|] == s;
  }

  lemma HoldsNothing<T, K>(f: T -> K)
    ensures Holds(Dict([], map[]), [], f)
  {
  }

  lemma HoldsKeys<T, K>(d: Dict<T, K>, s: seq<T>, f: T -> K)
    requires Holds(d, s, f)
    ensures forall k | k in d.keys :: k in d.groups
    ensures forall k | k in d.groups :: k in d.keys
  {
  }

  method GroupInOrder<T, K(==)>(s: seq<T>, f: T -> K) returns (out: seq<T>)
    ensures out == Grouped(s, f)
  {
    hide Filter, First;
    var d := CollectGroups(s, f);
    out := [];
    assert d.keys[0..] == d.keys;
    for i := 0 to |d.keys|
      invariant out + Collect(s, f, d.keys[i..]) == Collect(s, f, d.keys)
    {
      assert d.keys[i..][1..] == d.keys[i + 1..];
      assert d.keys[i] in d.keys;
      out := out + d.groups[d.keys[i]];
    }
  }
}
