/** Regular expressions with backtracking, as far as the patterns in use need them: atoms one
    after another, and for each atom every place it can end at in the order Python tries. */
module Regex {
  import opened Bytes

  /** One character, an optional one, a greedy run, a run of one or more, one of some names
      compared letter by letter, a word boundary, and the start of a line. */
  datatype Atom =
    | One(ok: char -> bool)
    | Maybe(ok: char -> bool)
    | Star(ok: char -> bool)
    | Plus(ok: char -> bool)
    | AnyOf(names: seq<string>, fold: char -> char)
    | Edge(word: char -> bool)
    | LineStart

  predicate Within(places: seq<nat>, lo: nat, hi: nat) {
    forall x | 0 <= x < |places| :: lo <= places[x] <= hi
  }

  /** Where the run of characters from i on ends. */
  function Reach(ok: char -> bool, s: string, i: nat): (e: nat)
    requires i <= |s|
    ensures i <= e <= |s| && (forall k | i <= k < e :: ok(s[k])) && (e < |s| ==> !ok(s[e]))
    decreases |s| - i
  {
    if i < |s| && ok(s[i]) then Reach(ok, s, i + 1) else i
  }

  /** From the farthest place down to the nearest. */
  function Down(lo: nat, hi: nat): (ends: seq<nat>)
    requires lo <= hi
    ensures |ends| == hi - lo + 1 && forall x | 0 <= x < |ends| :: ends[x] == hi - x
  {
    seq(hi - lo + 1, x requires 0 <= x <= hi - lo => hi - x)
  }

  predicate Reads(fold: char -> char, s: string, i: nat, name: string)
    requires i <= |s|
  {
    i + |name| <= |s| && forall j | 0 <= j < |name| :: fold(s[i + j]) == name[j]
  }

  function NameEnds(fold: char -> char, s: string, i: nat, names: seq<string>, n: nat): (ends: seq<nat>)
    requires i <= |s| && n <= |names|
    ensures Within(ends, i, |s|)
  {
    if n == 0 then [] else
    NameEnds(fold, s, i, names, n - 1) + if Reads(fold, s, i, names[n - 1]) then [i + |names[n - 1]|] else []
  }

  predicate IsWord(word: char -> bool, s: string, i: int) {
    0 <= i < |s| && word(s[i])
  }

  predicate StartsLine(s: string, i: nat)
    requires i <= |s|
  {
    i == 0 || s[i - 1] == '\n'
  }

  /** Every place an atom can end at from i on, in order. */
  function Ends(a: Atom, s: string, i: nat): (ends: seq<nat>)
    requires i <= |s|
    ensures Within(ends, i, |s|)
  {
    match a
    case One(ok) => if i < |s| && ok(s[i]) then [i + 1] else []
    case Maybe(ok) => (if i < |s| && ok(s[i]) then [i + 1] else []) + [i]
    case Star(ok) => Down(i, Reach(ok, s, i))
    case Plus(ok) => if Reach(ok, s, i) > i then Down(i + 1, Reach(ok, s, i)) else []
    case AnyOf(names, fold) => NameEnds(fold, s, i, names, |names|)
    case Edge(word) => if IsWord(word, s, i - 1) != IsWord(word, s, i) then [i] else []
    case LineStart => if StartsLine(s, i) then [i] else []
  }

  /** All ways to match the atoms from number k on, each as the places its atoms end at, in
      the order a backtracking matcher finds them. */
  function Paths(atoms: seq<Atom>, k: nat, s: string, i: nat): (ps: seq<seq<nat>>)
    requires k <= |atoms| && i <= |s|
    ensures forall x | 0 <= x < |ps| :: |ps[x]| == |atoms| - k && Within(ps[x], i, |s|)
    decreases |atoms| - k, |s| + 2
  {
    if k == |atoms| then [[]] else Behind(atoms, k, s, i, Ends(atoms[k], s, i))
  }

  function Behind(atoms: seq<Atom>, k: nat, s: string, i: nat, ends: seq<nat>): (ps: seq<seq<nat>>)
    requires k < |atoms| && i <= |s| && Within(ends, i, |s|)
    ensures forall x | 0 <= x < |ps| :: |ps[x]| == |atoms| - k && Within(ps[x], i, |s|)
    decreases |atoms| - k, 0, |ends|
  {
    if ends == [] then [] else
    Led(ends[0], Paths(atoms, k + 1, s, ends[0])) + Behind(atoms, k, s, i, ends[1..])
  }

  function Led(e: nat, ps: seq<seq<nat>>): (r: seq<seq<nat>>)
    ensures |r| == |ps| && forall x | 0 <= x < |ps| :: r[x] == [e] + ps[x]
  {
    seq(|ps|, x requires 0 <= x < |ps| => [e] + ps[x])
  }

  /** A pattern: alternatives, tried in order. */
  type Pattern = seq<seq<Atom>>

  /** The match at i, if any: where it starts and where its atoms end. */
  function Try(re: Pattern, r: nat, s: string, i: nat): (m: Option<seq<nat>>)
    requires r <= |re| && i <= |s|
    ensures m.Some? ==> |m.value| > 0 && m.value[0] == i && Within(m.value, i, |s|)
    decreases |re| - r
  {
    if r == |re| then None
    else
      var ps := Paths(re[r], 0, s, i);
      if ps == [] then Try(re, r + 1, s, i) else Some([i] + ps[0])
  }

  function Last(m: seq<nat>): nat
    requires |m| > 0
  {
    m[|m| - 1]
  }

  /** All matches from i on, left to right and without overlap. */
  function All(re: Pattern, s: string, i: nat): (ms: seq<seq<nat>>)
    requires i <= |s|
    ensures forall x | 0 <= x < |ms| :: |ms[x]| > 0 && Within(ms[x], i, |s|)
    decreases |s| - i
  {
    if i == |s| then []
    else
      var m := Try(re, 0, s, i);
      if m.Some? && Last(m.value) > i then [m.value] + All(re, s, Last(m.value)) else All(re, s, i + 1)
  }

  lemma AllUnfolds(re: Pattern, s: string, i: nat)
    requires i <= |s|
    ensures All(re, s, i) ==
            if i == |s| then []
            else
              var m := Try(re, 0, s, i);
              if m.Some? && Last(m.value) > i then [m.value] + All(re, s, Last(m.value)) else All(re, s, i + 1)
  {
  }

  // ── What one atom leaves to the next ────────────────────────────────────────

  /** When the first end leads to a match, it is the one. */
  lemma FirstLeads(atoms: seq<Atom>, k: nat, s: string, i: nat)
    requires k < |atoms| && i <= |s| && Ends(atoms[k], s, i) != []
    requires Paths(atoms, k + 1, s, Ends(atoms[k], s, i)[0]) != []
    ensures var e := Ends(atoms[k], s, i)[0];
            Paths(atoms, k, s, i) != [] && Paths(atoms, k, s, i)[0] == [e] + Paths(atoms, k + 1, s, e)[0]
  {
    hide Ends, Paths;
    PathsUnfold(atoms, k, s, i);
  }

  lemma PathsUnfold(atoms: seq<Atom>, k: nat, s: string, i: nat)
    requires k < |atoms| && i <= |s|
    ensures Paths(atoms, k, s, i) == Behind(atoms, k, s, i, Ends(atoms[k], s, i))
  {
  }

  /** A run taken whole, or a character taken, when that leads to a match. */
  lemma Taken(atoms: seq<Atom>, k: nat, s: string, i: nat, e: nat)
    requires k < |atoms| && i <= |s| && e <= |s|
    requires match atoms[k]
             case One(ok) => i < |s| && ok(s[i]) && e == i + 1
             case Maybe(ok) => e == if i < |s| && ok(s[i]) then i + 1 else i
             case Star(ok) => e == Reach(ok, s, i)
             case Plus(ok) => e == Reach(ok, s, i) > i
             case _ => false
    requires Paths(atoms, k + 1, s, e) != []
    ensures Paths(atoms, k, s, i) != [] && Paths(atoms, k, s, i)[0] == [e] + Paths(atoms, k + 1, s, e)[0]
  {
    hide Paths, Reach;
    FirstLeads(atoms, k, s, i);
  }

  /** When no end leads to a match, there is none. */
  lemma {:induction false} NoneLeads(atoms: seq<Atom>, k: nat, s: string, i: nat, ends: seq<nat>)
    requires k < |atoms| && i <= |s| && Within(ends, i, |s|)
    requires forall x | 0 <= x < |ends| :: Paths(atoms, k + 1, s, ends[x]) == []
    ensures Behind(atoms, k, s, i, ends) == []
  {
    hide Paths;
    if ends != [] { NoneLeads(atoms, k, s, i, ends[1..]); }
  }

  lemma NoMatch(atoms: seq<Atom>, k: nat, s: string, i: nat)
    requires k < |atoms| && i <= |s|
    requires forall x | 0 <= x < |Ends(atoms[k], s, i)| :: Paths(atoms, k + 1, s, Ends(atoms[k], s, i)[x]) == []
    ensures Paths(atoms, k, s, i) == []
  {
    hide Ends, Paths, Behind;
    PathsUnfold(atoms, k, s, i);
    NoneLeads(atoms, k, s, i, Ends(atoms[k], s, i));
  }

  /** When some end leads to a match, the first that does is the one. */
  lemma {:induction false} SomeLeads(atoms: seq<Atom>, k: nat, s: string, i: nat, ends: seq<nat>) returns (x: nat)
    requires k < |atoms| && i <= |s| && Within(ends, i, |s|)
    requires exists y | 0 <= y < |ends| :: Paths(atoms, k + 1, s, ends[y]) != []
    ensures x < |ends| && Paths(atoms, k + 1, s, ends[x]) != []
    ensures Behind(atoms, k, s, i, ends) != []
    ensures Behind(atoms, k, s, i, ends)[0] == [ends[x]] + Paths(atoms, k + 1, s, ends[x])[0]
  {
    hide Paths;
    if Paths(atoms, k + 1, s, ends[0]) != [] {
      x := 0;
    } else {
      var y :| 0 <= y < |ends| && Paths(atoms, k + 1, s, ends[y]) != [];
      assert ends[1..][y - 1] == ends[y];
      var z := SomeLeads(atoms, k, s, i, ends[1..]);
      x := z + 1;
    }
  }

  /** An atom with no end. */
  lemma Stuck(atoms: seq<Atom>, k: nat, s: string, i: nat)
    requires k < |atoms| && i <= |s| && Ends(atoms[k], s, i) == []
    ensures Paths(atoms, k, s, i) == []
  {
    hide Ends, Paths;
    PathsUnfold(atoms, k, s, i);
  }

  lemma NothingMore(atoms: seq<Atom>, s: string, i: nat)
    requires i <= |s|
    ensures Paths(atoms, |atoms|, s, i) == [[]]
  {
  }

  lemma {:induction false} ReachIs(ok: char -> bool, s: string, i: nat, e: nat)
    requires i <= e <= |s| && (forall k | i <= k < e :: ok(s[k])) && (e < |s| ==> !ok(s[e]))
    ensures Reach(ok, s, i) == e
    decreases e - i
  {
    if i < e { ReachIs(ok, s, i + 1, e); }
  }
}
