/** The two masking patterns as they are written (scripts/esp_engine.py:524-536), and the
    hand-made matchers of Tokens measured against them. */
module TokenPatterns {
  import opened Bytes
  import opened Text
  import opened Masking
  import opened Tokens
  import R = Regex

  predicate NotEnd(c: char) {
    c != '>'
  }

  // </?(?:font|p|...|center)\b[^>]*/?>, letters compared without case
  function TagPattern(word: char -> bool): R.Pattern {
    [TagAtoms(word)]
  }

  function TagAtoms(word: char -> bool): seq<R.Atom> {
    [R.One(c => c == '<'), R.Maybe(c => c == '/'),
     R.AnyOf(["font", "p", "br", "img", "div", "span", "b", "i", "u", "s", "a",
              "h1", "h2", "h3", "h4", "h5", "h6", "center"], Fold),
     R.Edge(word), R.Star(NotEnd), R.Maybe(c => c == '/'), R.One(c => c == '>')]
  }

  /** What Python's \w contains at least: whatever it takes for a letter of a tag name. */
  predicate WordLetters(word: char -> bool) {
    forall c: char :: 'a' <= Fold(c) <= 'z' || '1' <= c <= '6' ==> word(c)
  }

  lemma CloseTag(word: char -> bool, s: string, e: nat)
    requires e <= |s|
    ensures var ps := R.Paths(TagAtoms(word), 6, s, e);
            if e < |s| && s[e] == '>' then ps != [] && ps[0] == [e + 1] else ps == []
  {
    var atoms := TagAtoms(word);
    if e < |s| && s[e] == '>' {
      R.NothingMore(atoms, s, e + 1);
      R.FirstLeads(atoms, 6, s, e);
    } else {
      R.Stuck(atoms, 6, s, e);
    }
  }

  lemma SlashClose(word: char -> bool, s: string, e: nat)
    requires e <= |s|
    ensures var ps := R.Paths(TagAtoms(word), 5, s, e);
            && (e < |s| && s[e] == '>' ==> ps != [] && ps[0] == [e, e + 1])
            && ((forall k | e <= k < |s| :: s[k] != '>') ==> ps == [])
  {
    hide R.Paths;
    var atoms := TagAtoms(word);
    CloseTag(word, s, e);
    if e < |s| && s[e] == '>' {
      R.FirstLeads(atoms, 5, s, e);
    } else if forall k | e <= k < |s| :: s[k] != '>' {
      if e < |s| { CloseTag(word, s, e + 1); }
      R.NoMatch(atoms, 5, s, e);
    }
  }

  lemma RestOfTag(word: char -> bool, s: string, e: nat)
    requires e <= |s|
    ensures var ps, g := R.Paths(TagAtoms(word), 4, s, e), R.Reach(NotEnd, s, e);
            if g < |s| then ps != [] && ps[0] == [g, g, g + 1] else ps == []
  {
    hide R.Paths;
    var atoms, g := TagAtoms(word), R.Reach(NotEnd, s, e);
    if g < |s| {
      SlashClose(word, s, g);
      R.FirstLeads(atoms, 4, s, e);
    } else {
      forall x | e <= x <= |s|
        ensures R.Paths(atoms, 5, s, x) == []
      {
        SlashClose(word, s, x);
      }
      R.NoMatch(atoms, 4, s, e);
    }
  }

  /** Behind the name: a boundary, and an end somewhere. */
  lemma BehindName(word: char -> bool, s: string, e: nat)
    requires e <= |s|
    ensures var ps, g := R.Paths(TagAtoms(word), 3, s, e), R.Reach(NotEnd, s, e);
            if g < |s| && R.IsWord(word, s, e - 1) != R.IsWord(word, s, e) then ps != [] && ps[0] == [e, g, g, g + 1]
            else ps == []
  {
    hide R.Paths;
    var atoms := TagAtoms(word);
    RestOfTag(word, s, e);
    if R.IsWord(word, s, e - 1) == R.IsWord(word, s, e) {
      R.Stuck(atoms, 3, s, e);
    } else if R.Reach(NotEnd, s, e) < |s| {
      R.FirstLeads(atoms, 3, s, e);
    } else {
      R.NoMatch(atoms, 3, s, e);
    }
  }

  predicate EndsName(s: string, i: nat, names: seq<string>, n: nat, e: nat)
    requires i <= |s| && n <= |names|
  {
    exists k | 0 <= k < n :: R.Reads(Fold, s, i, names[k]) && e == i + |names[k]|
  }

  lemma {:induction false} NameEndsAre(s: string, i: nat, names: seq<string>, n: nat)
    requires i <= |s| && n <= |names|
    ensures forall e :: e in R.NameEnds(Fold, s, i, names, n) <==> EndsName(s, i, names, n, e)
  {
    hide R.Reads;
    if n > 0 {
      NameEndsAre(s, i, names, n - 1);
      forall e
        ensures EndsName(s, i, names, n, e)
                <==> EndsName(s, i, names, n - 1, e) || (R.Reads(Fold, s, i, names[n - 1]) && e == i + |names[n - 1]|)
      {
      }
    }
  }

  /** A name of the list stands at p with a boundary behind it, in Tokens' words and in the
      pattern's. */
  lemma NamedAt(word: char -> bool, s: string, p: nat)
    requires p <= |s| && WordLetters(word)
    ensures Named(word, s[p..]) <==>
            exists k | 0 <= k < |NAMES| :: R.Reads(Fold, s, p, NAMES[k]) && Boundary(word, s, p + |NAMES[k]|)
  {
    hide WordLetters, Fold;
    var t := s[p..];
    forall k | 0 <= k < |NAMES|
      ensures NamedBy(word, t, NAMES[k]) <==> R.Reads(Fold, s, p, NAMES[k]) && Boundary(word, s, p + |NAMES[k]|)
    {
      NameHasBoundary(word, s, p, NAMES[k]);
    }
    if Named(word, t) {
      var name :| name in NAMES && NamedBy(word, t, name);
      var k :| 0 <= k < |NAMES| && NAMES[k] == name;
    }
  }

  predicate Boundary(word: char -> bool, s: string, e: nat) {
    R.IsWord(word, s, e - 1) != R.IsWord(word, s, e)
  }

  lemma NamesAreWords(name: string)
    requires name in NAMES
    ensures name != "" && forall j | 0 <= j < |name| :: 'a' <= name[j] <= 'z' || '1' <= name[j] <= '6'
  {
  }

  lemma FoldedDigit(c: char)
    ensures '1' <= Fold(c) <= '6' ==> c == Fold(c)
  {
  }

  lemma NameHasBoundary(word: char -> bool, s: string, p: nat, name: string)
    requires p <= |s| && name in NAMES && WordLetters(word)
    ensures NamedBy(word, s[p..], name) <==> R.Reads(Fold, s, p, name) && Boundary(word, s, p + |name|)
  {
    hide Fold;
    var t := s[p..];
    NamesAreWords(name);
    assert StartsFold(t, name) <==> R.Reads(Fold, s, p, name) by {
      if |name| <= |t| { assert forall j | 0 <= j < |name| :: t[j] == s[p + j]; }
    }
    if StartsFold(t, name) {
      var last := |name| - 1;
      assert Fold(s[p + last]) == name[last];
      FoldedDigit(s[p + last]);
      assert R.IsWord(word, s, p + last);
    }
  }

  /** Whether the name part can be matched from p on: a name, a boundary, an end. */
  predicate GoodName(word: char -> bool, s: string, p: nat, e: nat)
    requires p <= |s|
  {
    p <= e <= |s| && EndsName(s, p, NAMES, |NAMES|, e) && Boundary(word, s, e) && R.Reach(NotEnd, s, e) < |s|
  }

  lemma NameLeads(word: char -> bool, s: string, p: nat, e: nat)
    requires p <= |s| && EndsName(s, p, NAMES, |NAMES|, e)
    ensures e <= |s| && (R.Paths(TagAtoms(word), 3, s, e) != [] <==> GoodName(word, s, p, e))
    ensures GoodName(word, s, p, e) ==>
              && |R.Paths(TagAtoms(word), 3, s, e)[0]| == 4
              && R.Last([e] + R.Paths(TagAtoms(word), 3, s, e)[0]) == R.Reach(NotEnd, s, e) + 1
  {
    hide R.Paths, Fold;
    BehindName(word, s, e);
  }

  /** The pattern from its name on: some name that leads to an end, or no match. */
  lemma NamePart(word: char -> bool, s: string, p: nat) returns (e: nat)
    requires p <= |s|
    ensures var ps := R.Paths(TagAtoms(word), 2, s, p);
            if ps == [] then forall x :: !GoodName(word, s, p, x)
            else GoodName(word, s, p, e) && |ps[0]| == 5 && R.Last(ps[0]) == R.Reach(NotEnd, s, e) + 1
  {
    hide R.Paths, R.Behind, R.NameEnds, R.Reads, Fold, EndsName, Boundary, R.Reach, R.Last;
    var atoms := TagAtoms(word);
    var ends := NameEndsOf(word, s, p);
    forall x | 0 <= x < |ends|
      ensures R.Paths(atoms, 3, s, ends[x]) != [] <==> GoodName(word, s, p, ends[x])
    {
      assert ends[x] in ends;
      NameLeads(word, s, p, ends[x]);
    }
    if x :| 0 <= x < |ends| && GoodName(word, s, p, ends[x]) {
      var y := R.SomeLeads(atoms, 2, s, p, ends);
      e := ends[y];
      assert e in ends;
      NameLeads(word, s, p, e);
    } else {
      R.NoneLeads(atoms, 2, s, p, ends);
      e := 0;
      forall x
        ensures !GoodName(word, s, p, x)
      {
        assert GoodName(word, s, p, x) ==> x in ends;
      }
    }
  }

  lemma NameEndsOf(word: char -> bool, s: string, p: nat) returns (ends: seq<nat>)
    requires p <= |s|
    ensures R.Within(ends, p, |s|) && R.Paths(TagAtoms(word), 2, s, p) == R.Behind(TagAtoms(word), 2, s, p, ends)
    ensures forall e :: e in ends <==> EndsName(s, p, NAMES, |NAMES|, e)
  {
    hide R.Paths, R.Behind, R.NameEnds, R.Reads, Fold;
    ends := R.Ends(TagAtoms(word)[2], s, p);
    assert ends == R.NameEnds(Fold, s, p, NAMES, |NAMES|);
    NameEndsAre(s, p, NAMES, |NAMES|);
    R.PathsUnfold(TagAtoms(word), 2, s, p);
  }

  lemma LastOf(e: nat, p: seq<nat>)
    requires |p| > 0
    ensures R.Last([e] + p) == R.Last(p)
  {
  }

  /** Where the name of a tag that starts at i may start. */
  predicate OpensTag(s: string, i: nat, p: nat) {
    i < p <= |s| && s[i] == '<' && (p == i + 1 || (p == i + 2 && s[i + 1] == '/'))
  }

  lemma GoodNameIsNamed(word: char -> bool, s: string, i: nat, p: nat)
    requires OpensTag(s, i, p) && WordLetters(word)
    ensures Named(word, s[p..]) && '>' in s[i..] ==> exists e :: GoodName(word, s, p, e)
    ensures forall e | GoodName(word, s, p, e) ::
              Named(word, s[p..]) && '>' in s[i..] && R.Reach(NotEnd, s, e) == i + IndexOf(s[i..], '>')
  {
    hide WordLetters, Fold, Named, IndexOf, R.Reach, EndsName, Boundary;
    NamedAt(word, s, p);
    forall e | GoodName(word, s, p, e)
      ensures Named(word, s[p..]) && '>' in s[i..] && R.Reach(NotEnd, s, e) == i + IndexOf(s[i..], '>')
    {
      NoEndInName(s, i, p, e);
      FirstEnd(s, i, e);
      GoodNameHas(word, s, p, e);
    }
    if Named(word, s[p..]) && '>' in s[i..] {
      var k :| 0 <= k < |NAMES| && R.Reads(Fold, s, p, NAMES[k]) && Boundary(word, s, p + |NAMES[k]|);
      assert EndsName(s, p, NAMES, |NAMES|, p + |NAMES[k]|) by { EndsThere(s, p, k); }
      NoEndInName(s, i, p, p + |NAMES[k]|);
      FirstEnd(s, i, p + |NAMES[k]|);
      assert GoodName(word, s, p, p + |NAMES[k]|);
    }
  }

  lemma GoodNameHas(word: char -> bool, s: string, p: nat, e: nat)
    requires p <= |s| && GoodName(word, s, p, e)
    ensures exists k | 0 <= k < |NAMES| :: R.Reads(Fold, s, p, NAMES[k]) && Boundary(word, s, p + |NAMES[k]|)
  {
    hide Fold, R.Reads, R.Reach;
    var k :| 0 <= k < |NAMES| && R.Reads(Fold, s, p, NAMES[k]) && e == p + |NAMES[k]|;
  }

  lemma EndsThere(s: string, p: nat, k: nat)
    requires p <= |s| && k < |NAMES| && R.Reads(Fold, s, p, NAMES[k])
    ensures EndsName(s, p, NAMES, |NAMES|, p + |NAMES[k]|)
  {
    hide Fold, R.Reads;
  }

  lemma NoEndInName(s: string, i: nat, p: nat, e: nat)
    requires OpensTag(s, i, p) && EndsName(s, p, NAMES, |NAMES|, e)
    ensures i <= e <= |s| && forall x | i <= x < e :: s[x] != '>'
  {
    hide Fold;
    var k :| 0 <= k < |NAMES| && R.Reads(Fold, s, p, NAMES[k]) && e == p + |NAMES[k]|;
    NameWithoutEnd(s, p, NAMES[k]);
  }

  lemma NameWithoutEnd(s: string, p: nat, name: string)
    requires p <= |s| && name in NAMES && R.Reads(Fold, s, p, name)
    ensures forall x | p <= x < p + |name| :: s[x] != '>'
  {
    NamesHaveNoEnd(name);
    forall x | p <= x < p + |name|
      ensures s[x] != '>'
    {
      assert Fold(s[p + (x - p)]) == name[x - p] && name[x - p] in name;
    }
  }

  lemma FirstEnd(s: string, i: nat, e: nat)
    requires i <= e <= |s| && forall x | i <= x < e :: s[x] != '>'
    ensures R.Reach(NotEnd, s, e) < |s| <==> '>' in s[i..]
    ensures '>' in s[i..] ==> R.Reach(NotEnd, s, e) == i + IndexOf(s[i..], '>')
  {
    var g := R.Reach(NotEnd, s, e);
    assert forall k | 0 <= k < |s| - i :: s[i..][k] == s[i + k];
    if g < |s| { assert s[i..][g - i] == '>'; }
  }

  /** The hand-made matcher for tags finds what the pattern finds. */
  lemma TagMatches(word: char -> bool, s: string, i: nat)
    requires WordLetters(word) && i <= |s|
    ensures var m, n := R.Try(TagPattern(word), 0, s, i), TagLength(word, s[i..]);
            if m.None? then n == 0 else n > 0 && R.Last(m.value) == i + n
  {
    hide R.Paths, R.Behind, WordLetters, Named, IndexOf, R.Reach, GoodName, R.Last;
    var atoms := TagAtoms(word);
    if i == |s| || s[i] != '<' {
      R.Stuck(atoms, 0, s, i);
    } else {
      var p := i + NameStart(s[i..]);
      assert s[i..][p - i..] == s[p..];
      assert OpensTag(s, i, p);
      GoodNameIsNamed(word, s, i, p);
      var e := NamePart(word, s, p);
      SlashOpen(word, s, i, p);
      if R.Paths(atoms, 2, s, p) != [] {
        R.FirstLeads(atoms, 0, s, i);
        LastOf(p, R.Paths(atoms, 2, s, p)[0]);
        LastOf(i + 1, R.Paths(atoms, 1, s, i + 1)[0]);
        LastOf(i, R.Paths(atoms, 0, s, i)[0]);
      } else {
        R.NoMatch(atoms, 0, s, i);
      }
    }
  }

  lemma SlashOpen(word: char -> bool, s: string, i: nat, p: nat)
    requires OpensTag(s, i, p) && (p == i + 1 ==> i + 1 == |s| || s[i + 1] != '/')
    ensures var from1, fromP := R.Paths(TagAtoms(word), 1, s, i + 1), R.Paths(TagAtoms(word), 2, s, p);
            && (fromP == [] ==> from1 == [])
            && (fromP != [] ==> from1 != [] && from1[0] == [p] + fromP[0])
  {
    hide R.Paths, R.Behind, Fold;
    var atoms := TagAtoms(word);
    if p == i + 2 { SlashIsNoName(word, s, i + 1); }
    if R.Paths(atoms, 2, s, p) != [] {
      R.FirstLeads(atoms, 1, s, i + 1);
    } else {
      R.NoMatch(atoms, 1, s, i + 1);
    }
  }

  lemma SlashIsNoName(word: char -> bool, s: string, i: nat)
    requires i < |s| && s[i] == '/'
    ensures R.Paths(TagAtoms(word), 2, s, i) == []
  {
    hide R.Paths, R.Behind, R.NameEnds, R.Reach, Boundary;
    var e := NamePart(word, s, i);
    forall k | 0 <= k < |NAMES|
      ensures !R.Reads(Fold, s, i, NAMES[k])
    {
      NamesAreWords(NAMES[k]);
      NoSlash(s, i, NAMES[k]);
    }
  }

  lemma NoSlash(s: string, i: nat, name: string)
    requires i < |s| && s[i] == '/' && name != "" && ('a' <= name[0] <= 'z' || '1' <= name[0] <= '6')
    ensures !R.Reads(Fold, s, i, name)
  {
    assert Fold(s[i + 0]) == '/';
  }

  // ── Game tokens ─────────────────────────────────────────────────────────────

  /** A class of the pattern, letters compared without case. */
  predicate InClass(letters: string, c: char) {
    exists x | x in letters :: Fold(x) == Fold(c)
  }

  function FlagAtom(): R.Atom {
    R.Star(c => c in "-+0 #")
  }

  // %[-+0 #]*\d*\.?\d*[diouxXeEfFgGcsSp%]
  function PrintfAtoms(digit: char -> bool): seq<R.Atom> {
    [R.One(c => c == '%'), FlagAtom(), R.Star(digit), R.Maybe(c => c == '.'), R.Star(digit),
     R.One(c => InClass("diouxXeEfFgGcsSp%", c))]
  }

  // <[^>]+>
  function AngleAtoms(): seq<R.Atom> {
    [R.One(c => c == '<'), R.Plus(NotEnd), R.One(c => c == '>')]
  }

  // \[PageBreak\]
  function PageBreakAtoms(): seq<R.Atom> {
    [R.AnyOf(["[pagebreak]"], Fold)]
  }

  // \[CRLF\]
  function CrlfAtoms(): seq<R.Atom> {
    [R.AnyOf(["[crlf]"], Fold)]
  }

  // \$\S+
  function DollarAtoms(): seq<R.Atom> {
    [R.One(c => c == '$'), R.Plus(c => !Space(c))]
  }

  function TokenPattern(digit: char -> bool): R.Pattern {
    [AngleAtoms(), PrintfAtoms(digit), PageBreakAtoms(), CrlfAtoms(), DollarAtoms()]
  }

  /** What Python's \d contains at most: no point, no sign and no letter of a conversion. */
  predicate DigitsOnly(digit: char -> bool) {
    forall c: char :: digit(c) ==> c != '.' && !InClass("diouxXeEfFgGcsSp%", c)
  }

  lemma ConversionClass(c: char)
    ensures Conversion(c) <==> InClass("diouxXeEfFgGcsSp%", c)
  {
    var letters := "diouxXeEfFgGcsSp%";
    assert forall k | 0 <= k < |letters| :: Fold(letters[k]) == '%' || Fold(letters[k]) in "diouxefgcsp";
    if Conversion(c) {
      if c == '%' {
        assert letters[16] == '%';
      } else {
        var k :| 0 <= k < |"diouxefgcsp"| && "diouxefgcsp"[k] == Fold(c);
        OwnFold(k);
      }
    }
    if x :| x in letters && Fold(x) == Fold(c) {
      if Fold(x) == '%' { assert c == '%'; }
    }
  }

  lemma OwnFold(k: nat)
    requires k < |"diouxefgcsp"|
    ensures Fold("diouxefgcsp"[k]) == "diouxefgcsp"[k] && "diouxefgcsp"[k] in "diouxXeEfFgGcsSp%"
  {
  }

  lemma {:induction false} RunIsReach(f: char -> bool, g: char -> bool, s: string, i: nat)
    requires i <= |s| && forall c :: f(c) <==> g(c)
    ensures Run(f, s[i..]) == R.Reach(g, s, i) - i
    decreases |s| - i
  {
    if i < |s| {
      assert s[i..][0] == s[i] && s[i..][1..] == s[i + 1..];
      RunIsReach(f, g, s, i + 1);
    }
  }

  lemma AngleBody(s: string, j: nat)
    requires j <= |s|
    ensures var ps, g := R.Paths(AngleAtoms(), 1, s, j), R.Reach(NotEnd, s, j);
            if j < g < |s| then ps != [] && ps[0] == [g, g + 1] else ps == []
  {
    hide R.Paths;
    var atoms, g := AngleAtoms(), R.Reach(NotEnd, s, j);
    if g == j {
      R.Stuck(atoms, 1, s, j);
    } else if g < |s| {
      CloseAngle(s, g);
      R.FirstLeads(atoms, 1, s, j);
    } else {
      forall e | j <= e <= |s|
        ensures R.Paths(atoms, 2, s, e) == []
      {
        CloseAngle(s, e);
      }
      R.NoMatch(atoms, 1, s, j);
    }
  }

  lemma AngleMatches(s: string, i: nat)
    requires i <= |s|
    ensures var ps, t := R.Paths(AngleAtoms(), 0, s, i), s[i..];
            if i < |s| && s[i] == '<' && '>' in t && IndexOf(t, '>') >= 2
            then ps != [] && R.Last([i] + ps[0]) == i + IndexOf(t, '>') + 1
            else ps == []
  {
    hide R.Paths, IndexOf, R.Reach;
    var atoms := AngleAtoms();
    if i == |s| || s[i] != '<' {
      R.Stuck(atoms, 0, s, i);
    } else {
      FirstEnd(s, i, i + 1);
      AngleBody(s, i + 1);
      if R.Paths(atoms, 1, s, i + 1) != [] {
        R.FirstLeads(atoms, 0, s, i);
      } else {
        R.NoMatch(atoms, 0, s, i);
      }
    }
  }

  lemma CloseAngle(s: string, e: nat)
    requires e <= |s|
    ensures var ps := R.Paths(AngleAtoms(), 2, s, e);
            if e < |s| && s[e] == '>' then ps != [] && ps[0] == [e + 1] else ps == []
  {
    if e < |s| && s[e] == '>' {
      R.NothingMore(AngleAtoms(), s, e + 1);
      R.FirstLeads(AngleAtoms(), 2, s, e);
    } else {
      R.Stuck(AngleAtoms(), 2, s, e);
    }
  }

  lemma DollarMatches(s: string, i: nat)
    requires i <= |s|
    ensures var ps := R.Paths(DollarAtoms(), 0, s, i);
            if i < |s| && s[i] == '$' && Run(NoSpace, s[i + 1..]) > 0
            then ps != [] && R.Last([i] + ps[0]) == i + 1 + Run(NoSpace, s[i + 1..])
            else ps == []
  {
    hide R.Paths, Space;
    var atoms := DollarAtoms();
    if i == |s| || s[i] != '$' {
      R.Stuck(atoms, 0, s, i);
    } else {
      RunIsReach(NoSpace, c => !Space(c), s, i + 1);
      var g := R.Reach(c => !Space(c), s, i + 1);
      assert atoms[1] == R.Plus(atoms[1].ok);
      RunIsReach(NoSpace, atoms[1].ok, s, i + 1);
      if g > i + 1 {
        R.NothingMore(atoms, s, g);
        R.FirstLeads(atoms, 1, s, i + 1);
        R.FirstLeads(atoms, 0, s, i);
      } else {
        R.Stuck(atoms, 1, s, i + 1);
        R.NoMatch(atoms, 0, s, i);
      }
    }
  }

  lemma WordMatches(atoms: seq<R.Atom>, name: string, s: string, i: nat)
    requires i <= |s| && atoms == [R.AnyOf([name], Fold)]
    ensures var ps := R.Paths(atoms, 0, s, i);
            if StartsFold(s[i..], name) then ps != [] && R.Last([i] + ps[0]) == i + |name| else ps == []
  {
    hide R.Paths, Fold;
    assert R.NameEnds(Fold, s, i, [name], 0) == [];
    assert StartsFold(s[i..], name) <==> R.Reads(Fold, s, i, name) by {
      if i + |name| <= |s| { assert forall j | 0 <= j < |name| :: s[i..][j] == s[i + j]; }
    }
    if StartsFold(s[i..], name) {
      R.NothingMore(atoms, s, i + |name|);
      R.FirstLeads(atoms, 0, s, i);
    } else {
      R.Stuck(atoms, 0, s, i);
    }
  }

  /** The places a printf token's parts end at when every run is taken whole. */
  datatype Whole = Whole(flags: nat, width: nat, point: nat, places: nat)

  function WholeRuns(digit: char -> bool, s: string, i: nat): (w: Whole)
    requires i < |s|
    ensures i < w.flags <= w.width <= w.point <= w.places <= |s|
  {
    var a := R.Reach(FlagAtom().ok, s, i + 1);
    var b := R.Reach(digit, s, a);
    var c := if b < |s| && s[b] == '.' then b + 1 else b;
    Whole(a, b, c, R.Reach(digit, s, c))
  }

  lemma WholeIsConversionAt(digit: char -> bool, s: string, i: nat)
    requires i < |s|
    ensures WholeRuns(digit, s, i).places == i + ConversionAt(digit, s[i..])
  {
    hide Run, R.Reach, WholeRuns, ConversionAt, FlagAtom;
    var w := WholeRuns(digit, s, i);
    RunsAre(digit, s, i);
    FlagRunHere(s, i);
    ConversionThere(digit, s, i, w.flags, w.width, w.point);
  }

  lemma ConversionThere(digit: char -> bool, s: string, i: nat, a: nat, b: nat, c: nat)
    requires i < a <= b <= c <= |s|
    requires a - i == 1 + Run(Flag, s[i..][1..]) && b == R.Reach(digit, s, a)
    requires c == if b < |s| && s[b] == '.' then b + 1 else b
    ensures i + ConversionAt(digit, s[i..]) == R.Reach(digit, s, c)
  {
    hide Run, R.Reach, ConversionAt, Flag;
    var t := s[i..];
    RunHere(digit, digit, s, i, a);
    RunHere(digit, digit, s, i, c);
    assert b - i < |t| <==> b < |s|;
    ConversionIs(digit, t, a - i, b - i, c - i);
  }

  lemma FlagRunHere(s: string, i: nat)
    requires i < |s|
    ensures 1 + Run(Flag, s[i..][1..]) == R.Reach(FlagAtom().ok, s, i + 1) - i
  {
    hide Run, R.Reach, Flag;
    FlagsAgree();
    RunHere(Flag, FlagAtom().ok, s, i, i + 1);
  }

  lemma FlagsAgree()
    ensures forall c :: Flag(c) <==> FlagAtom().ok(c)
  {
  }

  lemma ConversionIs(digit: char -> bool, t: string, a: nat, b: nat, c: nat)
    requires t != "" && a == 1 + Run(Flag, t[1..]) && b == a + Run(digit, t[a..])
    requires c == b + if b < |t| && t[b] == '.' then 1 else 0
    ensures ConversionAt(digit, t) == c + Run(digit, t[c..])
  {
    hide Run;
  }

  lemma RunHere(f: char -> bool, g: char -> bool, s: string, i: nat, k: nat)
    requires i <= k <= |s| && forall c :: f(c) <==> g(c)
    ensures Run(f, s[i..][k - i..]) == R.Reach(g, s, k) - k
  {
    hide Run, R.Reach;
    assert s[i..][k - i..] == s[k..];
    RunIsReach(f, g, s, k);
  }

  lemma RunsAre(digit: char -> bool, s: string, i: nat)
    requires i < |s|
    ensures var w := WholeRuns(digit, s, i);
            && w.flags == R.Reach(FlagAtom().ok, s, i + 1) && w.width == R.Reach(digit, s, w.flags)
            && w.point == (if w.width < |s| && s[w.width] == '.' then w.width + 1 else w.width)
            && w.places == R.Reach(digit, s, w.point)
  {
    hide R.Reach;
  }

  lemma PrintfEnd(digit: char -> bool, s: string, x: nat)
    requires x <= |s|
    ensures var ps := R.Paths(PrintfAtoms(digit), 5, s, x);
            if x < |s| && Conversion(s[x]) then ps != [] && ps[0] == [x + 1] else ps == []
  {
    hide Conversion, InClass;
    var atoms := PrintfAtoms(digit);
    if x < |s| {
      ConversionClass(s[x]);
    }
    if x < |s| && Conversion(s[x]) {
      R.NothingMore(atoms, s, x + 1);
      R.FirstLeads(atoms, 5, s, x);
    } else {
      R.Stuck(atoms, 5, s, x);
    }
  }

  lemma NotConversion(digit: char -> bool, s: string, i: nat, x: nat)
    requires i < |s| && DigitsOnly(digit) && i < x < WholeRuns(digit, s, i).places
    ensures !Conversion(s[x])
  {
    hide InClass;
    ConversionClass(s[x]);
    var w := WholeRuns(digit, s, i);
    if x < w.flags {
      assert s[x] in "-+0 #";
      FlagsAreNone(s[x]);
    } else if w.width <= x < w.point {
      PointIsNone();
    }
  }

  lemma FlagsAreNone(c: char)
    requires c in "-+0 #"
    ensures !Conversion(c)
  {
  }

  lemma PointIsNone()
    ensures !Conversion('.')
  {
  }

  /** No run of digits reaches past the whole runs' end, and a point stands only inside. */
  lemma DigitsStay(digit: char -> bool, s: string, i: nat, x: nat)
    requires i < |s| && DigitsOnly(digit) && i < x <= WholeRuns(digit, s, i).places
    ensures R.Reach(digit, s, x) <= WholeRuns(digit, s, i).places
  {
    var w := WholeRuns(digit, s, i);
    assert w.places < |s| ==> !digit(s[w.places]);
  }

  lemma PointStays(digit: char -> bool, s: string, i: nat, x: nat, y: nat)
    requires i < |s| && DigitsOnly(digit) && i < x <= WholeRuns(digit, s, i).flags
    requires x <= y <= R.Reach(digit, s, x) && y < |s| && s[y] == '.'
    ensures y < WholeRuns(digit, s, i).places
  {
    hide InClass;
    var w := WholeRuns(digit, s, i);
    DigitsStay(digit, s, i, x);
    assert w.point == w.width ==> w.places == w.width;
    assert w.point > w.width ==> s[w.width] == '.';
  }

  lemma NoPrintf4(digit: char -> bool, s: string, i: nat, x: nat)
    requires i < |s| && DigitsOnly(digit) && i < x <= WholeRuns(digit, s, i).places
    requires var d := WholeRuns(digit, s, i).places; d == |s| || !Conversion(s[d])
    ensures R.Paths(PrintfAtoms(digit), 4, s, x) == []
  {
    hide R.Paths, Conversion, InClass, WholeRuns;
    var atoms := PrintfAtoms(digit);
    DigitsStay(digit, s, i, x);
    forall e | x <= e <= R.Reach(digit, s, x)
      ensures R.Paths(atoms, 5, s, e) == []
    {
      PrintfEnd(digit, s, e);
      if e < WholeRuns(digit, s, i).places { NotConversion(digit, s, i, e); }
    }
    R.NoMatch(atoms, 4, s, x);
  }

  lemma NoPrintf2(digit: char -> bool, s: string, i: nat, x: nat)
    requires i < |s| && DigitsOnly(digit) && i < x <= WholeRuns(digit, s, i).flags
    requires var d := WholeRuns(digit, s, i).places; d == |s| || !Conversion(s[d])
    ensures R.Paths(PrintfAtoms(digit), 2, s, x) == []
  {
    hide R.Paths, Conversion, InClass, WholeRuns, R.Reach;
    var atoms := PrintfAtoms(digit);
    DigitsStay(digit, s, i, x);
    forall y | x <= y <= R.Reach(digit, s, x)
      ensures R.Paths(atoms, 3, s, y) == []
    {
      NoPrintf4(digit, s, i, y);
      if y < |s| && s[y] == '.' {
        PointStays(digit, s, i, x, y);
        NoPrintf4(digit, s, i, y + 1);
      }
      R.NoMatch(atoms, 3, s, y);
    }
    R.NoMatch(atoms, 2, s, x);
  }

  lemma PrintfMatches(digit: char -> bool, s: string, i: nat)
    requires i <= |s| && DigitsOnly(digit)
    ensures var ps := R.Paths(PrintfAtoms(digit), 0, s, i);
            if i < |s| && s[i] == '%' && PrintfLength(digit, s[i..]) > 0
            then ps != [] && R.Last([i] + ps[0]) == i + PrintfLength(digit, s[i..])
            else ps == []
  {
    hide R.Paths, Conversion, InClass, R.Reach, ConversionAt, WholeRuns;
    var atoms := PrintfAtoms(digit);
    if i == |s| || s[i] != '%' {
      R.Stuck(atoms, 0, s, i);
    } else {
      var d := WholeRuns(digit, s, i).places;
      WholeIsConversionAt(digit, s, i);
      assert d < |s| ==> s[i..][d - i] == s[d];
      if d < |s| && Conversion(s[d]) {
        WholeLeads(digit, s, i);
      } else {
        forall x | i + 1 <= x <= R.Reach(FlagAtom().ok, s, i + 1)
          ensures R.Paths(atoms, 2, s, x) == []
        {
          RunsAre(digit, s, i);
          NoPrintf2(digit, s, i, x);
        }
        R.NoMatch(atoms, 1, s, i + 1);
        R.NoMatch(atoms, 0, s, i);
      }
    }
  }

  lemma TailLeads(digit: char -> bool, s: string, b: nat, c: nat, d: nat)
    requires b <= c <= d < |s| && Conversion(s[d]) && d == R.Reach(digit, s, c)
    requires c == if b < |s| && s[b] == '.' then b + 1 else b
    ensures var ps := R.Paths(PrintfAtoms(digit), 3, s, b); ps != [] && ps[0] == [c, d, d + 1]
  {
    hide R.Paths, R.Reach, Conversion, InClass;
    var atoms := PrintfAtoms(digit);
    PrintfEnd(digit, s, d);
    R.Taken(atoms, 4, s, c, d);
    R.Taken(atoms, 3, s, b, c);
  }

  lemma FrontLeads(digit: char -> bool, s: string, i: nat, a: nat, b: nat)
    requires i < |s| && s[i] == '%' && i < a <= b <= |s|
    requires a == R.Reach(FlagAtom().ok, s, i + 1) && b == R.Reach(digit, s, a)
    requires R.Paths(PrintfAtoms(digit), 3, s, b) != []
    ensures var ps := R.Paths(PrintfAtoms(digit), 0, s, i);
            ps != [] && ps[0] == [i + 1, a, b] + R.Paths(PrintfAtoms(digit), 3, s, b)[0]
  {
    hide R.Paths, R.Reach, InClass;
    var atoms := PrintfAtoms(digit);
    R.Taken(atoms, 2, s, a, b);
    R.Taken(atoms, 1, s, i + 1, a);
    R.Taken(atoms, 0, s, i, i + 1);
    assert [i + 1] + ([a] + ([b] + R.Paths(atoms, 3, s, b)[0])) == [i + 1, a, b] + R.Paths(atoms, 3, s, b)[0];
  }

  lemma WholeLeads(digit: char -> bool, s: string, i: nat)
    requires i < |s| && s[i] == '%'
    requires var d := WholeRuns(digit, s, i).places; d < |s| && Conversion(s[d])
    ensures var ps := R.Paths(PrintfAtoms(digit), 0, s, i);
            ps != [] && R.Last([i] + ps[0]) == WholeRuns(digit, s, i).places + 1
  {
    hide R.Paths, Conversion, R.Reach, WholeRuns, PrintfAtoms;
    var w := WholeRuns(digit, s, i);
    RunsAre(digit, s, i);
    TailLeads(digit, s, w.width, w.point, w.places);
    FrontLeads(digit, s, i, w.flags, w.width);
  }

  // ── Both patterns, all matches ──────────────────────────────────────────────

  /** The hand-made matcher for game tokens finds what the pattern finds. */
  lemma TokenMatches(digit: char -> bool, s: string, i: nat)
    requires DigitsOnly(digit) && i <= |s|
    ensures var m, n := R.Try(TokenPattern(digit), 0, s, i), TokenLength(digit, s[i..]);
            if m.None? then n == 0 else n > 0 && R.Last(m.value) == i + n
  {
    hide R.Paths, PrintfLength, IndexOf, Run, Fold, InClass;
    AngleMatches(s, i);
    PrintfMatches(digit, s, i);
    WordMatches(PageBreakAtoms(), "[pagebreak]", s, i);
    WordMatches(CrlfAtoms(), "[crlf]", s, i);
    DollarMatches(s, i);
    TryAlternatives(digit, s, i);
    if i < |s| { BracketsOnly(s[i..]); assert s[i..][0] == s[i] && s[i..][1..] == s[i + 1..]; }
  }

  lemma BracketsOnly(t: string)
    ensures StartsFold(t, "[pagebreak]") || StartsFold(t, "[crlf]") ==> t != "" && t[0] == '['
  {
    if StartsFold(t, "[pagebreak]") {
      assert Fold(t[0]) == "[pagebreak]"[0];
    } else if StartsFold(t, "[crlf]") {
      assert Fold(t[0]) == "[crlf]"[0];
    }
  }

  lemma TryAlternatives(digit: char -> bool, s: string, i: nat)
    requires i <= |s|
    ensures var a, b, c, d, e := R.Paths(AngleAtoms(), 0, s, i), R.Paths(PrintfAtoms(digit), 0, s, i),
                                 R.Paths(PageBreakAtoms(), 0, s, i), R.Paths(CrlfAtoms(), 0, s, i),
                                 R.Paths(DollarAtoms(), 0, s, i);
            R.Try(TokenPattern(digit), 0, s, i) ==
            if a != [] then Some([i] + a[0]) else if b != [] then Some([i] + b[0])
            else if c != [] then Some([i] + c[0]) else if d != [] then Some([i] + d[0])
            else if e != [] then Some([i] + e[0]) else None
  {
    hide R.Paths;
    var re := TokenPattern(digit);
    assert re[0] == AngleAtoms() && re[1] == PrintfAtoms(digit) && re[2] == PageBreakAtoms()
           && re[3] == CrlfAtoms() && re[4] == DollarAtoms();
    assert R.Try(re, 5, s, i) == None;
    assert R.Try(re, 4, s, i) == if R.Paths(re[4], 0, s, i) != [] then Some([i] + R.Paths(re[4], 0, s, i)[0]) else None;
    assert R.Paths(re[3], 0, s, i) == [] ==> R.Try(re, 3, s, i) == R.Try(re, 4, s, i);
    assert R.Paths(re[2], 0, s, i) == [] ==> R.Try(re, 2, s, i) == R.Try(re, 3, s, i);
    assert R.Paths(re[1], 0, s, i) == [] ==> R.Try(re, 1, s, i) == R.Try(re, 2, s, i);
  }

  /** A matcher finds, place by place, what a pattern finds. */
  ghost predicate Agrees(m: Matcher, re: R.Pattern, s: string) {
    forall i | 0 <= i <= |s| ::
      if R.Try(re, 0, s, i).None? then m(s[i..]) == 0
      else m(s[i..]) > 0 && R.Last(R.Try(re, 0, s, i).value) == i + m(s[i..])
  }

  /** Every match has a place and an end in the text. */
  predicate Spans(s: string, ms: seq<seq<nat>>) {
    forall x | 0 <= x < |ms| :: |ms[x]| > 0 && ms[x][0] <= R.Last(ms[x]) <= |s|
  }

  /** The text of every match. */
  function Texts(s: string, ms: seq<seq<nat>>): (ts: seq<string>)
    requires Spans(s, ms)
    ensures |ts| == |ms| && forall x | 0 <= x < |ms| :: ts[x] == s[ms[x][0]..R.Last(ms[x])]
  {
    seq(|ms|, x requires 0 <= x < |ms| => s[ms[x][0]..R.Last(ms[x])])
  }

  lemma OneMoreText(s: string, m: seq<nat>, ms: seq<seq<nat>>)
    requires Spans(s, ms) && |m| > 0 && m[0] <= R.Last(m) <= |s|
    ensures Spans(s, [m] + ms) && Texts(s, [m] + ms) == [s[m[0]..R.Last(m)]] + Texts(s, ms)
  {
    hide R.Last;
  }

  lemma {:induction false} CutUpIsAll(m: Matcher, re: R.Pattern, s: string, i: nat)
    requires i <= |s| && Agrees(m, re, s)
    ensures Spans(s, R.All(re, s, i)) && CutUp(m, s[i..]).tokens == Texts(s, R.All(re, s, i))
    decreases |s| - i
  {
    hide R.Try, Agrees, Spans, Texts, R.Last;
    if i < |s| {
      AgreesAt(m, re, s, i);
      var t, q := s[i..], R.Try(re, 0, s, i);
      if q.Some? {
        var n := m(t);
        assert t[n..] == s[i + n..] && t[..n] == s[i..i + n];
        CutUpIsAll(m, re, s, i + n);
        OneMoreText(s, q.value, R.All(re, s, i + n));
      } else {
        assert t[1..] == s[i + 1..];
        CutUpIsAll(m, re, s, i + 1);
      }
    } else {
      NoTexts(s);
    }
  }

  lemma NoTexts(s: string)
    ensures Spans(s, []) && Texts(s, []) == []
  {
  }

  lemma AgreesAt(m: Matcher, re: R.Pattern, s: string, i: nat)
    requires i <= |s| && Agrees(m, re, s)
    ensures var q := R.Try(re, 0, s, i);
            if q.None? then m(s[i..]) == 0
            else m(s[i..]) > 0 && R.Last(q.value) == i + m(s[i..]) <= |s| && q.value[0] == i
  {
  }

  /** What is masked, and by what: the texts of exactly the matches the two patterns have, the second in
      the text whose tags are hidden already. */
  lemma MasksThePatterns(env: Env, text: string)
    requires WordLetters(env.word) && DigitsOnly(env.digit)
    ensures var p := Prepare(env, text);
            && Agrees(Tags(env.word), TagPattern(env.word), text)
            && Spans(text, R.All(TagPattern(env.word), text, 0))
            && p.tags == Texts(text, R.All(TagPattern(env.word), text, 0))
            && var hidden := Masked(text, TAG, p.tags, 0);
               && Spans(hidden, R.All(TokenPattern(env.digit), hidden, 0))
               && p.tokens == Texts(hidden, R.All(TokenPattern(env.digit), hidden, 0))
               && p.text == Masked(hidden, TOKEN, p.tokens, 0)
  {
    hide R.Try, R.All, R.Last, CutUp, Masked, WordLetters, DigitsOnly, TagLength, TokenLength, Spans, Texts;
    forall i | 0 <= i <= |text|
      ensures var q, n := R.Try(TagPattern(env.word), 0, text, i), TagLength(env.word, text[i..]);
              if q.None? then n == 0 else n > 0 && R.Last(q.value) == i + n
    {
      TagMatches(env.word, text, i);
    }
    CutUpIsAll(Tags(env.word), TagPattern(env.word), text, 0);
    assert text[0..] == text;
    var hidden := Masked(text, TAG, Prepare(env, text).tags, 0);
    forall i | 0 <= i <= |hidden|
      ensures var q, n := R.Try(TokenPattern(env.digit), 0, hidden, i), TokenLength(env.digit, hidden[i..]);
              if q.None? then n == 0 else n > 0 && R.Last(q.value) == i + n
    {
      TokenMatches(env.digit, hidden, i);
    }
    CutUpIsAll(GameTokens(env.digit), TokenPattern(env.digit), hidden, 0);
    assert hidden[0..] == hidden;
  }
}
