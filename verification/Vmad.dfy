/** Script-property strings of a VMAD subrecord: the scan that finds them and the
    in-place splice that replaces them (scripts/esp_engine.py). */
module Vmad {
  import opened Bytes

  /** One length-prefixed string: where its prefix stands, the length the prefix
      claims, and the bytes that are really there. */
  datatype Entry = Entry(off: nat, len: nat, text: bytes)

  /** The string runs past the end of the data. */
  predicate Clipped(e: Entry) {
    |e.text| < e.len
  }

  /** What the parser still has to read: nothing yet, or the open scripts, the open
      properties of the current script and the open strings of the current property. */
  datatype Todo = Start | Body(version: nat, scripts: nat, props: nat, elems: nat)

  /** The next thing the parser meets: `width` bytes that hold no string, a string,
      or the point where it stops. */
  datatype Step = Halt | Raw(width: nat, next: Todo) | Str(next: Todo)

  function Next(c: Todo, rest: bytes): (s: Step)
    ensures s.Raw? ==> s.width >= 3 && |rest| >= 3
    ensures s.Str? ==> |rest| >= 2
  {
    if c.Start? then
      if |rest| < 6 then Halt else Raw(6, Body(U16(rest, 0), U16(rest, 4), 0, 0))
    else if c.elems > 0 then
      if |rest| < 2 then Halt else Str(c.(elems := c.elems - 1))
    else if c.props > 0 then
      NextProperty(c, rest)
    else if c.scripts > 0 then
      NextScript(c, rest)
    else
      Halt
  }

  function StatusWidth(version: nat): nat {
    if version >= 4 then 1 else 0
  }

  function NextScript(c: Todo, rest: bytes): (s: Step)
    requires c.Body? && c.scripts > 0 && c.props == 0 && c.elems == 0
    ensures s.Raw? ==> s.width >= 4 && |rest| >= s.width
    ensures !s.Str?
  {
    if |rest| < 2 then Halt else
    var p := 2 + U16(rest, 0) + StatusWidth(c.version);
    if |rest| < p + 2 then Halt
    else Raw(p + 2, c.(scripts := c.scripts - 1, props := U16(rest, p)))
  }

  function NextProperty(c: Todo, rest: bytes): (s: Step)
    requires c.Body? && c.props > 0 && c.elems == 0
    ensures s.Raw? ==> s.width >= 3 && |rest| >= 3
    ensures !s.Str?
  {
    if |rest| < 2 then Halt else
    var p := 2 + U16(rest, 0);
    if |rest| < p + 1 + StatusWidth(c.version) then Halt else
    var q := p + 1 + StatusWidth(c.version);
    PropertyBody(rest, rest[p], q, c.(props := c.props - 1))
  }

  /** What follows the head of a property of type `ptype` whose value starts at q. */
  function PropertyBody(rest: bytes, ptype: nat, q: nat, d: Todo): (s: Step)
    requires d.Body? && d.elems == 0 && 3 <= q <= |rest|
    ensures s.Raw? ==> s.width >= 3
    ensures !s.Str?
  {
    match ptype
    case 0 => Raw(q, d)
    case 1 => Raw(q + 8, d)
    case 2 => Raw(q, d.(elems := 1))
    case 3 => Raw(q + 4, d)
    case 4 => Raw(q + 4, d)
    case 5 => Raw(q + 1, d)
    case 11 => if |rest| < q + 4 then Halt else Raw(q + 4 + 8 * U32(rest, q), d)
    case 12 => if |rest| < q + 4 then Halt else Raw(q + 4, d.(elems := U32(rest, q)))
    case 13 => if |rest| < q + 4 then Halt else Raw(q + 4 + 4 * U32(rest, q), d)
    case 14 => if |rest| < q + 4 then Halt else Raw(q + 4 + 4 * U32(rest, q), d)
    case 15 => if |rest| < q + 4 then Halt else Raw(q + 4 + U32(rest, q), d)
    case _ => Halt
  }

  /** A step over raw bytes is decided by those bytes alone. */
  lemma RawIsLocal(c: Todo, r: bytes, s: bytes)
    requires Next(c, r).Raw? && Next(c, r).width <= |r|
    requires Next(c, r).width <= |s| && s[..Next(c, r).width] == r[..Next(c, r).width]
    ensures Next(c, s) == Next(c, r)
  {
    hide U16, U32, PropertyBody;
    var w := Next(c, r).width;
    SameReads(r, s, w);
    if c.Body? && c.elems == 0 && c.props > 0 { PropertyIsLocal(c, r, s); }
  }

  /** What begins alike reads alike. */
  lemma SameReads(r: bytes, s: bytes, w: nat)
    requires w <= |r| && w <= |s| && s[..w] == r[..w]
    ensures forall i | 0 <= i < w :: s[i] == r[i]
    ensures forall i | 0 <= i && i + 2 <= w :: U16(s, i) == U16(r, i)
    ensures forall i | 0 <= i && i + 4 <= w :: U32(s, i) == U32(r, i)
  {
    assert forall i | 0 <= i < w :: s[i] == s[..w][i] == r[..w][i] == r[i];
  }

  lemma PropertyIsLocal(c: Todo, r: bytes, s: bytes)
    requires c.Body? && c.props > 0 && c.elems == 0
    requires NextProperty(c, r).Raw? && NextProperty(c, r).width <= |r|
    requires NextProperty(c, r).width <= |s| && s[..NextProperty(c, r).width] == r[..NextProperty(c, r).width]
    ensures NextProperty(c, s) == NextProperty(c, r)
  {
    hide U16, U32;
    SameReads(r, s, NextProperty(c, r).width);
  }

  /** All strings the parser records from here on, `off` bytes into the data. */
  function Scan(c: Todo, rest: bytes, off: nat): seq<Entry>
    decreases |rest|
  {
    match Next(c, rest)
    case Halt => []
    case Raw(w, n) => Scan(n, Drop(rest, w), off + w)
    case Str(n) =>
      var len := U16(rest, 0);
      [Entry(off, len, Take(Drop(rest, 2), len))] + Scan(n, Drop(rest, 2 + len), off + 2 + len)
  }

  /** The bytes between the strings, one piece more than there are strings. */
  function Gaps(c: Todo, rest: bytes): (g: seq<bytes>)
    ensures |g| >= 1
    decreases |rest|
  {
    match Next(c, rest)
    case Halt => [rest]
    case Raw(w, n) =>
      var g := Gaps(n, Drop(rest, w));
      [Take(rest, w) + g[0]] + g[1..]
    case Str(n) => [[]] + Gaps(n, Drop(rest, 2 + U16(rest, 0)))
  }

  /** `data` is the gaps and the strings laid end to end. */
  predicate Woven(g: seq<bytes>, es: seq<Entry>, data: bytes)
    requires |g| >= 1
    decreases |es|
  {
    if es == [] then g == [data]
    else
      var e := es[0];
      && |g| > 1
      && e.len < U16_LIMIT
      && g[0] + P16(e.len) + e.text <= data
      && Woven(g[1..], es[1..], data[|g[0]| + 2 + |e.text|..])
  }

  lemma RawUnfolds(c: Todo, rest: bytes, off: nat, w: nat, n: Todo)
    requires Next(c, rest) == Raw(w, n)
    ensures Scan(c, rest, off) == Scan(n, Drop(rest, w), off + w)
    ensures Gaps(c, rest) == [Take(rest, w) + Gaps(n, Drop(rest, w))[0]] + Gaps(n, Drop(rest, w))[1..]
  {
    hide Next;
  }

  lemma StrUnfolds(c: Todo, rest: bytes, off: nat, n: Todo, len: nat)
    requires Next(c, rest) == Str(n) && len == U16(rest, 0)
    ensures Scan(c, rest, off) ==
            [Entry(off, len, Take(Drop(rest, 2), len))] + Scan(n, Drop(rest, 2 + len), off + 2 + len)
    ensures Gaps(c, rest) == [[]] + Gaps(n, Drop(rest, 2 + len))
  {
    hide Next;
  }

  /** Nothing of the data is outside the gaps and the recorded strings. */
  lemma {:induction false} GapsAndStringsMakeTheData(c: Todo, rest: bytes, off: nat)
    ensures Woven(Gaps(c, rest), Scan(c, rest, off), rest)
    decreases |rest|
  {
    hide Next, Scan, Gaps, U16, P16;
    match Next(c, rest)
    case Halt => HaltUnfolds(c, rest, off);
    case Raw(w, n) =>
      GapsAndStringsMakeTheData(n, Drop(rest, w), off + w);
      RawUnfolds(c, rest, off, w, n);
      WeavePrepend(Take(rest, w), Gaps(n, Drop(rest, w)), Scan(n, Drop(rest, w), off + w), Drop(rest, w));
      assert rest == Take(rest, w) + Drop(rest, w);
    case Str(n) =>
      var len := U16(rest, 0);
      GapsAndStringsMakeTheData(n, Drop(rest, 2 + len), off + 2 + len);
      StrUnfolds(c, rest, off, n, len);
      WeaveString(Entry(off, len, Take(Drop(rest, 2), len)), rest, Gaps(n, Drop(rest, 2 + len)),
                  Scan(n, Drop(rest, 2 + len), off + 2 + len));
  }

  lemma WeavePrepend(p: bytes, g: seq<bytes>, es: seq<Entry>, data: bytes)
    requires |g| >= 1 && Woven(g, es, data)
    ensures Woven([p + g[0]] + g[1..], es, p + data)
  {
    var g' := [p + g[0]] + g[1..];
    assert g'[1..] == g[1..];
    if es != [] {
      var k := |g[0]| + 2 + |es[0].text|;
      assert (p + data)[|p| + k..] == data[k..];
      assert g'[0] + P16(es[0].len) + es[0].text == p + (g[0] + P16(es[0].len) + es[0].text);
    }
  }

  lemma WeaveString(e: Entry, rest: bytes, g: seq<bytes>, es: seq<Entry>)
    requires |rest| >= 2 && e.len == U16(rest, 0) && e.text == Take(Drop(rest, 2), e.len)
    requires |g| >= 1 && Woven(g, es, Drop(rest, 2 + e.len))
    ensures Woven([[]] + g, [e] + es, rest)
  {
    hide U16, P16;
    var g', es' := [[]] + g, [e] + es;
    assert g'[1..] == g && es'[1..] == es && g'[0] == [] && es'[0] == e;
    StringLeads(e, rest);
  }

  lemma StringLeads(e: Entry, rest: bytes)
    requires |rest| >= 2 && e.len == U16(rest, 0) && e.text == Take(Drop(rest, 2), e.len)
    ensures e.len < U16_LIMIT && [] + P16(e.len) + e.text <= rest && 2 + |e.text| <= |rest|
    ensures rest[2 + |e.text|..] == Drop(rest, 2 + e.len)
  {
    hide U16, P16;
    P16OfU16(rest);
    assert rest == rest[..2] + rest[2..];
    assert [] + P16(e.len) + e.text == rest[..2] + e.text;
  }

  // ── Rewriting ───────────────────────────────────────────────────────────────

  type Texts = map<nat, bytes>

  /** Every replacement fits the 16-bit length prefix. */
  predicate Fits(t: Texts) {
    forall i | i in t :: |t[i]| < U16_LIMIT
  }

  predicate Wanted(t: Texts, i: nat) {
    i in t && t[i] != []
  }

  /** The data with each wanted, complete string exchanged. */
  function Rewritten(c: Todo, rest: bytes, t: Texts, i: nat): bytes
    requires Fits(t)
    decreases |rest|
  {
    match Next(c, rest)
    case Halt => rest
    case Raw(w, n) =>
      if w > |rest| then rest else rest[..w] + Rewritten(n, rest[w..], t, i)
    case Str(n) =>
      var len := U16(rest, 0);
      if 2 + len > |rest| then rest else
      OneString(rest, len, t, i) + Rewritten(n, rest[2 + len..], t, i + 1)
  }

  function NewText(t: Texts, i: nat, e: Entry): bytes {
    if Wanted(t, i) && !Clipped(e) then t[i] else e.text
  }

  /** Entry by entry the new strings are the old ones with the wanted texts, starting at
      string number i; no string changes sides between complete and clipped. */
  predicate Carried(old_: seq<Entry>, new_: seq<Entry>, t: Texts, i: nat)
    decreases |old_|
  {
    if old_ == [] || new_ == [] then old_ == [] && new_ == []
    else
      && new_[0].text == NewText(t, i, old_[0])
      && (Clipped(new_[0]) <==> Clipped(old_[0]))
      && Carried(old_[1..], new_[1..], t, i + 1)
  }

  lemma {:induction false} CarriedAt(old_: seq<Entry>, new_: seq<Entry>, t: Texts, i: nat)
    requires Carried(old_, new_, t, i)
    ensures |new_| == |old_|
    ensures forall j | 0 <= j < |old_| ::
      new_[j].text == NewText(t, i + j, old_[j]) && (Clipped(new_[j]) <==> Clipped(old_[j]))
    decreases |old_|
  {
    if old_ != [] {
      CarriedAt(old_[1..], new_[1..], t, i + 1);
      forall j | 0 < j < |old_|
        ensures new_[j].text == NewText(t, i + j, old_[j]) && (Clipped(new_[j]) <==> Clipped(old_[j]))
      {
        assert old_[j] == old_[1..][j - 1] && new_[j] == new_[1..][j - 1];
      }
    }
  }

  /** A parse that meets only the end of the data carries over to another base offset. */
  lemma ScanOfNothing(c: Todo, a: nat)
    ensures Scan(c, [], a) == []
  {
  }

  lemma RewrittenUnfolds(c: Todo, rest: bytes, t: Texts, i: nat)
    requires Fits(t)
    ensures Rewritten(c, rest, t, i) ==
            match Next(c, rest) {
              case Halt => rest
              case Raw(w, n) => if w > |rest| then rest else rest[..w] + Rewritten(n, rest[w..], t, i)
              case Str(n) =>
                var len := U16(rest, 0);
                if 2 + len > |rest| then rest else
                OneString(rest, len, t, i) + Rewritten(n, rest[2 + len..], t, i + 1)
            }
  {
    hide Next;
  }

  function OneString(rest: bytes, len: nat, t: Texts, i: nat): bytes
    requires Fits(t) && 2 + len <= |rest|
  {
    if Wanted(t, i) then P16(|t[i]|) + t[i] else rest[..2 + len]
  }

  /** Parsing the rewritten data and parsing the original run in lockstep. */
  lemma {:induction false} RewriteCommutesWithScan(c: Todo, rest: bytes, t: Texts, i: nat, a: nat, b: nat)
    requires Fits(t)
    ensures Carried(Scan(c, rest, a), Scan(c, Rewritten(c, rest, t, i), b), t, i)
    ensures Gaps(c, Rewritten(c, rest, t, i)) == Gaps(c, rest)
    decreases |rest|
  {
    hide Next, Rewritten, Scan, Gaps;
    RewrittenUnfolds(c, rest, t, i);
    match Next(c, rest)
    case Halt => HaltUnfolds(c, rest, a); HaltUnfolds(c, rest, b);
    case Raw(w, n) =>
      if w <= |rest| {
        RewriteCommutesWithScan(n, rest[w..], t, i, a + w, b + w);
      }
      RewriteCommutesRaw(c, rest, t, i, a, b, w, n);
    case Str(n) =>
      var len := U16(rest, 0);
      if 2 + len <= |rest| {
        RewriteCommutesWithScan(n, rest[2 + len..], t, i + 1, a + 2 + len,
                                b + if Wanted(t, i) then 2 + |t[i]| else 2 + len);
      }
      RewriteCommutesStr(c, rest, t, i, a, b, n);
  }

  lemma HaltUnfolds(c: Todo, rest: bytes, off: nat)
    requires Next(c, rest).Halt?
    ensures Scan(c, rest, off) == [] && Gaps(c, rest) == [rest]
  {
    hide Next;
  }

  lemma RewriteCommutesRaw(c: Todo, rest: bytes, t: Texts, i: nat, a: nat, b: nat, w: nat, n: Todo)
    requires Fits(t) && Next(c, rest) == Raw(w, n)
    requires w <= |rest| ==>
      && Carried(Scan(n, rest[w..], a + w), Scan(n, Rewritten(n, rest[w..], t, i), b + w), t, i)
      && Gaps(n, Rewritten(n, rest[w..], t, i)) == Gaps(n, rest[w..])
    ensures Carried(Scan(c, rest, a), Scan(c, Rewritten(c, rest, t, i), b), t, i)
    ensures Gaps(c, Rewritten(c, rest, t, i)) == Gaps(c, rest)
  {
    hide Next, Rewritten, Scan, Gaps;
    var out := Rewritten(c, rest, t, i);
    RewrittenUnfolds(c, rest, t, i);
    RawUnfolds(c, rest, a, w, n);
    if w > |rest| {
      RawUnfolds(c, rest, b, w, n);
      ScanOfNothing(n, a + w);
      ScanOfNothing(n, b + w);
    } else {
      var tail := Rewritten(n, rest[w..], t, i);
      assert out == rest[..w] + tail;
      assert out[..w] == rest[..w] && out[w..] == tail;
      RawIsLocal(c, rest, out);
      RawUnfolds(c, out, b, w, n);
    }
  }

  lemma RewriteCommutesStr(c: Todo, rest: bytes, t: Texts, i: nat, a: nat, b: nat, n: Todo)
    requires Fits(t) && Next(c, rest) == Str(n)
    requires var len := U16(rest, 0);
             2 + len <= |rest| ==>
               var tail := Rewritten(n, rest[2 + len..], t, i + 1);
               && Carried(Scan(n, rest[2 + len..], a + 2 + len),
                          Scan(n, tail, b + if Wanted(t, i) then 2 + |t[i]| else 2 + len), t, i + 1)
               && Gaps(n, tail) == Gaps(n, rest[2 + len..])
    ensures Carried(Scan(c, rest, a), Scan(c, Rewritten(c, rest, t, i), b), t, i)
    ensures Gaps(c, Rewritten(c, rest, t, i)) == Gaps(c, rest)
  {
    hide Next, Rewritten, Scan, Gaps;
    var out := Rewritten(c, rest, t, i);
    var len := U16(rest, 0);
    RewrittenUnfolds(c, rest, t, i);
    StrUnfolds(c, rest, a, n, len);
    if 2 + len > |rest| {
      StrUnfolds(c, rest, b, n, len);
      assert Drop(rest, 2 + len) == [];
      ScanOfNothing(n, a + 2 + len);
      ScanOfNothing(n, b + 2 + len);
    } else {
      RewriteCommutesInside(c, rest, t, i, a, b, n, Rewritten(n, rest[2 + len..], t, i + 1));
    }
  }

  lemma RewriteCommutesInside(c: Todo, rest: bytes, t: Texts, i: nat, a: nat, b: nat, n: Todo, tail: bytes)
    requires Fits(t) && Next(c, rest) == Str(n) && 2 + U16(rest, 0) <= |rest|
    requires var len := U16(rest, 0);
             && Carried(Scan(n, rest[2 + len..], a + 2 + len),
                        Scan(n, tail, b + if Wanted(t, i) then 2 + |t[i]| else 2 + len), t, i + 1)
             && Gaps(n, tail) == Gaps(n, rest[2 + len..])
    ensures var out := OneString(rest, U16(rest, 0), t, i) + tail;
            Carried(Scan(c, rest, a), Scan(c, out, b), t, i) && Gaps(c, out) == Gaps(c, rest)
  {
    hide Next, Scan, Gaps, U16, P16, OneString, Carried;
    var len := U16(rest, 0);
    var out := OneString(rest, len, t, i) + tail;
    var len' := if Wanted(t, i) then |t[i]| else len;
    StrUnfolds(c, rest, a, n, len);
    assert Drop(rest, 2 + len) == rest[2 + len..];
    ReadOneString(rest, len, t, i, tail);
    StrNeedsAPrefix(c, rest, out);
    StrUnfolds(c, out, b, n, len');
    ConsCarries(Entry(a, len, Take(Drop(rest, 2), len)), Scan(n, rest[2 + len..], a + 2 + len),
                Entry(b, len', Take(Drop(out, 2), len')), Scan(n, tail, b + 2 + len'), t, i);
  }

  lemma ConsCarries(e: Entry, es: seq<Entry>, f: Entry, fs: seq<Entry>, t: Texts, i: nat)
    requires Carried(es, fs, t, i + 1)
    requires f.text == NewText(t, i, e) && (Clipped(f) <==> Clipped(e))
    ensures Carried([e] + es, [f] + fs, t, i)
  {
    assert ([e] + es)[1..] == es && ([f] + fs)[1..] == fs;
  }

  lemma StrNeedsAPrefix(c: Todo, r: bytes, s: bytes)
    requires Next(c, r).Str? && |s| >= 2
    ensures Next(c, s) == Next(c, r)
  {
  }

  lemma ReadOneString(rest: bytes, len: nat, t: Texts, i: nat, tail: bytes)
    requires Fits(t) && |rest| >= 2 && len == U16(rest, 0) && 2 + len <= |rest|
    ensures var len' := if Wanted(t, i) then |t[i]| else len;
            var out := OneString(rest, len, t, i) + tail;
            && |out| >= 2 && U16(out, 0) == len'
            && Drop(out, 2 + len') == tail
            && Take(Drop(out, 2), len') == (if Wanted(t, i) then t[i] else Take(Drop(rest, 2), len))
            && |Take(Drop(out, 2), len')| == len'
  {
  }

  lemma {:induction false} OnlyTheLastIsClipped(c: Todo, rest: bytes, off: nat)
    ensures forall j | 0 <= j < |Scan(c, rest, off)| - 1 :: !Clipped(Scan(c, rest, off)[j])
    decreases |rest|
  {
    hide Next, Scan, Gaps;
    match Next(c, rest)
    case Halt => HaltUnfolds(c, rest, off);
    case Raw(w, n) =>
      RawUnfolds(c, rest, off, w, n);
      OnlyTheLastIsClipped(n, Drop(rest, w), off + w);
    case Str(n) =>
      var len := U16(rest, 0);
      StrUnfolds(c, rest, off, n, len);
      OnlyTheLastIsClipped(n, Drop(rest, 2 + len), off + 2 + len);
      if 2 + len > |rest| {
        assert Drop(rest, 2 + len) == [];
        ScanOfNothing(n, off + 2 + len);
      }
      assert Scan(c, rest, off)[1..] == Scan(n, Drop(rest, 2 + len), off + 2 + len);
  }

  /** The whole promise of a rewrite: as many strings in the same order, the wanted ones
      new, the others and every byte outside the strings as before; the one string a
      patch can miss is a clipped one, which can only be the last. */
  lemma RewriteIsExact(data: bytes, t: Texts)
    requires Fits(t)
    ensures var old_, new_ := Scan(Start, data, 0), Scan(Start, Rewritten(Start, data, t, 0), 0);
            && |new_| == |old_|
            && (forall j | 0 <= j < |old_| ::
                  new_[j].text == if j in t && t[j] != [] && |old_[j].text| == old_[j].len then t[j] else old_[j].text)
            && (forall j | 0 <= j < |old_| :: |old_[j].text| <= old_[j].len)
            && (forall j | 0 <= j < |old_| - 1 :: |old_[j].text| == old_[j].len)
    ensures Gaps(Start, Rewritten(Start, data, t, 0)) == Gaps(Start, data)
  {
    hide Scan, Gaps, Rewritten;
    RewriteCommutesWithScan(Start, data, t, 0, 0, 0);
    CarriedAt(Scan(Start, data, 0), Scan(Start, Rewritten(Start, data, t, 0), 0), t, 0);
    OnlyTheLastIsClipped(Start, data, 0);
    NeverLonger(Start, data, 0);
  }

  lemma {:induction false} NeverLonger(c: Todo, rest: bytes, off: nat)
    ensures forall j | 0 <= j < |Scan(c, rest, off)| :: |Scan(c, rest, off)[j].text| <= Scan(c, rest, off)[j].len
    decreases |rest|
  {
    hide Next, Scan, Gaps;
    match Next(c, rest)
    case Halt => HaltUnfolds(c, rest, off);
    case Raw(w, n) =>
      RawUnfolds(c, rest, off, w, n);
      NeverLonger(n, Drop(rest, w), off + w);
    case Str(n) =>
      var len := U16(rest, 0);
      StrUnfolds(c, rest, off, n, len);
      NeverLonger(n, Drop(rest, 2 + len), off + 2 + len);
  }

  /** Texts for no string of the data leave it as it is. */
  lemma {:induction false} UnwantedChangesNothing(c: Todo, rest: bytes, t: Texts, i: nat, off: nat)
    requires Fits(t)
    requires forall k | i <= k < i + |Scan(c, rest, off)| :: !Wanted(t, k)
    ensures Rewritten(c, rest, t, i) == rest
    decreases |rest|
  {
    hide Next, Scan, Gaps, Rewritten;
    RewrittenUnfolds(c, rest, t, i);
    match Next(c, rest)
    case Halt =>
    case Raw(w, n) =>
      RawUnfolds(c, rest, off, w, n);
      if w <= |rest| { UnwantedChangesNothing(n, rest[w..], t, i, off + w); }
    case Str(n) =>
      var k := 2 + U16(rest, 0);
      StrUnfolds(c, rest, off, n, k - 2);
      if k <= |rest| { UnwantedChangesNothing(n, rest[k..], t, i + 1, off + k); }
  }
}
