/** The code that reads and splices a VMAD, proved against the specification in Vmad. */
module VmadCode {
  import opened Bytes
  import opened Vmad
  import F = VmadFormat

  lemma ReadAt(data: bytes, pos: nat, k: nat)
    ensures |Drop(data, pos)| >= k + 2 ==> U16(Drop(data, pos), k) == U16(data, pos + k)
    ensures |Drop(data, pos)| >= k + 4 ==> U32(Drop(data, pos), k) == U32(data, pos + k)
  {
  }

  lemma Advance(c: Todo, data: bytes, pos: nat, w: nat, n: Todo)
    requires Next(c, Drop(data, pos)) == Raw(w, n)
    ensures Scan(c, Drop(data, pos), pos) == Scan(n, Drop(data, pos + w), pos + w)
  {
    hide Next, Scan, Gaps;
    RawUnfolds(c, Drop(data, pos), pos, w, n);
    DropDrop(data, pos, w);
  }

  /** The parser's closures: a cursor over the data and the strings found so far. */
  class Reader {
    const data: bytes
    var pos: nat
    var strings: seq<Entry>

    constructor (data: bytes)
      ensures this.data == data && pos == 0 && strings == []
    {
      this.data := data;
      pos := 0;
      strings := [];
    }

    /** What the parser ends up with when `c` is still to be read. */
    ghost function Outlook(c: Todo): seq<Entry>
      reads this
    {
      strings + Scan(c, Drop(data, pos), pos)
    }

    method ReadU8() returns (r: Outcome<nat>)
      modifies this`pos
      ensures r.Done? <==> old(pos) < |data|
      ensures r.Done? ==> r.value == data[old(pos)] && pos == old(pos) + 1
    {
      if pos >= |data| { return Raised; }
      r := Done(data[pos]);
      pos := pos + 1;
    }

    method ReadU16() returns (r: Outcome<nat>)
      modifies this`pos
      ensures r.Done? <==> old(pos) + 2 <= |data|
      ensures r.Done? ==> r.value == U16(data, old(pos)) && pos == old(pos) + 2
    {
      if pos + 2 > |data| { return Raised; }
      r := Done(U16(data, pos));
      pos := pos + 2;
    }

    method ReadU32() returns (r: Outcome<nat>)
      modifies this`pos
      ensures r.Done? <==> old(pos) + 4 <= |data|
      ensures r.Done? ==> r.value == U32(data, old(pos)) && pos == old(pos) + 4
    {
      if pos + 4 > |data| { return Raised; }
      r := Done(U32(data, pos));
      pos := pos + 4;
    }

    method Skip(count: nat)
      modifies this`pos
      ensures pos == old(pos) + count
    {
      pos := pos + count;
    }

    method SkipLenString() returns (r: Outcome<()>)
      modifies this`pos
      ensures r.Done? <==> old(pos) + 2 <= |data|
      ensures r.Done? ==> pos == old(pos) + 2 + U16(data, old(pos))
    {
      var length :- ReadU16();
      Skip(length);
      r := Done(());
    }

    method GetLenString(ghost c: Todo) returns (r: Outcome<()>)
      requires c.Body? && c.elems > 0
      modifies this
      ensures r.Done? ==> Outlook(c.(elems := c.elems - 1)) == old(Outlook(c))
      ensures r.Raised? ==> strings == old(Outlook(c))
    {
      hide Scan, U16;
      ghost var rest, rec := Drop(data, pos), strings;
      ReadAt(data, pos, 0);
      var off := pos;
      if |rest| < 2 { HaltUnfolds(c, rest, pos); }
      var length :- ReadU16();
      StrUnfolds(c, rest, off, c.(elems := c.elems - 1), length);
      DropDrop(data, off, 2);
      DropDrop(data, off, 2 + length);
      var raw := Take(Drop(data, pos), length);
      pos := pos + length;
      strings := strings + [Entry(off, length, raw)];
      r := Done(());
    }

    method GetLenStrings(count: nat, ghost c: Todo) returns (r: Outcome<()>)
      requires c.Body? && c.elems == 0
      modifies this
      ensures r.Done? ==> Outlook(c) == old(Outlook(c.(elems := count)))
      ensures r.Raised? ==> strings == old(Outlook(c.(elems := count)))
    {
      for k := 0 to count
        invariant Outlook(c.(elems := count - k)) == old(Outlook(c.(elems := count)))
      {
        var _ :- GetLenString(c.(elems := count - k));
      }
      r := Done(());
    }

    /** Skips or counts what follows a property's head; `elems` strings come next. */
    method ReadValue(ptype: nat, ghost rest: bytes, ghost q: nat, ghost d: Todo) returns (r: Outcome<nat>)
      requires d.Body? && d.elems == 0 && pos >= q && rest == Drop(data, pos - q) && 3 <= q <= |rest|
      modifies this`pos
      ensures r.Raised? ==> PropertyBody(rest, ptype, q, d).Halt?
      ensures r.Done? ==> pos >= old(pos) && PropertyBody(rest, ptype, q, d) == Raw(q + pos - old(pos), d.(elems := r.value))
    {
      hide U32;
      var elems: nat := 0;
      ReadAt(data, pos - q, q);
      match ptype {
        case 0 =>
        case 1 => Skip(8);
        case 2 => elems := 1;
        case 3 => Skip(4);
        case 4 => Skip(4);
        case 5 => Skip(1);
        case 11 => var count :- ReadU32(); Skip(count * 8);
        case 12 => elems :- ReadU32();
        case 13 => var count :- ReadU32(); Skip(count * 4);
        case 14 => var count :- ReadU32(); Skip(count * 4);
        case 15 => var count :- ReadU32(); Skip(count);
        case _ => return Raised;
      }
      r := Done(elems);
    }

    method ReadProperties(version: nat, ghost c: Todo) returns (r: Outcome<()>)
      requires c.Body? && c.version == version && c.elems == 0 && c.props > 0
      modifies this
      ensures r.Done? ==> Outlook(c.(props := c.props - 1)) == old(Outlook(c))
      ensures r.Raised? ==> strings == old(Outlook(c))
    {
      hide Scan, U16, U32, PropertyBody;
      ghost var rest, start := Drop(data, pos), pos;
      ghost var d := c.(props := c.props - 1);
      if Next(c, rest).Halt? { HaltUnfolds(c, rest, start); }
      ReadAt(data, start, 0);
      var _ :- SkipLenString();
      var ptype :- ReadU8();
      if version >= 4 { var _ :- ReadU8(); }
      ghost var q := pos - start;
      assert Next(c, rest) == PropertyBody(rest, ptype, q, d);
      var elems :- ReadValue(ptype, rest, q, d);
      Advance(c, data, start, pos - start, d.(elems := elems));
      r := GetLenStrings(elems, d);
    }

    method ReadScript(version: nat, ghost c: Todo) returns (r: Outcome<()>)
      requires c.Body? && c.version == version && c.elems == 0 && c.props == 0 && c.scripts > 0
      modifies this
      ensures r.Done? ==> Outlook(c.(scripts := c.scripts - 1)) == old(Outlook(c))
      ensures r.Raised? ==> strings == old(Outlook(c))
    {
      hide Scan, U16, U32;
      ghost var rest, start := Drop(data, pos), pos;
      ghost var d := c.(scripts := c.scripts - 1);
      if Next(c, rest).Halt? { HaltUnfolds(c, rest, start); }
      ReadAt(data, start, 0);
      var _ :- SkipLenString();
      if version >= 4 { var _ :- ReadU8(); }
      ReadAt(data, start, pos - start);
      var pcount :- ReadU16();
      Advance(c, data, start, pos - start, d.(props := pcount));
      for k := 0 to pcount
        invariant Outlook(d.(props := pcount - k)) == old(Outlook(c))
      {
        var _ :- ReadProperties(version, d.(props := pcount - k));
      }
      r := Done(());
    }

    method ReadAll() returns (r: Outcome<()>)
      requires pos == 0 && strings == []
      modifies this
      ensures strings == Scan(Start, data, 0)
    {
      hide Scan, U16, U32;
      assert Drop(data, 0) == data;
      if |data| < 6 { HaltUnfolds(Start, data, 0); }
      var version :- ReadU16();
      var _ :- ReadU16();
      var scount :- ReadU16();
      ghost var c := Body(version, 0, 0, 0);
      Advance(Start, data, 0, 6, c.(scripts := scount));
      for k := 0 to scount
        invariant Outlook(c.(scripts := scount - k)) == Scan(Start, data, 0)
      {
        var _ :- ReadScript(version, c.(scripts := scount - k));
      }
      HaltUnfolds(c, Drop(data, pos), pos);
      r := Done(());
    }
  }

  /** What happens inside `try` is kept; the exception itself is swallowed. Of data that
      begins with printed contents exactly their string values are recorded. */
  method ParseVmadStrings(data: bytes) returns (strings: seq<Entry>)
    ensures strings == Scan(Start, data, 0)
    ensures forall x: F.Contents | F.Printable(x) && F.Print(x) <= data :: F.Reads(strings, F.Texts(x))
  {
    hide Scan, F.Print, F.Printable, F.Reads;
    var reader := new Reader(data);
    var _ := reader.ReadAll();
    strings := reader.strings;
    forall x: F.Contents | F.Printable(x) && F.Print(x) <= data
      ensures F.Reads(strings, F.Texts(x))
    {
      F.PrintedIsRead(x, data[|F.Print(x)|..]);
      assert F.Print(x) + data[|F.Print(x)|..] == data;
    }
  }

  // ── Splicing ────────────────────────────────────────────────────────────────

  datatype Patch = Patch(off: nat, len: nat, text: bytes)

  /** One pass of the splice loop: the guard skips a prefix that does not match. */
  function Splice(data: bytes, p: Patch): bytes
    requires |p.text| < U16_LIMIT
  {
    if p.off + 2 + p.len > |data| || U16(data, p.off) != p.len then data
    else data[..p.off] + P16(|p.text|) + p.text + data[p.off + 2 + p.len..]
  }

  /** The loop from the last patch down to the first. */
  function SpliceAll(data: bytes, ps: seq<Patch>): bytes
    requires forall p | p in ps :: |p.text| < U16_LIMIT
  {
    if ps == [] then data else Splice(SpliceAll(data, ps[1..]), ps[0])
  }

  function Patches(es: seq<Entry>, t: Texts, i: nat): (ps: seq<Patch>)
    ensures Fits(t) ==> forall p | p in ps :: |p.text| < U16_LIMIT
    ensures ps == [] <==> forall k | i <= k < i + |es| :: !Wanted(t, k)
  {
    if es == [] then [] else
    (if Wanted(t, i) then [Patch(es[0].off, es[0].len, t[i])] else []) + Patches(es[1..], t, i + 1)
  }

  /** Strings are recorded left to right without overlap, so the splice loop's order, by
      falling offset, is last patch first. */
  lemma {:induction false} OffsetsRise(c: Todo, rest: bytes, off: nat)
    ensures forall e | e in Scan(c, rest, off) :: off <= e.off
    ensures forall j, k | 0 <= j < k < |Scan(c, rest, off)| ::
      Scan(c, rest, off)[j].off + 2 + Scan(c, rest, off)[j].len <= Scan(c, rest, off)[k].off
    decreases |rest|
  {
    hide Next, Scan, Gaps;
    match Next(c, rest)
    case Halt => HaltUnfolds(c, rest, off);
    case Raw(w, n) =>
      RawUnfolds(c, rest, off, w, n);
      OffsetsRise(n, Drop(rest, w), off + w);
    case Str(n) =>
      var len := U16(rest, 0);
      StrUnfolds(c, rest, off, n, len);
      OffsetsRise(n, Drop(rest, 2 + len), off + 2 + len);
      assert Scan(c, rest, off)[1..] == Scan(n, Drop(rest, 2 + len), off + 2 + len);
  }

  /** Splicing at the recorded offsets, last string first, is the rewriting; the guard
      skips a clipped string and nothing else. */
  lemma {:induction false} SplicingRewrites(c: Todo, pre: bytes, rest: bytes, t: Texts, i: nat)
    requires Fits(t)
    ensures SpliceAll(pre + rest, Patches(Scan(c, rest, |pre|), t, i)) == pre + Rewritten(c, rest, t, i)
    decreases |rest|
  {
    hide Next, Scan, Gaps, Rewritten, U16, P16, Patches;
    RewrittenUnfolds(c, rest, t, i);
    match Next(c, rest)
    case Halt => HaltUnfolds(c, rest, |pre|);
    case Raw(w, n) =>
      RawUnfolds(c, rest, |pre|, w, n);
      if w > |rest| {
        ScanOfNothing(n, |pre| + w);
      } else {
        SplicingRewrites(n, pre + rest[..w], rest[w..], t, i);
        Regroup(pre, rest, w, Rewritten(n, rest[w..], t, i));
      }
    case Str(n) =>
      var k := 2 + U16(rest, 0);
      if k <= |rest| {
        SplicingRewrites(n, pre + rest[..k], rest[k..], t, i + 1);
      }
      SplicingRewritesStr(c, pre, rest, t, i, n);
  }

  lemma Regroup(pre: bytes, rest: bytes, w: nat, tail: bytes)
    requires w <= |rest|
    ensures pre + rest[..w] + rest[w..] == pre + rest
    ensures pre + rest[..w] + tail == pre + (rest[..w] + tail)
  {
  }

  lemma SplicingRewritesStr(c: Todo, pre: bytes, rest: bytes, t: Texts, i: nat, n: Todo)
    requires Fits(t) && Next(c, rest) == Str(n)
    requires var k := 2 + U16(rest, 0);
             k <= |rest| ==>
               SpliceAll(pre + rest[..k] + rest[k..], Patches(Scan(n, rest[k..], |pre| + k), t, i + 1))
               == pre + rest[..k] + Rewritten(n, rest[k..], t, i + 1)
    ensures SpliceAll(pre + rest, Patches(Scan(c, rest, |pre|), t, i)) == pre + Rewritten(c, rest, t, i)
  {
    hide Next, Scan, Gaps, Rewritten, U16, P16, Patches, SpliceAll, Splice;
    var len := U16(rest, 0);
    RewrittenUnfolds(c, rest, t, i);
    StrUnfolds(c, rest, |pre|, n, len);
    PatchesUnfold(Entry(|pre|, len, Take(Drop(rest, 2), len)), Scan(n, Drop(rest, 2 + len), |pre| + 2 + len), t, i);
    if 2 + len > |rest| {
      ScanOfNothing(n, |pre| + 2 + len);
      NoPatches(t, i + 1);
      ClippedIsSkipped(pre, rest, len, t, i);
    } else {
      var head, tail := rest[..2 + len], Rewritten(n, rest[2 + len..], t, i + 1);
      U16OfPrefix(rest, 2 + len);
      Regroup(pre, rest, 2 + len, tail);
      SpliceFirst(pre, head, tail, pre + rest, Patches(Scan(n, rest[2 + len..], |pre| + 2 + len), t, i + 1),
                  Patch(|pre|, len, if Wanted(t, i) then t[i] else []), Wanted(t, i));
      assert OneString(rest, len, t, i) == if Wanted(t, i) then P16(|t[i]|) + t[i] else head;
    }
  }

  lemma ClippedIsSkipped(pre: bytes, rest: bytes, len: nat, t: Texts, i: nat)
    requires Fits(t) && 2 + len > |rest|
    ensures SpliceAll(pre + rest, (if Wanted(t, i) then [Patch(|pre|, len, t[i])] else []) + []) == pre + rest
  {
    if Wanted(t, i) {
      SpliceAllUnfolds(pre + rest, Patch(|pre|, len, t[i]), []);
    }
  }

  lemma SpliceFirst(pre: bytes, head: bytes, tail: bytes, data: bytes, ps: seq<Patch>, p: Patch, wanted: bool)
    requires |p.text| < U16_LIMIT && forall q | q in ps :: |q.text| < U16_LIMIT
    requires p.off == |pre| && |head| == 2 + p.len && U16(head, 0) == p.len
    requires SpliceAll(data, ps) == pre + head + tail
    ensures SpliceAll(data, (if wanted then [p] else []) + ps)
            == pre + ((if wanted then P16(|p.text|) + p.text else head) + tail)
  {
    hide Splice, SpliceAll, U16, P16;
    if wanted {
      SpliceAllUnfolds(data, p, ps);
      SpliceHere(pre, head, tail, p);
      assert pre + P16(|p.text|) + p.text + tail == pre + (P16(|p.text|) + p.text + tail);
    } else {
      assert [] + ps == ps;
      assert pre + head + tail == pre + (head + tail);
    }
  }

  lemma U16OfPrefix(rest: bytes, k: nat)
    requires 2 <= k <= |rest|
    ensures U16(rest[..k], 0) == U16(rest, 0)
  {
  }

  lemma SpliceAllUnfolds(data: bytes, p: Patch, ps: seq<Patch>)
    requires |p.text| < U16_LIMIT && forall q | q in ps :: |q.text| < U16_LIMIT
    ensures SpliceAll(data, [p] + ps) == Splice(SpliceAll(data, ps), p)
  {
    assert ([p] + ps)[1..] == ps;
  }

  lemma NoPatches(t: Texts, i: nat)
    ensures Patches([], t, i) == []
  {
  }

  lemma PatchesUnfold(e: Entry, es: seq<Entry>, t: Texts, i: nat)
    ensures Patches([e] + es, t, i) ==
            (if Wanted(t, i) then [Patch(e.off, e.len, t[i])] else []) + Patches(es, t, i + 1)
  {
    assert ([e] + es)[1..] == es;
  }

  lemma SpliceHere(pre: bytes, head: bytes, tail: bytes, p: Patch)
    requires |p.text| < U16_LIMIT && p.off == |pre| && |head| == 2 + p.len && U16(head, 0) == p.len
    ensures Splice(pre + head + tail, p) == pre + P16(|p.text|) + p.text + tail
  {
    hide U16, P16;
    var d := pre + head + tail;
    ReadInside(pre, head, tail);
    assert d[..|pre|] == pre && d[|pre| + 2 + p.len..] == tail;
  }

  method CollectPatches(strings: seq<Entry>, t: Texts) returns (patches: seq<Patch>)
    ensures patches == Patches(strings, t, 0)
  {
    hide Patches;
    patches := [];
    assert strings[0..] == strings;
    for i := 0 to |strings|
      invariant patches + Patches(strings[i..], t, i) == Patches(strings, t, 0)
    {
      PatchesUnfold(strings[i], strings[i + 1..], t, i);
      assert strings[i..] == [strings[i]] + strings[i + 1..];
      if i in t && t[i] != [] {
        patches := patches + [Patch(strings[i].off, strings[i].len, t[i])];
      }
    }
    NoPatches(t, |strings|);
  }

  method SplicePatches(data: bytes, patches: seq<Patch>) returns (r: Outcome<bytes>)
    ensures (forall p | p in patches :: |p.text| < U16_LIMIT) ==> r == Done(SpliceAll(data, patches))
  {
    ghost var fits := forall p | p in patches :: |p.text| < U16_LIMIT;
    var result := data;
    var k := |patches|;
    while k > 0
      invariant 0 <= k <= |patches|
      invariant fits ==> result == SpliceAll(data, patches[k..])
    {
      k := k - 1;
      var p := patches[k];
      assert patches[k..][1..] == patches[k + 1..];
      assert fits ==> SpliceAll(data, patches[k..]) == Splice(result, p);
      if p.off + 2 + p.len > |result| || U16(result, p.off) != p.len { continue; }
      if |p.text| >= U16_LIMIT { return Raised; }
      result := result[..p.off] + P16(|p.text|) + p.text + result[p.off + 2 + p.len..];
    }
    assert patches[0..] == patches;
    r := Done(result);
  }

  lemma SomeWanted(t: Texts, n: nat)
    ensures (exists i | 0 <= i < n :: Wanted(t, i)) <==> exists i | i in t :: i < n && t[i] != []
  {
    if i :| i in t && i < n && t[i] != [] { assert Wanted(t, i); }
  }

  /** The rewritten bytes, and whether any string was wanted. */
  method RewriteVmadStrings(data: bytes, t: Texts) returns (r: Outcome<(bytes, bool)>)
    ensures Fits(t) ==> r.Done? && r.value.0 == Rewritten(Start, data, t, 0)
    ensures r.Done? ==> (r.value.1 <==> exists i | 0 <= i < |Scan(Start, data, 0)| :: Wanted(t, i))
    ensures r.Done? ==> (r.value.1 <==> exists i | i in t :: i < |Scan(Start, data, 0)| && t[i] != [])
  {
    hide Scan, Rewritten, SpliceAll;
    var strings := ParseVmadStrings(data);
    var patches := CollectPatches(strings, t);
    assert patches != [] <==> exists i | 0 <= i < |strings| :: Wanted(t, i);
    SomeWanted(t, |strings|);
    if Fits(t) { SplicingRewrites(Start, [], data, t, 0); }
    assert [] + data == data;
    assert Fits(t) ==> [] + Rewritten(Start, data, t, 0) == Rewritten(Start, data, t, 0);
    if patches == [] { NothingToSplice(data); return Done((data, false)); }
    var result :- SplicePatches(data, patches);
    return Done((result, true));
  }

  lemma NothingToSplice(data: bytes)
    ensures SpliceAll(data, []) == data
  {
  }
}
