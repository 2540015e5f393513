/** The walkers over plugin bytes, proved against the specification in Plugin. */
module PluginCode {
  import opened Bytes
  import opened Subrecords
  import opened Records
  import opened Plugin
  import V = Vmad
  import VC = VmadCode

  method ExtractVmad(env: Env, key: Key, data: bytes) returns (found: seq<Found>)
    ensures found == VmadTexts(env, key, V.Scan(V.Start, data, 0), 0)
  {
    hide V.Scan;
    var strings := VC.ParseVmadStrings(data);
    found := [];
    assert strings[0..] == strings;
    for si := 0 to |strings|
      invariant found + VmadTexts(env, key, strings[si..], si) == VmadTexts(env, key, strings, 0)
    {
      var e := strings[si];
      assert strings[si..][1..] == strings[si + 1..];
      if env.hasLetter(e.text) {
        found := found + [Found(key, Item(si), e.text, V.Clipped(e))];
      }
    }
  }

  method DecompressedData(env: Env, rec: Rec) returns (raw: Outcome<bytes>)
    ensures raw == RawData(env, rec)
  {
    if !Compressed(rec) { return Done(rec.payload); }
    if |rec.payload| < 4 { return Raised; }
    return env.inflate(rec.payload[4..]);
  }

  method ExtractFromField(env: Env, id: Id, seen: Seen, f: Field, index: nat) returns (found: seq<Found>)
    ensures found == FieldTexts(env, id, seen, f, index)
  {
    hide Eligible, CString;
    var key := KeyOf(id, f, index);
    if f.ftype == VMAD {
      found := ExtractVmad(env, key, f.data);
    } else if Eligible(id, seen, f.ftype) && f.data != [] && env.hasLetter(CString(f.data)) {
      found := [Found(key, Whole, CString(f.data), false)];
    } else {
      found := [];
    }
  }

  method ExtractStringsFromRecord(env: Env, rec: Rec) returns (r: Outcome<seq<Found>>)
    ensures r == ExtractRecord(env, rec)
  {
    hide Parse, FieldTexts, Observe, Ascii;
    if rec.rtype == TES4 { return Done([]); }
    var raw := DecompressedData(env, rec);
    if raw.Raised? { return Done([]); }
    var fields :- ParseSubrecords(raw.value);
    var results: seq<Found> := [];
    var seen := UNSEEN;
    ghost var id := RecId(rec);
    assert fields[0..] == fields;
    for fieldIndex := 0 to |fields|
      invariant results + ExtractFields(env, id, fields[fieldIndex..], seen, fieldIndex)
                == ExtractFields(env, id, fields, UNSEEN, 0)
      invariant results != [] ==> Ascii(rec.rtype)
    {
      var f := fields[fieldIndex];
      assert fields[fieldIndex..][1..] == fields[fieldIndex + 1..];
      seen := Observe(RecId(rec), seen, f);
      var found := ExtractFromField(env, RecId(rec), seen, f, fieldIndex);
      if found != [] && !Ascii(rec.rtype) { return Raised; }
      results := results + found;
    }
    assert results + [] == results;
    return Done(results);
  }

  /** The rewritten record's bytes, or none when nothing in it changed. */
  method ApplyTranslationsToRecord(env: Env, rec: Rec, tm: TransMap) returns (r: Outcome<Option<bytes>>)
    requires WellKeyed(tm) && WellFormedRec(rec)
    ensures r.Raised? <==> RewriteRecord(env, rec, tm).Raised?
    ensures r.Done? ==>
      var rec' := RewriteRecord(env, rec, tm).value;
      WellFormedRec(rec') && (if r.value.None? then rec' == rec else r.value.value == RecBytes(rec'))
  {
    hide Parse, Build, NewData, WellKeyed, Ascii;
    if rec.rtype == TES4 { return Done(None); }
    var raw := DecompressedData(env, rec);
    if raw.Raised? { return Done(None); }
    if !Ascii(rec.rtype) { return Raised; }
    ParsedTypes(raw.value);
    var fields :- ParseSubrecords(raw.value);
    ghost var id := RecId(rec);
    var newFields: seq<Field> := [];
    var changed := false;
    assert fields[0..] == fields;
    PrefixedByNothing(ApplyFields(env, id, fields, 0, tm));
    for fieldIndex := 0 to |fields|
      invariant Prefixed(newFields, changed, ApplyFields(env, id, fields[fieldIndex..], fieldIndex, tm))
                == ApplyFields(env, id, fields, 0, tm)
      invariant forall f | f in newFields :: |f.ftype| == 4
    {
      var f := fields[fieldIndex];
      assert fields[fieldIndex..][1..] == fields[fieldIndex + 1..];
      PrefixedUnfolds(env, id, fields, fieldIndex, tm, newFields, changed);
      var data :- ApplyToField(env, RecId(rec), f, fieldIndex, tm);
      match data {
        case Some(d) =>
          newFields := newFields + [Field(f.ftype, d)];
          changed := true;
        case None =>
          newFields := newFields + [f];
      }
    }
    assert newFields + [] == newFields;
    if !changed { return Done(None); }
    var newRaw :- BuildSubrecords(newFields);
    var payload := newRaw;
    if Compressed(rec) {
      if |newRaw| >= U32_LIMIT { return Raised; }
      payload := P32(|newRaw|) + env.deflate(newRaw);
    }
    if |payload| >= U32_LIMIT { return Raised; }
    return Done(Some(rec.rtype + P32(|payload|) + P32(rec.flags) + P32(rec.formId) + rec.rest + payload));
  }

  function Prefixed(fs: seq<Field>, changed: bool, a: Outcome<Applied>): Outcome<Applied> {
    match a
    case Raised => Raised
    case Done(x) => Done(Applied(fs + x.fields, changed || x.changed))
  }

  lemma PrefixedByNothing(a: Outcome<Applied>)
    ensures Prefixed([], false, a) == a
  {
    if a.Done? { assert [] + a.value.fields == a.value.fields; }
  }

  lemma PrefixedUnfolds(env: Env, id: Id, fields: seq<Field>, k: nat, tm: TransMap, fs: seq<Field>, changed: bool)
    requires WellKeyed(tm) && k < |fields|
    ensures var rest := ApplyFields(env, id, fields[k + 1..], k + 1, tm);
            Prefixed(fs, changed, ApplyFields(env, id, fields[k..], k, tm)) ==
            match NewData(env, id, fields[k], k, tm) {
              case Raised => Raised
              case Done(None) => Prefixed(fs + [fields[k]], changed, rest)
              case Done(Some(d)) => Prefixed(fs + [Field(fields[k].ftype, d)], true, rest)
            }
  {
    hide NewData, WellKeyed;
    assert fields[k..][1..] == fields[k + 1..];
    var rest := ApplyFields(env, id, fields[k + 1..], k + 1, tm);
    if rest.Done? {
      forall g: Field
        ensures fs + ([g] + rest.value.fields) == fs + [g] + rest.value.fields
      {
      }
    }
  }

  method ApplyToField(env: Env, id: Id, f: Field, index: nat, tm: TransMap) returns (r: Outcome<Option<bytes>>)
    requires WellKeyed(tm)
    ensures r == NewData(env, id, f, index, tm)
  {
    hide V.Scan, V.Rewritten;
    var key := KeyOf(id, f, index);
    if f.ftype == VMAD && key in tm.vmads {
      var rewritten := VC.RewriteVmadStrings(f.data, tm.vmads[key]);
      if rewritten.value.1 { return Done(Some(rewritten.value.0)); }
      // The entry is still there under the same key, and a mapping is not a text.
      return if tm.vmads[key] == map[] then Done(None) else Raised;
    }
    if !Ascii(f.ftype) { return Raised; }
    if key in tm.texts {
      var translation := tm.texts[key];
      if translation != [] && !env.isBlank(translation) {
        return Done(Some(translation + [0]));
      }
    }
    return Done(None);
  }

  // ── Walking the bytes ───────────────────────────────────────────────────────

  /** The bytes from `off` to `end` are these nodes. */
  predicate Holds(buf: bytes, off: nat, end: nat, nodes: seq<Node>) {
    off <= end <= |buf| && WellFormed(nodes) && buf[off..end] == Render(nodes)
  }

  lemma ReadSlice(buf: bytes, off: nat, end: nat, k: nat)
    requires off <= end <= |buf| && k + 4 <= end - off
    ensures U32(buf, off + k) == U32(buf[off..end], k)
  {
    var s := buf[off..end];
    assert forall i | k <= i < k + 4 :: s[i] == buf[off + i];
  }

  lemma SliceOfSlice(buf: bytes, off: nat, end: nat, a: nat, b: nat)
    requires off <= end <= |buf| && a <= b <= end - off
    ensures buf[off + a..off + b] == buf[off..end][a..b]
  {
    var s := buf[off..end];
    assert |buf[off + a..off + b]| == |s[a..b]|;
    forall i | 0 <= i < b - a
      ensures buf[off + a..off + b][i] == s[a..b][i]
    {
      assert s[a..b][i] == s[a + i] == buf[off + (a + i)];
    }
  }

  /** What the header fields of a record at `off` read as. */
  lemma RecordHeader(buf: bytes, off: nat, end: nat, r: Rec, tail: bytes)
    requires off <= end <= |buf| && WellFormedRec(r) && buf[off..end] == RecBytes(r) + tail
    ensures off + 24 + |r.payload| <= end
    ensures buf[off..off + 4] == r.rtype && U32(buf, off + 4) == |r.payload|
    ensures U32(buf, off + 8) == r.flags && U32(buf, off + 12) == r.formId
    ensures buf[off + 16..off + 24] == r.rest
    ensures buf[off + 24..off + 24 + |r.payload|] == r.payload
    ensures buf[off..off + 24 + |r.payload|] == RecBytes(r)
    ensures buf[off + 24 + |r.payload|..end] == tail
  {
    hide U32, P32;
    var s := buf[off..end];
    var size, flags, form := P32(|r.payload|), P32(r.flags), P32(r.formId);
    var rest := r.rest + r.payload + tail;
    ReadInside(r.rtype, size, flags + form + rest);
    assert s == r.rtype + size + (flags + form + rest);
    ReadInside(r.rtype + size, flags, form + rest);
    assert s == r.rtype + size + flags + (form + rest);
    ReadInside(r.rtype + size + flags, form, rest);
    assert s == r.rtype + size + flags + form + rest;
    ReadSlice(buf, off, end, 4);
    ReadSlice(buf, off, end, 8);
    ReadSlice(buf, off, end, 12);
    var n := 24 + |r.payload|;
    SliceOfSlice(buf, off, end, 0, 4);
    SliceOfSlice(buf, off, end, 16, 24);
    SliceOfSlice(buf, off, end, 24, n);
    SliceOfSlice(buf, off, end, 0, n);
    SliceOfSlice(buf, off, end, n, end - off);
    assert s[0..4] == r.rtype && s[16..24] == r.rest && s[24..n] == r.payload;
    assert s[0..n] == RecBytes(r) && s[n..end - off] == tail;
  }

  lemma GroupHeader(buf: bytes, off: nat, end: nat, stamp: bytes, kids: seq<Node>, tail: bytes)
    requires off <= end <= |buf| && WellFormedNode(Group(stamp, kids))
    requires buf[off..end] == RenderOne(Group(stamp, kids)) + tail
    ensures off + 24 + Size(kids) <= end
    ensures buf[off..off + 4] == GRUP && U32(buf, off + 4) == 24 + Size(kids)
    ensures buf[off + 8..off + 24] == stamp
    ensures buf[off + 24..off + 24 + Size(kids)] == Render(kids)
    ensures buf[off + 24 + Size(kids)..end] == tail
  {
    hide U32, P32, Render;
    var s := buf[off..end];
    var size := P32(24 + Size(kids));
    ReadInside(GRUP, size, stamp + Render(kids) + tail);
    assert s == GRUP + size + (stamp + Render(kids) + tail);
    ReadSlice(buf, off, end, 4);
    var n := 24 + Size(kids);
    SliceOfSlice(buf, off, end, 0, 4);
    SliceOfSlice(buf, off, end, 8, 24);
    SliceOfSlice(buf, off, end, 24, n);
    SliceOfSlice(buf, off, end, n, end - off);
    assert s[0..4] == GRUP && s[8..24] == stamp;
    assert s[24..n] == Render(kids) && s[n..end - off] == tail;
  }

  /** What the iterator finds at the head of a stretch that is not empty. */
  lemma HeadOf(buf: bytes, off: nat, end: nat, nodes: seq<Node>)
    requires Holds(buf, off, end, nodes)
    ensures off < end <==> nodes != []
    ensures nodes != [] ==> off + 24 <= end
    ensures nodes != [] && nodes[0].Record? ==>
      var r := nodes[0].rec;
      && r.rtype != GRUP
      && buf[off..off + 4] == r.rtype && U32(buf, off + 4) == |r.payload|
      && U32(buf, off + 8) == r.flags && U32(buf, off + 12) == r.formId
      && off + 24 + |r.payload| <= end
      && buf[off + 16..off + 24] == r.rest && buf[off + 24..off + 24 + |r.payload|] == r.payload
      && buf[off..off + 24 + |r.payload|] == RecBytes(r)
      && Holds(buf, off + 24 + |r.payload|, end, nodes[1..])
    ensures nodes != [] && nodes[0].Group? ==>
      var kids := nodes[0].kids;
      && buf[off..off + 4] == GRUP && U32(buf, off + 4) == 24 + Size(kids)
      && off + 24 + Size(kids) <= end
      && buf[off + 8..off + 24] == nodes[0].stamp
      && Holds(buf, off + 24, off + 24 + Size(kids), kids)
      && Holds(buf, off + 24 + Size(kids), end, nodes[1..])
  {
    hide RecBytes, U32;
    if nodes != [] {
      assert Render(nodes) == RenderOne(nodes[0]) + Render(nodes[1..]);
      SliceOfSlice(buf, off, end, SizeOne(nodes[0]), end - off);
      match nodes[0]
      case Record(r) => RecordHeader(buf, off, end, r, Render(nodes[1..]));
      case Group(stamp, kids) => GroupHeader(buf, off, end, stamp, kids, Render(nodes[1..]));
    }
  }

  method Walk(env: Env, buf: bytes, off: nat, end: nat, ghost nodes: seq<Node>) returns (r: Outcome<seq<Found>>)
    requires Holds(buf, off, end, nodes)
    ensures r == Extract(env, nodes)
    decreases end - off
  {
    hide U32, ExtractRecord, RecBytes, Render, WellFormed;
    var all: seq<Found> := [];
    var offset := off;
    ghost var left := nodes;
    AppendNothing(Extract(env, nodes));
    while offset < end
      invariant off <= offset && Holds(buf, offset, end, left)
      invariant Append(all, Extract(env, left)) == Extract(env, nodes)
      decreases end - offset
    {
      HeadOf(buf, offset, end, left);
      ExtractedUnfolds(env, all, left);
      if offset + 24 > end { break; }
      var rtype := buf[offset..offset + 4];
      var size := U32(buf, offset + 4);
      if rtype == GRUP {
        var inner :- Walk(env, buf, offset + 24, offset + size, left[0].kids);
        all := all + inner;
        offset := offset + size;
      } else {
        var rec := Rec(rtype, U32(buf, offset + 8), U32(buf, offset + 12),
                       buf[offset + 16..offset + 24], buf[offset + 24..offset + 24 + size]);
        var found :- ExtractStringsFromRecord(env, rec);
        all := all + found;
        offset := offset + 24 + size;
      }
      left := left[1..];
    }
    HeadOf(buf, offset, end, left);
    assert all + [] == all;
    return Done(all);
  }

  lemma ExtractedUnfolds(env: Env, xs: seq<Found>, nodes: seq<Node>)
    requires nodes != []
    ensures Append(xs, Extract(env, nodes)) ==
            match ExtractNode(env, nodes[0]) {
              case Raised => Raised
              case Done(y) => Append(xs + y, Extract(env, nodes[1..]))
            }
  {
    if ExtractNode(env, nodes[0]).Done? {
      AppendAppend(xs, ExtractNode(env, nodes[0]).value, Extract(env, nodes[1..]));
    }
  }

  method RewriteChunk(env: Env, buf: bytes, off: nat, end: nat, tm: TransMap, ghost nodes: seq<Node>)
    returns (r: Outcome<bytes>)
    requires WellKeyed(tm) && Holds(buf, off, end, nodes)
    ensures r.Raised? <==> Rewrite(env, nodes, tm).Raised?
    ensures r.Done? ==> r.value == Render(Rewrite(env, nodes, tm).value)
    decreases end - off
  {
    hide U32, P32, RecBytes, Render, RewriteRecord, WellFormed, WellKeyed;
    var out: bytes := [];
    var offset := off;
    ghost var left, made := nodes, [];
    RenderNothing();
    AppendNothing(Rewrite(env, nodes, tm));
    while offset < end
      invariant off <= offset && Holds(buf, offset, end, left)
      invariant WellFormed(made) && out == Render(made)
      invariant Append(made, Rewrite(env, left, tm)) == Rewrite(env, nodes, tm)
      decreases end - offset
    {
      HeadOf(buf, offset, end, left);
      RewrittenUnfolds(env, made, left, tm);
      if offset + 24 > end { break; }
      var rtype := buf[offset..offset + 4];
      var size := U32(buf, offset + 4);
      if rtype == GRUP {
        var inner :- RewriteChunk(env, buf, offset + 24, offset + size, tm, left[0].kids);
        var newSize := 24 + |inner|;
        if newSize >= U32_LIMIT { return Raised; }
        out := out + (buf[offset..offset + 4] + P32(newSize) + buf[offset + 8..offset + 24] + inner);
        offset := offset + size;
      } else {
        var rec := Rec(rtype, U32(buf, offset + 8), U32(buf, offset + 12),
                       buf[offset + 16..offset + 24], buf[offset + 24..offset + 24 + size]);
        WellFormedHead(left);
        var newRec :- ApplyTranslationsToRecord(env, rec, tm);
        if newRec.Some? {
          out := out + newRec.value;
        } else {
          out := out + buf[offset..offset + 24 + size];
        }
        offset := offset + 24 + size;
      }
      WellFormedHead(left);
      ghost var node := RewriteNode(env, left[0], tm).value;
      RenderAppends(made, node);
      made := made + [node];
      left := left[1..];
    }
    HeadOf(buf, offset, end, left);
    assert made + [] == made;
    return Done(out);
  }

  lemma RewrittenUnfolds(env: Env, xs: seq<Node>, nodes: seq<Node>, tm: TransMap)
    requires WellKeyed(tm) && nodes != []
    ensures Append(xs, Rewrite(env, nodes, tm)) ==
            match RewriteNode(env, nodes[0], tm) {
              case Raised => Raised
              case Done(y) => Append(xs + [y], Rewrite(env, nodes[1..], tm))
            }
  {
    hide WellKeyed;
    if RewriteNode(env, nodes[0], tm).Done? {
      AppendAppend(xs, [RewriteNode(env, nodes[0], tm).value], Rewrite(env, nodes[1..], tm));
    }
  }

  lemma RenderNothing()
    ensures WellFormed([]) && Render([]) == []
  {
  }

  lemma WellFormedHead(nodes: seq<Node>)
    requires WellFormed(nodes) && nodes != []
    ensures WellFormedNode(nodes[0])
  {
  }

  lemma {:induction false} RenderAppends(nodes: seq<Node>, node: Node)
    requires WellFormed(nodes) && WellFormedNode(node)
    ensures WellFormed(nodes + [node]) && Render(nodes + [node]) == Render(nodes) + RenderOne(node)
  {
    if nodes == [] {
      assert [node][1..] == [];
      assert [] + [node] == [node];
    } else {
      RenderAppends(nodes[1..], node);
      assert (nodes + [node])[1..] == nodes[1..] + [node];
    }
  }

  /** The file is exactly the nodes: the output is again a plugin with every size right. */
  method RewriteEsp(env: Env, data: bytes, tm: TransMap, ghost nodes: seq<Node>) returns (r: Outcome<bytes>)
    requires WellKeyed(tm) && WellFormed(nodes) && data == Render(nodes)
    ensures r.Raised? <==> Rewrite(env, nodes, tm).Raised?
    ensures Usable(env, tm) && AllReadable(env, nodes) && Addressed(env, nodes, tm) ==>
              (r.Raised? <==> Outgrows(env, nodes, tm))
    ensures r.Done? ==> Holds(r.value, 0, |r.value|, Rewrite(env, nodes, tm).value)
  {
    hide WellKeyed, WellFormed, Render, Usable, AllReadable, Addressed, Outgrows, Rewrite;
    if Usable(env, tm) && AllReadable(env, nodes) && Addressed(env, nodes, tm) { OnlySizesRaise(env, nodes, tm); }
    assert data[0..|data|] == data;
    r := RewriteChunk(env, data, 0, |data|, tm, nodes);
    if r.Done? { assert r.value[0..|r.value|] == r.value; }
  }
}
