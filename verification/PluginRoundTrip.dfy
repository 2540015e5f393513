/** Extract, translate, build the map, rewrite, extract again (scripts/esp_engine.py). */
module PluginRoundTrip {
  import opened Bytes
  import opened Subrecords
  import opened Records
  import opened Plugin
  import V = Vmad

  // ── The translation map ─────────────────────────────────────────────────────

  predicate Skipped(env: Env, t: bytes) {
    t == [] || env.isBlank(t)
  }

  function AddEntry(env: Env, tm: TransMap, x: Found, t: bytes): TransMap {
    if Skipped(env, t) then tm
    else match x.slot
      case Whole => tm.(texts := tm.texts[x.key := t])
      case Item(i) =>
        var m: V.Texts := if x.key in tm.vmads then tm.vmads[x.key] else map[];
        tm.(vmads := tm.vmads[x.key := m[i := t]])
  }

  function MapOf(env: Env, found: seq<Found>, trans: seq<bytes>): TransMap
    requires |trans| == |found|
  {
    if found == [] then NO_TRANSLATIONS
    else
      var n := |found| - 1;
      AddEntry(env, MapOf(env, found[..n], trans[..n]), found[n], trans[n])
  }

  method BuildTransMap(env: Env, found: seq<Found>, trans: seq<bytes>) returns (tm: TransMap)
    requires |trans| == |found|
    ensures tm == MapOf(env, found, trans)
  {
    tm := NO_TRANSLATIONS;
    for i := 0 to |found|
      invariant tm == MapOf(env, found[..i], trans[..i])
    {
      assert found[..i + 1][..i] == found[..i] && trans[..i + 1][..i] == trans[..i];
      var x, t := found[i], trans[i];
      if t == [] || env.isBlank(t) { continue; }
      match x.slot {
        case Whole =>
          tm := tm.(texts := tm.texts[x.key := t]);
        case Item(k) =>
          var m: V.Texts := if x.key in tm.vmads then tm.vmads[x.key] else map[];
          tm := tm.(vmads := tm.vmads[x.key := m[k := t]]);
      }
    }
    assert found[..|found|] == found && trans[..|found|] == trans;
  }

  /** Translation t may be written at x: it has letters, no NUL in a zero-terminated
      field, and fits the length prefix of a VMAD string. */
  predicate Writes(env: Env, x: Found, t: bytes) {
    && (x.slot.Whole? <==> x.key.ftype != VMAD)
    && (Skipped(env, t) || (env.hasLetter(t) && if x.slot.Whole? then 0 !in t else |t| < U16_LIMIT))
  }

  predicate AllWrites(env: Env, found: seq<Found>, trans: seq<bytes>)
    requires |trans| == |found|
  {
    forall j | 0 <= j < |found| :: Writes(env, found[j], trans[j])
  }

  /** The map holds the translation given for x, or none when it is skipped. */
  predicate Reflects(env: Env, tm: TransMap, x: Found, t: bytes) {
    match x.slot
    case Whole =>
      if Skipped(env, t) then x.key !in tm.texts
      else x.key in tm.texts && tm.texts[x.key] == t
    case Item(i) =>
      if Skipped(env, t) then x.key in tm.vmads ==> i !in tm.vmads[x.key]
      else x.key in tm.vmads && i in tm.vmads[x.key] && tm.vmads[x.key][i] == t
  }

  /** No two texts stand in the same place. */
  predicate DistinctPlaces(found: seq<Found>) {
    forall j, k | 0 <= j < k < |found| :: found[j].key != found[k].key || found[j].slot != found[k].slot
  }

  lemma {:induction false} MapReflects(env: Env, found: seq<Found>, trans: seq<bytes>)
    requires |trans| == |found| && DistinctPlaces(found)
    ensures forall j | 0 <= j < |found| :: Reflects(env, MapOf(env, found, trans), found[j], trans[j])
    decreases |found|
  {
    if found != [] {
      var n := |found| - 1;
      MapReflects(env, found[..n], trans[..n]);
      var before, after := MapOf(env, found[..n], trans[..n]), MapOf(env, found, trans);
      forall j | 0 <= j < n
        ensures Reflects(env, after, found[j], trans[j])
      {
        assert found[j] == found[..n][j] && trans[j] == trans[..n][j];
        assert Reflects(env, before, found[j], trans[j]);
      }
      OnlyNamedPlaces(env, found[..n], trans[..n]);
      assert forall j | 0 <= j < n :: found[..n][j] == found[j];
      NamedHas(env, before, found[..n], trans[..n], found[n]);
    }
  }

  lemma NamedHas(env: Env, tm: TransMap, found: seq<Found>, trans: seq<bytes>, x: Found)
    requires |trans| == |found| && AllNamed(env, tm, found, trans)
    ensures (match x.slot case Whole => x.key in tm.texts
                          case Item(i) => x.key in tm.vmads && i in tm.vmads[x.key])
            ==> exists j | 0 <= j < |found| :: found[j].key == x.key && found[j].slot == x.slot
  {
    match x.slot
    case Whole => assert x.key in tm.texts ==> NamedAt(env, found, trans, x.key, Whole, tm.texts[x.key]);
    case Item(i) =>
      assert x.key in tm.vmads && i in tm.vmads[x.key]
             ==> NamedAt(env, found, trans, x.key, Item(i), tm.vmads[x.key][i]);
  }

  /** Every entry of the map comes from a reported text and its translation. */
  predicate NamedAt(env: Env, found: seq<Found>, trans: seq<bytes>, key: Key, slot: Slot, t: bytes)
    requires |trans| == |found|
  {
    exists j | 0 <= j < |found| :: found[j].key == key && found[j].slot == slot && trans[j] == t && !Skipped(env, t)
  }

  predicate AllNamed(env: Env, tm: TransMap, found: seq<Found>, trans: seq<bytes>)
    requires |trans| == |found|
  {
    && (forall k | k in tm.texts :: NamedAt(env, found, trans, k, Whole, tm.texts[k]))
    && (forall k | k in tm.vmads :: tm.vmads[k] != map[])
    && (forall k, i | k in tm.vmads && i in tm.vmads[k] :: NamedAt(env, found, trans, k, Item(i), tm.vmads[k][i]))
  }

  lemma NamedLater(env: Env, found: seq<Found>, trans: seq<bytes>, key: Key, slot: Slot, t: bytes)
    requires |trans| == |found| && found != []
    requires NamedAt(env, found[..|found| - 1], trans[..|found| - 1], key, slot, t)
    ensures NamedAt(env, found, trans, key, slot, t)
  {
    var n := |found| - 1;
    var j :| 0 <= j < n && found[..n][j].key == key && found[..n][j].slot == slot && trans[..n][j] == t;
    assert found[j] == found[..n][j] && trans[j] == trans[..n][j];
  }

  lemma {:induction false} OnlyNamedPlaces(env: Env, found: seq<Found>, trans: seq<bytes>)
    requires |trans| == |found|
    ensures AllNamed(env, MapOf(env, found, trans), found, trans)
    decreases |found|
  {
    if found != [] {
      var n := |found| - 1;
      var before, after := MapOf(env, found[..n], trans[..n]), MapOf(env, found, trans);
      OnlyNamedPlaces(env, found[..n], trans[..n]);
      hide MapOf;
      var x, t := found[n], trans[n];
      forall k | k in after.texts
        ensures NamedAt(env, found, trans, k, Whole, after.texts[k])
      {
        if k in before.texts && before.texts[k] == after.texts[k] {
          NamedLater(env, found, trans, k, Whole, after.texts[k]);
        } else {
          assert found[n].key == k && found[n].slot == Whole && trans[n] == after.texts[k];
        }
      }
      forall k, i | k in after.vmads && i in after.vmads[k]
        ensures NamedAt(env, found, trans, k, Item(i), after.vmads[k][i])
      {
        if k in before.vmads && i in before.vmads[k] && before.vmads[k][i] == after.vmads[k][i] {
          NamedLater(env, found, trans, k, Item(i), after.vmads[k][i]);
        } else {
          assert found[n].key == k && found[n].slot == Item(i) && trans[n] == after.vmads[k][i];
        }
      }
      forall k | k in after.vmads
        ensures after.vmads[k] != map[]
      {
        if k in before.vmads && after.vmads[k] == before.vmads[k] {
        } else {
          assert x.slot.i in after.vmads[k];
        }
      }
    }
  }

  lemma MapIsUsable(env: Env, found: seq<Found>, trans: seq<bytes>)
    requires |trans| == |found| && AllWrites(env, found, trans)
    ensures Usable(env, MapOf(env, found, trans))
  {
    hide MapOf;
    OnlyNamedPlaces(env, found, trans);
    var tm := MapOf(env, found, trans);
    forall k | k in tm.texts
      ensures k.ftype != VMAD && Writes(env, Found(k, Whole, [], false), tm.texts[k]) && !Skipped(env, tm.texts[k])
    {
      assert NamedAt(env, found, trans, k, Whole, tm.texts[k]);
    }
    forall k, i | k in tm.vmads && i in tm.vmads[k]
      ensures !Skipped(env, tm.vmads[k][i]) && env.hasLetter(tm.vmads[k][i]) && |tm.vmads[k][i]| < U16_LIMIT
    {
      assert NamedAt(env, found, trans, k, Item(i), tm.vmads[k][i]);
    }
    forall k | k in tm.vmads
      ensures V.Fits(tm.vmads[k])
    {
      forall i | i in tm.vmads[k]
        ensures |tm.vmads[k][i]| < U16_LIMIT
      {
      }
    }
  }

  // ── Places inside one record ────────────────────────────────────────────────

  lemma {:induction false} VmadPlaces(env: Env, key: Key, es: seq<V.Entry>, i: nat)
    ensures forall x | x in VmadTexts(env, key, es, i) ::
      x.key == key && x.slot.Item? && i <= x.slot.i < i + |es| && env.hasLetter(es[x.slot.i - i].text)
    ensures DistinctPlaces(VmadTexts(env, key, es, i))
    decreases |es|
  {
    if es != [] {
      VmadPlaces(env, key, es[1..], i + 1);
      var h := if env.hasLetter(es[0].text) then [Found(key, Item(i), es[0].text, V.Clipped(es[0]))] else [];
      var xs, tail := VmadTexts(env, key, es, i), VmadTexts(env, key, es[1..], i + 1);
      assert xs == h + tail;
      JoinDistinct(h, tail);
    }
  }

  lemma JoinDistinct(a: seq<Found>, b: seq<Found>)
    requires DistinctPlaces(a) && DistinctPlaces(b)
    requires forall x, y | x in a && y in b :: x.key != y.key || x.slot != y.slot
    ensures DistinctPlaces(a + b)
  {
    var c := a + b;
    forall j, k | 0 <= j < k < |c|
      ensures c[j].key != c[k].key || c[j].slot != c[k].slot
    {
      if j < |a| <= k { assert c[j] in a && c[k] in b; }
    }
  }

  lemma FieldPlaces(env: Env, id: Id, s: Seen, f: Field, index: nat)
    ensures var xs := FieldTexts(env, id, s, f, index);
            && (forall x | x in xs :: x.key == KeyOf(id, f, index) && (x.slot.Whole? <==> f.ftype != VMAD))
            && DistinctPlaces(xs)
  {
    hide VmadStrings, VmadTexts;
    if f.ftype == VMAD { VmadPlaces(env, KeyOf(id, f, index), VmadStrings(f), 0); }
  }

  lemma {:induction false} FieldsPlaces(env: Env, id: Id, fs: seq<Field>, s: Seen, index: nat)
    ensures var xs := ExtractFields(env, id, fs, s, index);
            && (forall x | x in xs ::
                  Id(x.key.formId, x.key.rtype) == id && x.key.index >= index
                  && (x.slot.Whole? <==> x.key.ftype != VMAD))
            && DistinctPlaces(xs)
    decreases |fs|
  {
    hide FieldTexts, Observe;
    if fs != [] {
      var s' := Observe(id, s, fs[0]);
      FieldPlaces(env, id, s', fs[0], index);
      FieldsPlaces(env, id, fs[1..], s', index + 1);
      JoinDistinct(FieldTexts(env, id, s', fs[0], index), ExtractFields(env, id, fs[1..], s', index + 1));
    }
  }

  ghost predicate HasPlace(xs: seq<Found>, key: Key, slot: Slot) {
    exists x | x in xs :: x.key == key && x.slot == slot
  }

  /** The map names only places reported in xs, as far as this record's fields from
      `index` on are concerned. */
  ghost predicate Sourced(tm: TransMap, id: Id, index: nat, xs: seq<Found>) {
    && (forall k | k in tm.texts && Id(k.formId, k.rtype) == id && k.index >= index :: HasPlace(xs, k, Whole))
    && (forall k | k in tm.vmads :: tm.vmads[k] != map[])
    && (forall k, i | k in tm.vmads && i in tm.vmads[k] && Id(k.formId, k.rtype) == id && k.index >= index ::
          HasPlace(xs, k, Item(i)))
  }

  lemma SourcedField(env: Env, id: Id, s: Seen, f: Field, index: nat, tm: TransMap, xs: seq<Found>)
    requires Sourced(tm, id, index, xs)
    requires forall x | x in xs && x.key.index == index :: x in FieldTexts(env, id, s, f, index)
    ensures FieldAddressed(env, id, s, f, index, tm)
  {
    hide Eligible, CString;
    var key := KeyOf(id, f, index);
    FieldPlaces(env, id, s, f, index);
    if f.ftype == VMAD {
      VmadPlaces(env, key, VmadStrings(f), 0);
      if key in tm.vmads {
        forall i | i in tm.vmads[key]
          ensures var es := VmadStrings(f);
                  i < |es| && env.hasLetter(es[i].text)
        {
          assert HasPlace(xs, key, Item(i));
          var x :| x in xs && x.key == key && x.slot == Item(i);
          assert x in VmadTexts(env, key, VmadStrings(f), 0);
          assert VmadStrings(f)[i] in VmadStrings(f);
        }
      }
    } else if key in tm.texts {
      assert HasPlace(xs, key, Whole);
      var x :| x in xs && x.key == key && x.slot == Whole;
    }
  }

  lemma {:induction false} SourcedFields(env: Env, id: Id, fs: seq<Field>, s: Seen, index: nat, tm: TransMap)
    requires Sourced(tm, id, index, ExtractFields(env, id, fs, s, index))
    ensures FieldsAddressed(env, id, fs, s, index, tm)
    decreases |fs|
  {
    hide FieldTexts, Observe, FieldAddressed;
    if fs != [] {
      var s' := Observe(id, s, fs[0]);
      var a, b := FieldTexts(env, id, s', fs[0], index), ExtractFields(env, id, fs[1..], s', index + 1);
      FieldPlaces(env, id, s', fs[0], index);
      FieldsPlaces(env, id, fs[1..], s', index + 1);
      SourcedField(env, id, s', fs[0], index, tm, a + b);
      SourcedLater(tm, id, index, a, b);
      SourcedFields(env, id, fs[1..], s', index + 1, tm);
    }
  }

  lemma SourcedLater(tm: TransMap, id: Id, index: nat, a: seq<Found>, b: seq<Found>)
    requires Sourced(tm, id, index, a + b) && forall x | x in a :: x.key.index == index
    ensures Sourced(tm, id, index + 1, b)
  {
    forall k | k in tm.texts && Id(k.formId, k.rtype) == id && k.index >= index + 1
      ensures HasPlace(b, k, Whole)
    {
      assert HasPlace(a + b, k, Whole);
      var x :| x in a + b && x.key == k && x.slot == Whole;
      assert x in b;
    }
    forall k, i | k in tm.vmads && i in tm.vmads[k] && Id(k.formId, k.rtype) == id && k.index >= index + 1
      ensures HasPlace(b, k, Item(i))
    {
      assert HasPlace(a + b, k, Item(i));
      var x :| x in a + b && x.key == k && x.slot == Item(i);
      assert x in b;
    }
  }

  // ── Records of the whole plugin ─────────────────────────────────────────────

  function AllRecords(nodes: seq<Node>): seq<Rec> {
    if nodes == [] then [] else RecordsOf(nodes[0]) + AllRecords(nodes[1..])
  }

  function RecordsOf(node: Node): seq<Rec> {
    match node
    case Record(r) => [r]
    case Group(_, kids) => AllRecords(kids)
  }

  function ExtractAll(env: Env, recs: seq<Rec>): seq<Found> {
    if recs == [] then [] else
    (match ExtractRecord(env, recs[0]) case Done(xs) => xs case Raised => []) + ExtractAll(env, recs[1..])
  }

  lemma {:induction false} ExtractAllSplits(env: Env, a: seq<Rec>, b: seq<Rec>)
    ensures ExtractAll(env, a + b) == ExtractAll(env, a) + ExtractAll(env, b)
  {
    hide ExtractRecord;
    if a == [] {
      assert a + b == b;
    } else {
      assert (a + b)[1..] == a[1..] + b;
      ExtractAllSplits(env, a[1..], b);
    }
  }

  lemma {:induction false} ExtractFlattens(env: Env, nodes: seq<Node>)
    requires Extract(env, nodes).Done?
    ensures Extract(env, nodes).value == ExtractAll(env, AllRecords(nodes))
    decreases nodes
  {
    hide ExtractRecord;
    if nodes != [] {
      ExtractFlattensNode(env, nodes[0]);
      ExtractFlattens(env, nodes[1..]);
      ExtractAllSplits(env, RecordsOf(nodes[0]), AllRecords(nodes[1..]));
    }
  }

  lemma {:induction false} ExtractFlattensNode(env: Env, node: Node)
    requires ExtractNode(env, node).Done?
    ensures ExtractNode(env, node).value == ExtractAll(env, RecordsOf(node))
    decreases node
  {
    hide ExtractRecord;
    match node
    case Record(r) => assert ExtractAll(env, [r][1..]) == [];
    case Group(_, kids) => ExtractFlattens(env, kids);
  }

  lemma {:induction false} AddressedFlattens(env: Env, nodes: seq<Node>, tm: TransMap)
    requires forall r | r in AllRecords(nodes) :: RecordAddressed(env, r, tm)
    ensures Addressed(env, nodes, tm)
    decreases nodes
  {
    hide RecordAddressed;
    if nodes != [] {
      assert forall r | r in RecordsOf(nodes[0]) :: r in AllRecords(nodes);
      AddressedFlattensNode(env, nodes[0], tm);
      AddressedFlattens(env, nodes[1..], tm);
    }
  }

  lemma {:induction false} AddressedFlattensNode(env: Env, node: Node, tm: TransMap)
    requires forall r | r in RecordsOf(node) :: RecordAddressed(env, r, tm)
    ensures NodeAddressed(env, node, tm)
    decreases node
  {
    hide RecordAddressed;
    match node
    case Record(r) => assert r in RecordsOf(node);
    case Group(_, kids) => AddressedFlattens(env, kids, tm);
  }

  /** No two records carry the same form id and type. */
  predicate DistinctIds(recs: seq<Rec>) {
    forall j, k | 0 <= j < k < |recs| :: RecId(recs[j]) != RecId(recs[k])
  }

  lemma RecordPlaces(env: Env, r: Rec)
    ensures ExtractRecord(env, r).Done? ==>
      var xs := ExtractRecord(env, r).value;
      && (forall x | x in xs :: Id(x.key.formId, x.key.rtype) == RecId(r) && (x.slot.Whole? <==> x.key.ftype != VMAD))
      && DistinctPlaces(xs)
  {
    match FieldsOf(env, r)
    case Done(Some(fs)) => FieldsPlaces(env, RecId(r), fs, UNSEEN, 0);
    case _ =>
  }

  lemma {:induction false} AllPlaces(env: Env, recs: seq<Rec>)
    requires DistinctIds(recs)
    ensures var xs := ExtractAll(env, recs);
            && (forall x | x in xs :: (x.slot.Whole? <==> x.key.ftype != VMAD)
                  && exists j | 0 <= j < |recs| :: Id(x.key.formId, x.key.rtype) == RecId(recs[j]))
            && DistinctPlaces(xs)
  {
    hide ExtractRecord;
    if recs != [] {
      AllPlaces(env, recs[1..]);
      RecordPlaces(env, recs[0]);
      var a := match ExtractRecord(env, recs[0]) case Done(xs) => xs case Raised => [];
      var b := ExtractAll(env, recs[1..]);
      forall x | x in b
        ensures exists j | 0 < j < |recs| :: Id(x.key.formId, x.key.rtype) == RecId(recs[j])
      {
        var j :| 0 <= j < |recs[1..]| && Id(x.key.formId, x.key.rtype) == RecId(recs[1..][j]);
        assert recs[1..][j] == recs[j + 1];
      }
      JoinDistinct(a, b);
    }
  }

  lemma DistinctHead(recs: seq<Rec>)
    requires DistinctIds(recs) && recs != []
    ensures forall k | 0 < k < |recs| :: RecId(recs[k]) != RecId(recs[0])
  {
  }

  /** A text with a record's identity was reported by that record. */
  lemma {:induction false} ReportedBy(env: Env, recs: seq<Rec>, k: nat, x: Found)
    requires DistinctIds(recs) && k < |recs| && x in ExtractAll(env, recs)
    requires Id(x.key.formId, x.key.rtype) == RecId(recs[k])
    ensures ExtractRecord(env, recs[k]).Done? && x in ExtractRecord(env, recs[k]).value
  {
    hide ExtractRecord;
    RecordPlaces(env, recs[0]);
    AllPlaces(env, recs[1..]);
    var first := match ExtractRecord(env, recs[0]) case Done(xs) => xs case Raised => [];
    if x in first {
      DistinctHead(recs);
    } else {
      var b := ExtractAll(env, recs[1..]);
      assert x in b;
      var j :| 0 <= j < |recs[1..]| && Id(x.key.formId, x.key.rtype) == RecId(recs[1..][j]);
      assert recs[1..][j] == recs[j + 1];
      DistinctHead(recs);
      assert recs[1..][k - 1] == recs[k];
      ReportedBy(env, recs[1..], k - 1, x);
    }
  }

  lemma RecordIsAddressed(env: Env, recs: seq<Rec>, k: nat, trans: seq<bytes>)
    requires DistinctIds(recs) && k < |recs| && |trans| == |ExtractAll(env, recs)|
    ensures RecordAddressed(env, recs[k], MapOf(env, ExtractAll(env, recs), trans))
  {
    hide ExtractAll, MapOf, ExtractFields, FieldsAddressed;
    var found := ExtractAll(env, recs);
    var tm := MapOf(env, found, trans);
    OnlyNamedPlaces(env, found, trans);
    match FieldsOf(env, recs[k])
    case Done(Some(fs)) =>
      var id := RecId(recs[k]);
      var xs := ExtractFields(env, id, fs, UNSEEN, 0);
      forall key | key in tm.texts && Id(key.formId, key.rtype) == id
        ensures HasPlace(xs, key, Whole)
      {
        assert NamedAt(env, found, trans, key, Whole, tm.texts[key]);
        var j :| 0 <= j < |found| && found[j].key == key && found[j].slot == Whole;
        ReportedBy(env, recs, k, found[j]);
      }
      forall key, i | key in tm.vmads && i in tm.vmads[key] && Id(key.formId, key.rtype) == id
        ensures HasPlace(xs, key, Item(i))
      {
        assert NamedAt(env, found, trans, key, Item(i), tm.vmads[key][i]);
        var j :| 0 <= j < |found| && found[j].key == key && found[j].slot == Item(i);
        ReportedBy(env, recs, k, found[j]);
      }
      SourcedFields(env, id, fs, UNSEEN, 0, tm);
    case _ =>
  }

  /** Extracting, translating, rewriting and extracting again reports every text in its
      place, translated where a translation was given, and as before elsewhere and where it
      is cut off by the end of its field. */
  lemma TranslationRoundTrip(env: Env, nodes: seq<Node>, trans: seq<bytes>)
    requires CodecInverts(env) && AllReadable(env, nodes)
    requires DistinctIds(AllRecords(nodes))
    requires Extract(env, nodes).Done? && |trans| == |Extract(env, nodes).value|
    requires forall j | 0 <= j < |trans| :: var x, t := Extract(env, nodes).value[j], trans[j];
               t == [] || env.isBlank(t) || (env.hasLetter(t) && if x.slot.Whole? then 0 !in t else |t| < 0x10000)
    ensures var found := Extract(env, nodes).value;
            var tm := MapOf(env, found, trans);
            && WellKeyed(tm)
            && (Rewrite(env, nodes, tm).Raised? <==> Outgrows(env, nodes, tm))
            && (Rewrite(env, nodes, tm).Done? ==>
                  var after := Extract(env, Rewrite(env, nodes, tm).value);
                  && after.Done? && |after.value| == |found|
                  && forall j | 0 <= j < |found| ::
                       after.value[j] == if trans[j] == [] || env.isBlank(trans[j]) || found[j].clipped then found[j]
                                         else found[j].(text := trans[j]))
  {
    hide ExtractAll, MapOf, Extract, Rewrite, AllRecords, ExtractRecord, Outgrows;
    var found := Extract(env, nodes).value;
    var recs := AllRecords(nodes);
    var tm := MapOf(env, found, trans);
    ExtractFlattens(env, nodes);
    AllPlaces(env, recs);
    assert AllWrites(env, found, trans);
    MapIsUsable(env, found, trans);
    MapReflects(env, found, trans);
    forall r | r in recs
      ensures RecordAddressed(env, r, tm)
    {
      var k :| 0 <= k < |recs| && recs[k] == r;
      RecordIsAddressed(env, recs, k, trans);
    }
    AddressedFlattens(env, nodes, tm);
    OnlySizesRaise(env, nodes, tm);
    if Rewrite(env, nodes, tm).Done? {
      ExtractAfterRewrite(env, nodes, tm);
      forall j | 0 <= j < |found|
        ensures Subst(tm, found[j])
                == if Skipped(env, trans[j]) || found[j].clipped then found[j] else found[j].(text := trans[j])
      {
        assert Reflects(env, tm, found[j], trans[j]);
      }
    }
  }
}
