/** A whole plugin: nested groups of records, read, extracted and rewritten
    (scripts/esp_engine.py). */
module Plugin {
  import opened Bytes
  import opened Subrecords
  import opened Records

  datatype Rec = Rec(rtype: bytes, flags: nat, formId: nat, rest: bytes, payload: bytes)

  /** A record, or a group: the 16 header bytes after its size, and what it contains. */
  datatype Node = Record(rec: Rec) | Group(stamp: bytes, kids: seq<Node>)

  function RecId(rec: Rec): Id {
    Id(rec.formId, rec.rtype)
  }

  /** The size in the file. */
  function Size(nodes: seq<Node>): nat {
    if nodes == [] then 0 else SizeOne(nodes[0]) + Size(nodes[1..])
  }

  function SizeOne(node: Node): nat {
    match node
    case Record(r) => 24 + |r.payload|
    case Group(_, kids) => 24 + Size(kids)
  }

  predicate WellFormedRec(r: Rec) {
    && |r.rtype| == 4 && r.rtype != GRUP && |r.rest| == 8
    && r.flags < U32_LIMIT && r.formId < U32_LIMIT && |r.payload| < U32_LIMIT
  }

  /** Names and header pieces have their lengths, and every size fits its field. */
  predicate WellFormed(nodes: seq<Node>) {
    nodes == [] || (WellFormedNode(nodes[0]) && WellFormed(nodes[1..]))
  }

  predicate WellFormedNode(node: Node) {
    match node
    case Record(r) => WellFormedRec(r)
    case Group(stamp, kids) => |stamp| == 16 && 24 + Size(kids) < U32_LIMIT && WellFormed(kids)
  }

  function RecBytes(r: Rec): (out: bytes)
    requires WellFormedRec(r)
    ensures |out| == 24 + |r.payload|
  {
    r.rtype + P32(|r.payload|) + P32(r.flags) + P32(r.formId) + r.rest + r.payload
  }

  /** The file. */
  function Render(nodes: seq<Node>): (out: bytes)
    requires WellFormed(nodes)
    ensures |out| == Size(nodes)
  {
    if nodes == [] then [] else RenderOne(nodes[0]) + Render(nodes[1..])
  }

  function RenderOne(node: Node): (out: bytes)
    requires WellFormedNode(node)
    ensures |out| == SizeOne(node)
  {
    match node
    case Record(r) => RecBytes(r)
    case Group(stamp, kids) => GRUP + P32(24 + Size(kids)) + stamp + Render(kids)
  }

  /** Where the parts of a record stand. */
  lemma RecordLayout(r: Rec)
    requires WellFormedRec(r)
    ensures var b := RecBytes(r);
            && b[..4] == r.rtype && U32(b, 4) == |r.payload| && U32(b, 8) == r.flags && U32(b, 12) == r.formId
            && b[16..24] == r.rest && b[24..] == r.payload
  {
    hide U32, P32;
    var size, flags, form := P32(|r.payload|), P32(r.flags), P32(r.formId);
    var b := RecBytes(r);
    assert b == r.rtype + size + (flags + form + r.rest + r.payload);
    ReadInside(r.rtype, size, flags + form + r.rest + r.payload);
    assert b == r.rtype + size + flags + (form + r.rest + r.payload);
    ReadInside(r.rtype + size, flags, form + r.rest + r.payload);
    assert b == r.rtype + size + flags + form + (r.rest + r.payload);
    ReadInside(r.rtype + size + flags, form, r.rest + r.payload);
  }

  /** Where the parts of a group stand; its size counts the header. */
  lemma GroupLayout(stamp: bytes, kids: seq<Node>)
    requires WellFormedNode(Group(stamp, kids))
    ensures var b := RenderOne(Group(stamp, kids));
            && b[..4] == ['G' as int, 'R' as int, 'U' as int, 'P' as int]
            && U32(b, 4) == |b| == 24 + |Render(kids)| && b[8..24] == stamp && b[24..] == Render(kids)
  {
    hide U32, P32, Render;
    var b, size := RenderOne(Group(stamp, kids)), P32(24 + Size(kids));
    assert b == GRUP + size + (stamp + Render(kids));
    ReadInside(GRUP, size, stamp + Render(kids));
  }

  // ── Extraction ──────────────────────────────────────────────────────────────

  predicate Compressed(r: Rec) {
    (r.flags / 0x40000) % 2 == 1
  }

  /** The subrecord bytes, decompressed when the record says so. */
  function RawData(env: Env, r: Rec): Outcome<bytes> {
    if !Compressed(r) then Done(r.payload)
    else if |r.payload| < 4 then Raised
    else env.inflate(r.payload[4..])
  }

  /** The fields the walkers look at: none of the file header's, and none of a record
      that does not decompress. */
  function FieldsOf(env: Env, r: Rec): Outcome<Option<seq<Field>>> {
    if r.rtype == TES4 then Done(None)
    else match RawData(env, r)
      case Raised => Done(None)
      case Done(raw) =>
        var fs :- Parse(raw);
        Done(Some(fs))
  }

  function ExtractRecord(env: Env, r: Rec): Outcome<seq<Found>> {
    var fs :- FieldsOf(env, r);
    match fs
    case None => Done([])
    case Some(fields) =>
      var xs := ExtractFields(env, RecId(r), fields, UNSEEN, 0);
      if xs != [] && !Ascii(r.rtype) then Raised else Done(xs)
  }

  function Extract(env: Env, nodes: seq<Node>): Outcome<seq<Found>> {
    if nodes == [] then Done([]) else
    var first :- ExtractNode(env, nodes[0]);
    var rest :- Extract(env, nodes[1..]);
    Done(first + rest)
  }

  function ExtractNode(env: Env, node: Node): Outcome<seq<Found>> {
    match node
    case Record(r) => ExtractRecord(env, r)
    case Group(_, kids) => Extract(env, kids)
  }

  // ── Rewriting ───────────────────────────────────────────────────────────────

  function Repack(env: Env, r: Rec, raw: bytes): Outcome<bytes> {
    if !Compressed(r) then Done(raw)
    else if |raw| >= U32_LIMIT then Raised
    else Done(P32(|raw|) + env.deflate(raw))
  }

  /** The record after its translations; the record itself when none applies. */
  function RewriteRecord(env: Env, r: Rec, tm: TransMap): Outcome<Rec>
    requires WellKeyed(tm)
  {
    var fs :- FieldsOf(env, r);
    match fs
    case None => Done(r)
    case Some(fields) =>
      if !Ascii(r.rtype) then Raised else
      var a :- ApplyFields(env, RecId(r), fields, 0, tm);
      if !a.changed then Done(r)
      else if !AllWritable(a.fields) then Raised
      else
        var payload :- Repack(env, r, Build(a.fields));
        if |payload| >= U32_LIMIT then Raised else Done(r.(payload := payload))
  }

  function Rewrite(env: Env, nodes: seq<Node>, tm: TransMap): (out: Outcome<seq<Node>>)
    requires WellKeyed(tm)
    ensures WellFormed(nodes) && out.Done? ==> WellFormed(out.value)
  {
    if nodes == [] then Done([]) else
    var first :- RewriteNode(env, nodes[0], tm);
    var rest :- Rewrite(env, nodes[1..], tm);
    Done([first] + rest)
  }

  function RewriteNode(env: Env, node: Node, tm: TransMap): (out: Outcome<Node>)
    requires WellKeyed(tm)
    ensures WellFormedNode(node) && out.Done? ==> WellFormedNode(out.value)
  {
    match node
    case Record(r) =>
      var r' :- RewriteRecord(env, r, tm);
      Done(Record(r'))
    case Group(stamp, kids) =>
      var kids' :- Rewrite(env, kids, tm);
      if 24 + Size(kids') >= U32_LIMIT then Raised else Done(Group(stamp, kids'))
  }

  // ── The laws ────────────────────────────────────────────────────────────────

  /** Decompressing undoes compressing. */
  ghost predicate CodecInverts(env: Env) {
    forall raw :: env.inflate(env.deflate(raw)) == Done(raw)
  }

  /** The record reads without failure, and its names are ASCII. */
  predicate Walkable(env: Env, r: Rec) {
    && FieldsOf(env, r).Done?
    && (FieldsOf(env, r).value.Some? ==> Ascii(r.rtype) && AsciiFields(FieldsOf(env, r).value.value))
  }

  /** It also has no four-byte field named XXXX. */
  predicate Readable(env: Env, r: Rec) {
    && Walkable(env, r)
    && (FieldsOf(env, r).value.Some? ==> forall f | f in FieldsOf(env, r).value.value :: !LooksLikePrefix(f))
  }

  predicate AllWalkable(env: Env, nodes: seq<Node>) {
    nodes == [] || (NodeWalkable(env, nodes[0]) && AllWalkable(env, nodes[1..]))
  }

  predicate NodeWalkable(env: Env, node: Node) {
    match node
    case Record(r) => Walkable(env, r)
    case Group(_, kids) => AllWalkable(env, kids)
  }

  predicate AllReadable(env: Env, nodes: seq<Node>) {
    nodes == [] || (NodeReadable(env, nodes[0]) && AllReadable(env, nodes[1..]))
  }

  predicate NodeReadable(env: Env, node: Node) {
    match node
    case Record(r) => Readable(env, r)
    case Group(_, kids) => AllReadable(env, kids)
  }

  /** Every entry that meets a field of the plugin addresses a reported text there. */
  predicate Addressed(env: Env, nodes: seq<Node>, tm: TransMap) {
    nodes == [] || (NodeAddressed(env, nodes[0], tm) && Addressed(env, nodes[1..], tm))
  }

  predicate NodeAddressed(env: Env, node: Node, tm: TransMap) {
    match node
    case Record(r) => RecordAddressed(env, r, tm)
    case Group(_, kids) => Addressed(env, kids, tm)
  }

  predicate RecordAddressed(env: Env, r: Rec, tm: TransMap) {
    match FieldsOf(env, r)
    case Done(Some(fs)) => FieldsAddressed(env, RecId(r), fs, UNSEEN, 0, tm)
    case _ => true
  }

  /** A rewritten record reads back as the fields that were written. */
  lemma RecordReadsBack(env: Env, r: Rec, fs: seq<Field>, payload: bytes)
    requires CodecInverts(env) && r.rtype != TES4
    requires AllWritable(fs) && forall f | f in fs :: !LooksLikePrefix(f)
    requires Repack(env, r, Build(fs)) == Done(payload)
    ensures FieldsOf(env, r.(payload := payload)) == Done(Some(fs))
  {
    hide Build, Parse, LooksLikePrefix;
    BuildThenParse(fs);
    var raw := Build(fs);
    if Compressed(r) {
      assert payload[4..] == env.deflate(raw);
    }
  }

  /** Bit 18 of the flags says that the payload is compressed behind its size: setting it and
      compressing changes no field the walkers see. */
  lemma CompressionIsTransparent(env: Env, r: Rec)
    requires CodecInverts(env) && |r.payload| < U32_LIMIT && (r.flags / 0x40000) % 2 == 0
    ensures var packed := r.(flags := r.flags + 0x40000, payload := P32(|r.payload|) + env.deflate(r.payload));
            FieldsOf(env, packed) == FieldsOf(env, r) && ExtractRecord(env, packed) == ExtractRecord(env, r)
  {
    hide Parse, ExtractFields, P32, Ascii;
    var payload := P32(|r.payload|) + env.deflate(r.payload);
    assert payload[4..] == env.deflate(r.payload);
    NextBit(r.flags);
  }

  lemma NextBit(flags: nat)
    ensures ((flags + 0x40000) / 0x40000) % 2 != (flags / 0x40000) % 2
  {
  }

  lemma RecordSubst(env: Env, r: Rec, tm: TransMap)
    requires CodecInverts(env) && Usable(env, tm) && Readable(env, r) && RecordAddressed(env, r, tm)
    requires RewriteRecord(env, r, tm).Done?
    ensures var r' := RewriteRecord(env, r, tm).value;
            && ExtractRecord(env, r') == Done(SubstAll(tm, ExtractRecord(env, r).value))
            && Readable(env, r')
            && r' == r.(payload := r'.payload)
  {
    hide Build, Parse, LooksLikePrefix, FieldsAddressed, ApplyFields, ExtractFields, WellKeyed, Repack, Ascii;
    var fs := FieldsOf(env, r).value;
    if fs.Some? {
      FieldsSubst(env, RecId(r), fs.value, UNSEEN, 0, tm);
      var a := ApplyFields(env, RecId(r), fs.value, 0, tm).value;
      if a.changed {
        forall f | f in a.fields
          ensures !LooksLikePrefix(f) && Ascii(f.ftype)
        {
          var j :| 0 <= j < |a.fields| && a.fields[j] == f;
          assert fs.value[j] in fs.value;
        }
        RecordReadsBack(env, r, a.fields, Repack(env, r, Build(a.fields)).value);
      }
    }
  }

  /** Extracting after a rewrite reports what extracting before did, with exactly the
      addressed texts exchanged. */
  lemma {:induction false} ExtractAfterRewrite(env: Env, nodes: seq<Node>, tm: TransMap)
    requires CodecInverts(env) && Usable(env, tm)
    requires AllReadable(env, nodes) && Addressed(env, nodes, tm)
    requires Rewrite(env, nodes, tm).Done?
    ensures Extract(env, nodes).Done?
    ensures Extract(env, Rewrite(env, nodes, tm).value) == Done(SubstAll(tm, Extract(env, nodes).value))
    ensures AllReadable(env, Rewrite(env, nodes, tm).value)
    decreases nodes
  {
    hide WellKeyed, Readable, RecordAddressed, ExtractRecord, RewriteRecord, CodecInverts;
    if nodes != [] {
      NodeSubst(env, nodes[0], tm);
      ExtractAfterRewrite(env, nodes[1..], tm);
      var out := Rewrite(env, nodes, tm).value;
      assert out[1..] == Rewrite(env, nodes[1..], tm).value;
      SubstAllSplits(tm, ExtractNode(env, nodes[0]).value, Extract(env, nodes[1..]).value);
    }
  }

  lemma {:induction false} NodeSubst(env: Env, node: Node, tm: TransMap)
    requires CodecInverts(env) && Usable(env, tm)
    requires NodeReadable(env, node) && NodeAddressed(env, node, tm)
    requires RewriteNode(env, node, tm).Done?
    ensures ExtractNode(env, node).Done?
    ensures ExtractNode(env, RewriteNode(env, node, tm).value) == Done(SubstAll(tm, ExtractNode(env, node).value))
    ensures NodeReadable(env, RewriteNode(env, node, tm).value)
    decreases node
  {
    hide WellKeyed, RecordAddressed, RewriteRecord, CodecInverts;
    match node
    case Record(r) => RecordSubst(env, r, tm);
    case Group(_, kids) => ExtractAfterRewrite(env, kids, tm);
  }

  // ── When a rewrite fails ────────────────────────────────────────────────────

  /** The bytes a record's new data takes in the file. */
  function StoredSize(env: Env, r: Rec, raw: bytes): nat {
    if Compressed(r) then 4 + |env.deflate(raw)| else |raw|
  }

  /** The record's new content has a size that does not fit 32 bits: one of its fields, its
      data before compression, or what is stored. */
  predicate RecordOutgrows(env: Env, r: Rec, tm: TransMap)
    requires WellKeyed(tm)
  {
    match FieldsOf(env, r)
    case Done(Some(fs)) =>
      var a := ApplyFields(env, RecId(r), fs, 0, tm);
      && a.Done? && a.value.changed
      && ((exists f | f in a.value.fields :: |f.data| >= U32_LIMIT)
          || (AllWritable(a.value.fields)
              && (var raw := Build(a.value.fields);
                  (Compressed(r) && |raw| >= U32_LIMIT) || StoredSize(env, r, raw) >= U32_LIMIT)))
    case _ => false
  }

  /** Some record's new content, or some group around it, has a size that does not fit. */
  predicate Outgrows(env: Env, nodes: seq<Node>, tm: TransMap)
    requires WellKeyed(tm)
  {
    nodes != [] && (NodeOutgrows(env, nodes[0], tm) || Outgrows(env, nodes[1..], tm))
  }

  predicate NodeOutgrows(env: Env, node: Node, tm: TransMap)
    requires WellKeyed(tm)
  {
    match node
    case Record(r) => RecordOutgrows(env, r, tm)
    case Group(_, kids) =>
      || Outgrows(env, kids, tm)
      || (var out := Rewrite(env, kids, tm); out.Done? && 24 + Size(out.value) >= U32_LIMIT)
  }

  lemma RecordRaisesOnSize(env: Env, r: Rec, tm: TransMap)
    requires Usable(env, tm) && Readable(env, r) && RecordAddressed(env, r, tm)
    ensures RewriteRecord(env, r, tm).Raised? <==> RecordOutgrows(env, r, tm)
  {
    hide Build, Parse, LooksLikePrefix, FieldsAddressed, ApplyFields, ExtractFields, WellKeyed, Ascii;
    var fs := FieldsOf(env, r).value;
    if fs.Some? {
      FieldsSubst(env, RecId(r), fs.value, UNSEEN, 0, tm);
      var a := ApplyFields(env, RecId(r), fs.value, 0, tm).value;
      ParsedTypes(RawData(env, r).value);
      forall f | f in a.fields
        ensures |f.ftype| == 4
      {
        var j :| 0 <= j < |a.fields| && a.fields[j] == f;
        assert fs.value[j] in fs.value;
      }
    }
  }

  /** With usable translations of reported texts nothing but a size makes a rewrite fail. */
  lemma {:induction false} OnlySizesRaise(env: Env, nodes: seq<Node>, tm: TransMap)
    requires Usable(env, tm) && AllReadable(env, nodes) && Addressed(env, nodes, tm)
    ensures Rewrite(env, nodes, tm).Raised? <==> Outgrows(env, nodes, tm)
    decreases nodes
  {
    hide WellKeyed, Readable, RecordAddressed, RewriteRecord, RecordOutgrows;
    if nodes != [] {
      OnlySizesRaise(env, nodes[1..], tm);
      match nodes[0]
      case Record(r) => RecordRaisesOnSize(env, r, tm);
      case Group(_, kids) => OnlySizesRaise(env, kids, tm);
    }
  }

  /** No entry carries this record's identity. */
  predicate Unaddressed(tm: TransMap, id: Id) {
    && (forall k | k in tm.texts :: Id(k.formId, k.rtype) != id)
    && (forall k | k in tm.vmads :: Id(k.formId, k.rtype) != id)
  }

  lemma {:induction false} UnaddressedFields(env: Env, id: Id, fs: seq<Field>, index: nat, tm: TransMap)
    requires WellKeyed(tm) && Unaddressed(tm, id)
    ensures ApplyFields(env, id, fs, index, tm) == if AsciiFields(fs) then Done(Applied(fs, false)) else Raised
    decreases |fs|
  {
    hide Ascii;
    if fs != [] {
      UnaddressedFields(env, id, fs[1..], index + 1, tm);
      assert [fs[0]] + fs[1..] == fs;
      var key := KeyOf(id, fs[0], index);
      assert Id(key.formId, key.rtype) == id;
    }
  }

  /** Group for group and record for record the same: header pieces untouched everywhere,
      and records no entry addresses untouched altogether. */
  predicate SameShape(old_: seq<Node>, new_: seq<Node>, tm: TransMap)
    decreases old_
  {
    if old_ == [] || new_ == [] then old_ == [] && new_ == []
    else SameNode(old_[0], new_[0], tm) && SameShape(old_[1..], new_[1..], tm)
  }

  predicate SameNode(a: Node, b: Node, tm: TransMap)
    decreases a
  {
    match (a, b)
    case (Record(r), Record(r')) =>
      r' == r.(payload := r'.payload) && (Unaddressed(tm, RecId(r)) ==> r' == r)
    case (Group(s, ks), Group(s', ks')) => s == s' && SameShape(ks, ks', tm)
    case _ => false
  }

  lemma {:induction false} RewriteKeepsShape(env: Env, nodes: seq<Node>, tm: TransMap)
    requires WellKeyed(tm) && Rewrite(env, nodes, tm).Done?
    ensures SameShape(nodes, Rewrite(env, nodes, tm).value, tm)
    decreases nodes
  {
    hide WellKeyed, FieldsOf, ApplyFields, Repack, Build, Unaddressed;
    if nodes != [] {
      var out := Rewrite(env, nodes, tm).value;
      assert out[1..] == Rewrite(env, nodes[1..], tm).value;
      RewriteKeepsShape(env, nodes[1..], tm);
      RewriteKeepsNode(env, nodes[0], tm);
    }
  }

  lemma {:induction false} RewriteKeepsNode(env: Env, node: Node, tm: TransMap)
    requires WellKeyed(tm) && RewriteNode(env, node, tm).Done?
    ensures SameNode(node, RewriteNode(env, node, tm).value, tm)
    decreases node
  {
    hide WellKeyed, FieldsOf, ApplyFields, Repack, Build, Unaddressed, Ascii;
    match node
    case Group(_, kids) => RewriteKeepsShape(env, kids, tm);
    case Record(r) =>
      var fs := FieldsOf(env, r).value;
      if fs.Some? && Unaddressed(tm, RecId(r)) { UnaddressedFields(env, RecId(r), fs.value, 0, tm); }
  }

  const NO_TRANSLATIONS := TransMap(map[], map[])

  /** With nothing to translate the plugin comes back as it was, or, exactly when some
      record does not read or carries a name that is not ASCII, not at all. */
  lemma {:induction false} EmptyMapIsIdentity(env: Env, nodes: seq<Node>)
    requires WellFormed(nodes)
    ensures Rewrite(env, nodes, NO_TRANSLATIONS) == if AllWalkable(env, nodes) then Done(nodes) else Raised
    decreases nodes
  {
    hide FieldsOf, ApplyFields, Walkable;
    if nodes != [] {
      EmptyMapIsIdentityOnNode(env, nodes[0]);
      EmptyMapIsIdentity(env, nodes[1..]);
      assert [nodes[0]] + nodes[1..] == nodes;
    }
  }

  lemma {:induction false} EmptyMapIsIdentityOnNode(env: Env, node: Node)
    requires WellFormedNode(node)
    ensures RewriteNode(env, node, NO_TRANSLATIONS) == if NodeWalkable(env, node) then Done(node) else Raised
    decreases node
  {
    hide FieldsOf, ApplyFields, Ascii;
    match node
    case Group(_, kids) => EmptyMapIsIdentity(env, kids);
    case Record(r) =>
      var fs := FieldsOf(env, r);
      if fs.Done? && fs.value.Some? { UnaddressedFields(env, RecId(r), fs.value.value, 0, NO_TRANSLATIONS); }
  }

  /** One empty record with such a name, and nothing to translate. */
  const FOREIGN_NAME: Node := Record(Rec([0x80, 0x80, 0x80, 0x80], 0, 0, [0, 0, 0, 0, 0, 0, 0, 0], []))

  lemma ForeignNameRaises(env: Env)
    ensures WellFormed([FOREIGN_NAME]) && Extract(env, [FOREIGN_NAME]) == Done([])
    ensures Rewrite(env, [FOREIGN_NAME], NO_TRANSLATIONS) == Raised
  {
    assert FieldsOf(env, FOREIGN_NAME.rec) == Done(Some([]));
    assert !Ascii(FOREIGN_NAME.rec.rtype);
    assert ExtractNode(env, FOREIGN_NAME) == Done([]);
    var none: seq<Node>, nothing: seq<Found> := [], [];
    assert [FOREIGN_NAME][1..] == none && Extract(env, none) == Done(nothing) && nothing + nothing == nothing;
  }
}
