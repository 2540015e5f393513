/** Which fields of a record hold text, what the extractor reports of them and what the
    applier writes into them (scripts/esp_engine.py). */
module Records {
  import opened Bytes
  import opened Subrecords
  import V = Vmad

  // Four-byte names of records and fields.
  const TES4: bytes := [0x54, 0x45, 0x53, 0x34]
  const GRUP: bytes := [0x47, 0x52, 0x55, 0x50]
  const EDID: bytes := [0x45, 0x44, 0x49, 0x44]
  const VMAD: bytes := [0x56, 0x4D, 0x41, 0x44]
  const FULL: bytes := [0x46, 0x55, 0x4C, 0x4C]
  const DESC: bytes := [0x44, 0x45, 0x53, 0x43]
  const DNAM: bytes := [0x44, 0x4E, 0x41, 0x4D]
  const MGEF: bytes := [0x4D, 0x47, 0x45, 0x46]
  const NAM1: bytes := [0x4E, 0x41, 0x4D, 0x31]
  const INFO: bytes := [0x49, 0x4E, 0x46, 0x4F]
  const SHRT: bytes := [0x53, 0x48, 0x52, 0x54]
  const NPC_: bytes := [0x4E, 0x50, 0x43, 0x5F]
  const CNAM: bytes := [0x43, 0x4E, 0x41, 0x4D]
  const QUST: bytes := [0x51, 0x55, 0x53, 0x54]
  const BOOK: bytes := [0x42, 0x4F, 0x4F, 0x4B]
  const TNAM: bytes := [0x54, 0x4E, 0x41, 0x4D]
  const WOOP: bytes := [0x57, 0x4F, 0x4F, 0x50]
  const NNAM: bytes := [0x4E, 0x4E, 0x41, 0x4D]
  const ITXT: bytes := [0x49, 0x54, 0x58, 0x54]
  const MESG: bytes := [0x4D, 0x45, 0x53, 0x47]
  const RDMP: bytes := [0x52, 0x44, 0x4D, 0x50]
  const REGN: bytes := [0x52, 0x45, 0x47, 0x4E]
  const RNAM: bytes := [0x52, 0x4E, 0x41, 0x4D]
  const ACTI: bytes := [0x41, 0x43, 0x54, 0x49]
  const FLOR: bytes := [0x46, 0x4C, 0x4F, 0x52]
  const BPTN: bytes := [0x42, 0x50, 0x54, 0x4E]
  const BPTD: bytes := [0x42, 0x50, 0x54, 0x44]
  const MNAM: bytes := [0x4D, 0x4E, 0x41, 0x4D]
  const FNAM: bytes := [0x46, 0x4E, 0x41, 0x4D]
  const FACT: bytes := [0x46, 0x41, 0x43, 0x54]
  const GMST: bytes := [0x47, 0x4D, 0x53, 0x54]
  const DATA: bytes := [0x44, 0x41, 0x54, 0x41]
  const PERK: bytes := [0x50, 0x45, 0x52, 0x4B]
  const EPFT: bytes := [0x45, 0x50, 0x46, 0x54]
  const EPFD: bytes := [0x45, 0x50, 0x46, 0x44]
  const EPF2: bytes := [0x45, 0x50, 0x46, 0x32]
  const NOTE: bytes := [0x4E, 0x4F, 0x54, 0x45]

  /** The foreign code: the compressor, and what counts as a letter or as blank text. */
  datatype Env = Env(inflate: bytes -> Outcome<bytes>, deflate: bytes -> bytes,
                     hasLetter: bytes -> bool, isBlank: bytes -> bool)

  datatype Key = Key(formId: nat, rtype: bytes, ftype: bytes, index: nat)
  datatype Slot = Whole | Item(i: nat)

  /** A reported text and its place. The last part is known from the parse and not reported:
      whether the text was cut off by the end of its VMAD field. */
  datatype Found = Found(key: Key, slot: Slot, text: bytes, clipped: bool)

  /** Translations for whole fields and for single strings of a VMAD field. */
  datatype TransMap = TransMap(texts: map<Key, bytes>, vmads: map<Key, V.Texts>)

  /** Names of records and fields go into keys as ASCII text; the code raises on others. */
  predicate Ascii(name: bytes) {
    forall i | 0 <= i < |name| :: name[i] < 0x80
  }

  predicate AsciiFields(fs: seq<Field>) {
    forall f | f in fs :: Ascii(f.ftype)
  }

  /** A record's identity as it appears in keys. */
  datatype Id = Id(formId: nat, rtype: bytes)

  function KeyOf(id: Id, f: Field, index: nat): Key {
    Key(id.formId, id.rtype, f.ftype, index)
  }

  predicate Translatable(ftype: bytes, rtype: bytes) {
    || ftype == FULL
    || ftype == DESC
    || (ftype == DNAM && rtype == MGEF)
    || (ftype == NAM1 && rtype == INFO)
    || (ftype == SHRT && rtype == NPC_)
    || (ftype == CNAM && (rtype == QUST || rtype == BOOK))
    || (ftype == TNAM && rtype == WOOP)
    || (ftype == NNAM && rtype == QUST)
    || (ftype == ITXT && rtype == MESG)
    || (ftype == RDMP && rtype == REGN)
    || (ftype == RNAM && (rtype == ACTI || rtype == FLOR || rtype == INFO))
    || (ftype == BPTN && rtype == BPTD)
    || ((ftype == MNAM || ftype == FNAM) && rtype == FACT)
  }

  /** What earlier fields of the record say about later ones. */
  datatype Seen = Seen(edid: Option<bytes>, epft: Option<byte>, noteType: Option<byte>)

  const UNSEEN := Seen(None, None, None)

  function FirstByte(data: bytes): Option<byte> {
    if data == [] then None else Some(data[0])
  }

  function Observe(id: Id, s: Seen, f: Field): Seen {
    if f.ftype == EDID then s.(edid := Some(CString(f.data)))
    else if f.ftype == EPFT && id.rtype == PERK then s.(epft := FirstByte(f.data))
    else if f.ftype == DATA && id.rtype == NOTE then s.(noteType := FirstByte(f.data))
    else s
  }

  predicate Eligible(id: Id, s: Seen, ftype: bytes) {
    if ftype == DATA && id.rtype == GMST then
      s.edid.Some? && s.edid.value != [] && s.edid.value[0] == 0x73
    else if ftype == EPFD && id.rtype == PERK then s.epft == Some(7)
    else if ftype == EPF2 && id.rtype == PERK then s.epft == Some(4)
    else if ftype == TNAM && id.rtype == NOTE then s.noteType == Some(1)
    else Translatable(ftype, id.rtype)
  }

  /** A field that is extracted never steers the extractor, whatever its content becomes. */
  lemma SteeringIsNotText(id: Id, s: Seen, f: Field, g: Field)
    requires f.ftype == g.ftype && (f.ftype == VMAD || Eligible(id, s, f.ftype))
    ensures forall t :: Observe(id, t, f) == t && Observe(id, t, g) == t
    ensures f.ftype != XXXX
  {
  }

  // ── Extraction ──────────────────────────────────────────────────────────────

  function VmadTexts(env: Env, key: Key, es: seq<V.Entry>, i: nat): seq<Found>
    decreases |es|
  {
    if es == [] then [] else
    (if env.hasLetter(es[0].text) then [Found(key, Item(i), es[0].text, V.Clipped(es[0]))] else [])
    + VmadTexts(env, key, es[1..], i + 1)
  }

  predicate HoldsText(env: Env, id: Id, s: Seen, f: Field) {
    f.ftype != VMAD && Eligible(id, s, f.ftype) && f.data != [] && env.hasLetter(CString(f.data))
  }

  function VmadStrings(f: Field): seq<V.Entry> {
    V.Scan(V.Start, f.data, 0)
  }

  /** The texts of one field, `s` already including the field itself. */
  function FieldTexts(env: Env, id: Id, s: Seen, f: Field, index: nat): seq<Found> {
    var key := KeyOf(id, f, index);
    if f.ftype == VMAD then VmadTexts(env, key, VmadStrings(f), 0)
    else if HoldsText(env, id, s, f) then [Found(key, Whole, CString(f.data), false)]
    else []
  }

  function ExtractFields(env: Env, id: Id, fs: seq<Field>, s: Seen, index: nat): seq<Found>
    decreases |fs|
  {
    if fs == [] then [] else
    var s' := Observe(id, s, fs[0]);
    FieldTexts(env, id, s', fs[0], index) + ExtractFields(env, id, fs[1..], s', index + 1)
  }

  // ── Application ─────────────────────────────────────────────────────────────

  predicate AnyWanted(m: V.Texts, n: nat) {
    exists i | 0 <= i < n :: V.Wanted(m, i)
  }

  /** Map entries go where the builder of the map puts them, and fit. */
  predicate WellKeyed(tm: TransMap) {
    && (forall k | k in tm.texts :: k.ftype != VMAD)
    && (forall k | k in tm.vmads :: V.Fits(tm.vmads[k]))
  }

  /** The new content of a field, or none when it stays. A VMAD entry that names no string
      of the field falls through to the text branch, which cannot handle it; nor can that
      branch handle a name that is not ASCII. */
  function NewData(env: Env, id: Id, f: Field, index: nat, tm: TransMap): Outcome<Option<bytes>>
    requires WellKeyed(tm)
  {
    var key := KeyOf(id, f, index);
    if f.ftype == VMAD && key in tm.vmads then
      var m := tm.vmads[key];
      if AnyWanted(m, |VmadStrings(f)|) then Done(Some(V.Rewritten(V.Start, f.data, m, 0)))
      else if m == map[] then Done(None)
      else Raised
    else if !Ascii(f.ftype) then Raised
    else if key in tm.texts && tm.texts[key] != [] && !env.isBlank(tm.texts[key]) then
      Done(Some(tm.texts[key] + [0]))
    else Done(None)
  }

  /** Exactly what is written into a field: into one of script properties the strings the
      map wants, where it wants one the field has; into any other field the map names, a text
      that is not blank, with its NUL. A map entry for strings the field does not have, and a
      name that is not ASCII, make the code raise. */
  lemma NewDataExactly(env: Env, id: Id, f: Field, index: nat, tm: TransMap)
    requires WellKeyed(tm)
    ensures var key, d := Key(id.formId, id.rtype, f.ftype, index), NewData(env, id, f, index, tm);
            if f.ftype == VMAD && key in tm.vmads then
              var m := tm.vmads[key];
              if exists i | i in m :: i < |V.Scan(V.Start, f.data, 0)| && m[i] != [] then
                d == Done(Some(V.Rewritten(V.Start, f.data, m, 0)))
              else d == if m == map[] then Done(None) else Raised
            else if exists i | 0 <= i < |f.ftype| :: f.ftype[i] >= 0x80 then d == Raised
            else if key in tm.texts && tm.texts[key] != [] && !env.isBlank(tm.texts[key]) then
              d == Done(Some(tm.texts[key] + [0]))
            else d == Done(None)
  {
    hide V.Scan, V.Rewritten;
    var key := KeyOf(id, f, index);
    if f.ftype == VMAD && key in tm.vmads {
      var m, n := tm.vmads[key], |VmadStrings(f)|;
      if i :| i in m && i < n && m[i] != [] { assert V.Wanted(m, i); }
    }
  }

  datatype Applied = Applied(fields: seq<Field>, changed: bool)

  function ApplyFields(env: Env, id: Id, fs: seq<Field>, index: nat, tm: TransMap): Outcome<Applied>
    requires WellKeyed(tm)
    decreases |fs|
  {
    if fs == [] then Done(Applied([], false)) else
    var d :- NewData(env, id, fs[0], index, tm);
    var rest :- ApplyFields(env, id, fs[1..], index + 1, tm);
    match d
    case None => Done(Applied([fs[0]] + rest.fields, rest.changed))
    case Some(data) => Done(Applied([Field(fs[0].ftype, data)] + rest.fields, true))
  }

  // ── What a rewrite does to the extracted texts ──────────────────────────────

  /** Every translation is real text: letters, no NUL, not blank. */
  predicate Usable(env: Env, tm: TransMap) {
    && WellKeyed(tm)
    && (forall k | k in tm.texts :: var t := tm.texts[k];
          t != [] && !env.isBlank(t) && env.hasLetter(t) && 0 !in t)
    && (forall k, i | k in tm.vmads && i in tm.vmads[k] ::
          tm.vmads[k][i] != [] && env.hasLetter(tm.vmads[k][i]))
  }

  /** An entry that addresses this field addresses something the extractor reports. */
  predicate FieldAddressed(env: Env, id: Id, s: Seen, f: Field, index: nat, tm: TransMap) {
    var key := KeyOf(id, f, index);
    && (key in tm.texts && f.ftype != VMAD ==> HoldsText(env, id, s, f))
    && (key in tm.vmads && f.ftype == VMAD ==>
          var es := VmadStrings(f);
          && tm.vmads[key] != map[]
          && forall i | i in tm.vmads[key] :: i < |es| && env.hasLetter(es[i].text))
  }

  predicate FieldsAddressed(env: Env, id: Id, fs: seq<Field>, s: Seen, index: nat, tm: TransMap)
    decreases |fs|
  {
    fs == [] ||
    var s' := Observe(id, s, fs[0]);
    FieldAddressed(env, id, s', fs[0], index, tm) && FieldsAddressed(env, id, fs[1..], s', index + 1, tm)
  }

  /** A reported text after its translation has been applied; a clipped string is skipped. */
  function Subst(tm: TransMap, x: Found): Found {
    if x.clipped then x else
    match x.slot
    case Whole => if x.key in tm.texts then x.(text := tm.texts[x.key]) else x
    case Item(i) =>
      if x.key in tm.vmads && i in tm.vmads[x.key] then x.(text := tm.vmads[x.key][i]) else x
  }

  function SubstAll(tm: TransMap, xs: seq<Found>): (ys: seq<Found>)
    ensures |ys| == |xs|
    ensures forall j | 0 <= j < |xs| :: ys[j] == Subst(tm, xs[j])
  {
    if xs == [] then [] else [Subst(tm, xs[0])] + SubstAll(tm, xs[1..])
  }

  lemma {:induction false} SubstAllSplits(tm: TransMap, a: seq<Found>, b: seq<Found>)
    ensures SubstAll(tm, a + b) == SubstAll(tm, a) + SubstAll(tm, b)
  {
    hide SubstAll, Subst;
    var ab, c := SubstAll(tm, a + b), SubstAll(tm, a) + SubstAll(tm, b);
    assert forall j | 0 <= j < |a + b| :: ab[j] == c[j];
  }

  lemma {:induction false} VmadTextsSubst(env: Env, key: Key, old_: seq<V.Entry>, new_: seq<V.Entry>,
                                         tm: TransMap, m: V.Texts, i: nat)
    requires key in tm.vmads && m == tm.vmads[key] && V.Carried(old_, new_, m, i)
    requires forall k | k in m :: m[k] != [] && env.hasLetter(m[k])
    requires forall k | k in m && i <= k < i + |old_| :: env.hasLetter(old_[k - i].text)
    ensures VmadTexts(env, key, new_, i) == SubstAll(tm, VmadTexts(env, key, old_, i))
    decreases |old_|
  {
    if old_ != [] && new_ != [] {
      VmadTextsSubst(env, key, old_[1..], new_[1..], tm, m, i + 1);
      var h := if env.hasLetter(old_[0].text) then [Found(key, Item(i), old_[0].text, V.Clipped(old_[0]))] else [];
      SubstAllSplits(tm, h, VmadTexts(env, key, old_[1..], i + 1));
    }
  }

  lemma FieldSubst(env: Env, id: Id, s: Seen, f: Field, index: nat, tm: TransMap)
    requires Usable(env, tm) && FieldAddressed(env, id, s, f, index, tm) && Ascii(f.ftype)
    ensures NewData(env, id, f, index, tm).Done?
    ensures var d := NewData(env, id, f, index, tm).value;
            var f' := if d.Some? then Field(f.ftype, d.value) else f;
            && FieldTexts(env, id, s, f', index) == SubstAll(tm, FieldTexts(env, id, s, f, index))
            && (d.Some? ==> f.ftype == VMAD || Eligible(id, s, f.ftype))
  {
    hide V.Scan, V.Rewritten, Eligible, CString, Ascii;
    var key := KeyOf(id, f, index);
    if f.ftype == VMAD {
      if key in tm.vmads {
        var m := tm.vmads[key];
        var es := VmadStrings(f);
        var i :| i in m;
        assert V.Wanted(m, i);
        V.RewriteCommutesWithScan(V.Start, f.data, m, 0, 0, 0);
        VmadTextsSubst(env, key, es, V.Scan(V.Start, V.Rewritten(V.Start, f.data, m, 0), 0), tm, m, 0);
      } else {
        VmadTextsKept(env, key, VmadStrings(f), tm, 0);
      }
    } else if key in tm.texts {
      CStringOfText(tm.texts[key], []);
      assert tm.texts[key] + [0] + [] == tm.texts[key] + [0];
    }
  }

  lemma {:induction false} VmadTextsKept(env: Env, key: Key, es: seq<V.Entry>, tm: TransMap, i: nat)
    requires key !in tm.vmads
    ensures VmadTexts(env, key, es, i) == SubstAll(tm, VmadTexts(env, key, es, i))
    decreases |es|
  {
    if es != [] { VmadTextsKept(env, key, es[1..], tm, i + 1); }
  }

  /** Applying addressed translations cannot fail, keeps every field's type, creates no
      field that reads back as a size prefix, and extraction then reports the same texts in
      the same places with exactly the addressed ones exchanged. */
  lemma {:induction false} FieldsSubst(env: Env, id: Id, fs: seq<Field>, s: Seen, index: nat, tm: TransMap)
    requires Usable(env, tm) && FieldsAddressed(env, id, fs, s, index, tm) && AsciiFields(fs)
    ensures ApplyFields(env, id, fs, index, tm).Done?
    ensures var a := ApplyFields(env, id, fs, index, tm).value;
            && |a.fields| == |fs|
            && (forall j | 0 <= j < |fs| ::
                  a.fields[j].ftype == fs[j].ftype
                  && (!LooksLikePrefix(fs[j]) ==> !LooksLikePrefix(a.fields[j])))
            && (!a.changed ==> a.fields == fs)
            && ExtractFields(env, id, a.fields, s, index) == SubstAll(tm, ExtractFields(env, id, fs, s, index))
    decreases |fs|
  {
    hide FieldAddressed, Observe, FieldTexts, NewData, WellKeyed, Eligible, AsciiFields, LooksLikePrefix, SubstAll;
    SubstNothing(tm);
    if fs != [] {
      AsciiUnfolds(fs);
      var s' := Observe(id, s, fs[0]);
      FieldSubst(env, id, s', fs[0], index, tm);
      FieldsSubst(env, id, fs[1..], s', index + 1, tm);
      var d := NewData(env, id, fs[0], index, tm).value;
      var f' := if d.Some? then Field(fs[0].ftype, d.value) else fs[0];
      SeenKept(id, s, fs[0], f', d.Some?);
      var a := ApplyFields(env, id, fs, index, tm).value;
      assert a.fields[0] == f' && a.fields[1..] == ApplyFields(env, id, fs[1..], index + 1, tm).value.fields;
      SubstAllSplits(tm, FieldTexts(env, id, s', fs[0], index), ExtractFields(env, id, fs[1..], s', index + 1));
    }
  }

  lemma SubstNothing(tm: TransMap)
    ensures SubstAll(tm, []) == []
  {
  }

  lemma AsciiUnfolds(fs: seq<Field>)
    requires AsciiFields(fs) && fs != []
    ensures Ascii(fs[0].ftype) && AsciiFields(fs[1..])
  {
    hide Ascii;
  }

  lemma SeenKept(id: Id, s: Seen, f: Field, g: Field, changed: bool)
    requires g.ftype == f.ftype && (!changed ==> g == f)
    requires changed ==> f.ftype == VMAD || Eligible(id, Observe(id, s, f), f.ftype)
    ensures Observe(id, s, g) == Observe(id, s, f)
    ensures changed ==> !LooksLikePrefix(g)
  {
    hide Observe, Eligible;
    if changed {
      SteeringIsNotText(id, Observe(id, s, f), f, g);
    }
  }
}
