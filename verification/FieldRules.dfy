/** Which fields hold text, in the words of the record definitions, and that the extractor
    reports exactly those (scripts/esp_engine.py). */
module FieldRules {
  import opened Bytes
  import opened Subrecords
  import opened Records
  import V = Vmad

  /** The bytes of a four-letter name. */
  function Name(s: string): bytes
    requires |s| == 4 && forall i | 0 <= i < 4 :: s[i] < '\U{0080}'
  {
    [s[0] as int, s[1] as int, s[2] as int, s[3] as int]
  }

  /** Text in any record, and text in the records named beside it. */
  predicate Listed(ftype: bytes, rtype: bytes) {
    || ftype in {Name("FULL"), Name("DESC")}
    || (ftype, rtype) in {(Name("DNAM"), Name("MGEF")), (Name("NAM1"), Name("INFO")), (Name("SHRT"), Name("NPC_")),
                          (Name("CNAM"), Name("QUST")), (Name("CNAM"), Name("BOOK")), (Name("TNAM"), Name("WOOP")),
                          (Name("NNAM"), Name("QUST")), (Name("ITXT"), Name("MESG")), (Name("RDMP"), Name("REGN")),
                          (Name("RNAM"), Name("ACTI")), (Name("RNAM"), Name("FLOR")), (Name("RNAM"), Name("INFO")),
                          (Name("BPTN"), Name("BPTD")), (Name("MNAM"), Name("FACT")), (Name("FNAM"), Name("FACT")),
                          (Name("DESC"), Name("LSCR"))}
  }

  /** Field j is the last of this name before field k. */
  predicate LastBefore(fs: seq<Field>, k: nat, name: bytes, j: nat)
    requires k <= |fs|
  {
    j < k && fs[j].ftype == name && forall x | j < x < k :: fs[x].ftype != name
  }

  /** The last field of this name before field k has content that says yes. */
  ghost predicate Says(fs: seq<Field>, k: nat, name: bytes, yes: bytes -> bool)
    requires k <= |fs|
  {
    exists j: nat :: LastBefore(fs, k, name, j) && yes(fs[j].data)
  }

  function FirstIs(b: byte): bytes -> bool {
    (d: bytes) => d != [] && d[0] == b
  }

  /** The rule for field k of a record: a string setting by the first letter of its editor
      id, a perk's function data by the type before it, a note's text by its kind, every
      other field by the list. */
  ghost predicate RuleHolds(rtype: bytes, fs: seq<Field>, k: nat)
    requires k < |fs|
  {
    var f := fs[k].ftype;
    if rtype == Name("GMST") && f == Name("DATA") then Says(fs, k, Name("EDID"), FirstIs('s' as int))
    else if rtype == Name("PERK") && f == Name("EPFD") then Says(fs, k, Name("EPFT"), FirstIs(7))
    else if rtype == Name("PERK") && f == Name("EPF2") then Says(fs, k, Name("EPFT"), FirstIs(4))
    else if rtype == Name("NOTE") && f == Name("TNAM") then Says(fs, k, Name("DATA"), FirstIs(1))
    else Listed(f, rtype)
  }

  /** x is what field k reports: a string with letters of a script property, or the text of
      a field that holds one, up to its first NUL and with letters in it. */
  ghost predicate Reported(env: Env, id: Id, fs: seq<Field>, k: nat, x: Found)
    requires k < |fs|
  {
    && x.key == Key(id.formId, id.rtype, fs[k].ftype, k) && env.hasLetter(x.text)
    && if fs[k].ftype == Name("VMAD") then
         var es := V.Scan(V.Start, fs[k].data, 0);
         x.slot.Item? && x.slot.i < |es| && x.text == es[x.slot.i].text && (x.clipped <==> |x.text| < es[x.slot.i].len)
       else
         RuleHolds(id.rtype, fs, k) && fs[k].data != [] && x.slot.Whole? && x.text == CString(fs[k].data) && !x.clipped
  }

  lemma TranslatableIsListed(ftype: bytes, rtype: bytes)
    ensures Translatable(ftype, rtype) <==> Listed(ftype, rtype)
  {
  }

  // ── What the walk has seen ──────────────────────────────────────────────────

  function SeenBefore(id: Id, fs: seq<Field>, k: nat): Seen
    requires k <= |fs|
  {
    if k == 0 then UNSEEN else Observe(id, SeenBefore(id, fs, k - 1), fs[k - 1])
  }

  /** What is remembered of the last field of a name. */
  ghost predicate Remembers<T>(fs: seq<Field>, k: nat, name: bytes, m: Option<T>, of: bytes -> Option<T>)
    requires k <= |fs|
  {
    && (forall j: nat | LastBefore(fs, k, name, j) :: m == of(fs[j].data))
    && ((forall x | 0 <= x < k :: fs[x].ftype != name) ==> m == None)
  }

  lemma RemembersNext<T>(fs: seq<Field>, k: nat, name: bytes, m: Option<T>, of: bytes -> Option<T>, n: Option<T>)
    requires k < |fs| && Remembers(fs, k, name, m, of)
    requires n == if fs[k].ftype == name then of(fs[k].data) else m
    ensures Remembers(fs, k + 1, name, n, of)
  {
    forall j: nat | LastBefore(fs, k + 1, name, j)
      ensures n == of(fs[j].data)
    {
      if fs[k].ftype == name {
        assert j == k;
      } else {
        assert LastBefore(fs, k, name, j);
      }
    }
  }

  function EditorId(): bytes -> Option<bytes> {
    (d: bytes) => Some(CString(d))
  }

  function First(): bytes -> Option<byte> {
    (d: bytes) => FirstByte(d)
  }

  lemma {:induction false} SeenIs(id: Id, fs: seq<Field>, k: nat)
    requires k <= |fs|
    ensures var s := SeenBefore(id, fs, k);
            && Remembers(fs, k, EDID, s.edid, EditorId())
            && (id.rtype == PERK ==> Remembers(fs, k, EPFT, s.epft, First()))
            && (id.rtype == NOTE ==> Remembers(fs, k, DATA, s.noteType, First()))
  {
    hide CString, FirstByte, Remembers;
    if k == 0 {
      NothingSeen(fs, EDID, EditorId());
      NothingSeen(fs, EPFT, First());
      NothingSeen(fs, DATA, First());
    } else {
      SeenIs(id, fs, k - 1);
      var s, t := SeenBefore(id, fs, k - 1), SeenBefore(id, fs, k);
      RemembersNext(fs, k - 1, EDID, s.edid, EditorId(), t.edid);
      if id.rtype == PERK { RemembersNext(fs, k - 1, EPFT, s.epft, First(), t.epft); }
      if id.rtype == NOTE { RemembersNext(fs, k - 1, DATA, s.noteType, First(), t.noteType); }
    }
  }

  lemma NothingSeen<T>(fs: seq<Field>, name: bytes, of: bytes -> Option<T>)
    ensures Remembers(fs, 0, name, None, of)
  {
  }

  lemma {:induction false} SomeLast(fs: seq<Field>, k: nat, name: bytes, x: nat) returns (j: nat)
    requires x < k <= |fs| && fs[x].ftype == name
    ensures LastBefore(fs, k, name, j)
    decreases k
  {
    if fs[k - 1].ftype == name { j := k - 1; } else { j := SomeLast(fs, k - 1, name, x); }
  }

  /** What is remembered answers a question about the last field of the name. */
  lemma SaysIs<T>(fs: seq<Field>, k: nat, name: bytes, m: Option<T>, of: bytes -> Option<T>, yes: bytes -> bool,
                  good: Option<T> -> bool)
    requires k <= |fs| && Remembers(fs, k, name, m, of) && !good(None)
    requires forall d: bytes :: yes(d) <==> good(of(d))
    ensures Says(fs, k, name, yes) <==> good(m)
  {
    if x: nat :| x < k && fs[x].ftype == name {
      var j := SomeLast(fs, k, name, x);
      if i: nat :| LastBefore(fs, k, name, i) && yes(fs[i].data) { assert m == of(fs[i].data); }
    }
  }

  lemma FirstLetter(d: bytes)
    ensures CString(d) != [] && CString(d)[0] == 0x73 <==> d != [] && d[0] == 0x73
  {
  }

  /** The state of the walk decides as the rule does. */
  lemma EligibleIsRule(id: Id, fs: seq<Field>, k: nat)
    requires k < |fs|
    ensures Eligible(id, SeenBefore(id, fs, k + 1), fs[k].ftype) <==> RuleHolds(id.rtype, fs, k)
  {
    hide Remembers, Says, Translatable, Listed, CString;
    TranslatableIsListed(fs[k].ftype, id.rtype);
    SeenIs(id, fs, k);
    var s := SeenBefore(id, fs, k);
    NamesAre();
    if id.rtype == GMST && fs[k].ftype == DATA {
      forall d: bytes { FirstLetter(d); }
      SaysIs(fs, k, EDID, s.edid, EditorId(), FirstIs(0x73),
             (m: Option<bytes>) => m.Some? && m.value != [] && m.value[0] == 0x73);
    } else if id.rtype == PERK && fs[k].ftype == EPFD {
      SaysIs(fs, k, EPFT, s.epft, First(), FirstIs(7), (m: Option<byte>) => m == Some(7));
    } else if id.rtype == PERK && fs[k].ftype == EPF2 {
      SaysIs(fs, k, EPFT, s.epft, First(), FirstIs(4), (m: Option<byte>) => m == Some(4));
    } else if id.rtype == NOTE && fs[k].ftype == TNAM {
      SaysIs(fs, k, DATA, s.noteType, First(), FirstIs(1), (m: Option<byte>) => m == Some(1));
    }
  }

  lemma NamesAre()
    ensures Name("GMST") == GMST && Name("DATA") == DATA && Name("EDID") == EDID && Name("PERK") == PERK
    ensures Name("EPFD") == EPFD && Name("EPF2") == EPF2 && Name("EPFT") == EPFT && Name("NOTE") == NOTE
    ensures Name("TNAM") == TNAM && Name("VMAD") == VMAD
  {
  }

  // ── The whole record ────────────────────────────────────────────────────────

  lemma {:induction false} VmadTextsAre(env: Env, key: Key, es: seq<V.Entry>, i: nat)
    ensures forall x :: x in VmadTexts(env, key, es, i) <==>
              && x.key == key && x.slot.Item? && i <= x.slot.i < i + |es| && env.hasLetter(x.text)
              && x.text == es[x.slot.i - i].text && (x.clipped <==> V.Clipped(es[x.slot.i - i]))
    decreases |es|
  {
    if es != [] {
      VmadTextsAre(env, key, es[1..], i + 1);
      var xs, tail := VmadTexts(env, key, es, i), VmadTexts(env, key, es[1..], i + 1);
      var h := if env.hasLetter(es[0].text) then [Found(key, Item(i), es[0].text, V.Clipped(es[0]))] else [];
      assert xs == h + tail;
      forall x
        ensures x in xs <==>
                && x.key == key && x.slot.Item? && i <= x.slot.i < i + |es| && env.hasLetter(x.text)
                && x.text == es[x.slot.i - i].text && (x.clipped <==> V.Clipped(es[x.slot.i - i]))
      {
        assert x in xs <==> x in h || x in tail;
      }
    }
  }

  lemma FieldReports(env: Env, id: Id, fs: seq<Field>, k: nat, x: Found)
    requires k < |fs|
    ensures x in FieldTexts(env, id, SeenBefore(id, fs, k + 1), fs[k], k) <==> Reported(env, id, fs, k, x)
  {
    hide Eligible, RuleHolds, CString, V.Scan, SeenBefore, VmadTexts;
    EligibleIsRule(id, fs, k);
    NamesAre();
    if fs[k].ftype == VMAD { VmadTextsAre(env, KeyOf(id, fs[k], k), VmadStrings(fs[k]), 0); }
  }

  lemma {:induction false} FieldsReport(env: Env, id: Id, fs: seq<Field>, k: nat, x: Found)
    requires k <= |fs|
    ensures x in ExtractFields(env, id, fs[k..], SeenBefore(id, fs, k), k)
            <==> exists j: nat :: k <= j < |fs| && Reported(env, id, fs, j, x)
    decreases |fs| - k
  {
    hide FieldTexts, Observe, Reported;
    if k < |fs| {
      assert fs[k..][0] == fs[k] && fs[k..][1..] == fs[k + 1..];
      FieldsReport(env, id, fs, k + 1, x);
      FieldReports(env, id, fs, k, x);
    }
  }

  /** The extractor reports a text if and only if the rules say so of some field. */
  lemma ExtractedExactly(env: Env, id: Id, fs: seq<Field>)
    ensures forall x :: x in ExtractFields(env, id, fs, UNSEEN, 0)
                        <==> exists k: nat :: k < |fs| && Reported(env, id, fs, k, x)
  {
    hide Reported, ExtractFields;
    forall x
      ensures x in ExtractFields(env, id, fs, UNSEEN, 0) <==> exists k: nat :: k < |fs| && Reported(env, id, fs, k, x)
    {
      FieldsReport(env, id, fs, 0, x);
      assert fs[0..] == fs;
    }
  }
}
