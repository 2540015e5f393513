/** The three string files of a localized plugin, held together (scripts/strings_codec.py). */
module LocalizedStrings {
  import opened Bytes
  import opened StringTable

  datatype Kind = STRINGS | ILSTRINGS | DLSTRINGS

  const KINDS: seq<Kind> := [STRINGS, ILSTRINGS, DLSTRINGS]

  predicate LengthPrefixed(k: Kind) {
    k != STRINGS
  }

  /** The files on disk, by kind. */
  type Files = map<Kind, bytes>

  /** One table for each kind of file. */
  datatype ByKind = ByKind(strings: Table, ilstrings: Table, dlstrings: Table) {
    function At(k: Kind): Table {
      match k
      case STRINGS => strings
      case ILSTRINGS => ilstrings
      case DLSTRINGS => dlstrings
    }

    function With(k: Kind, t: Table): ByKind {
      match k
      case STRINGS => this.(strings := t)
      case ILSTRINGS => this.(ilstrings := t)
      case DLSTRINGS => this.(dlstrings := t)
    }
  }

  datatype Tables = Tables(byKind: ByKind, kindOf: map<nat, Kind>)

  /** The file an id belongs to: the last one in reading order that has it. */
  function HomeOf(byKind: ByKind, id: nat): Option<Kind>
  {
    if id in byKind.dlstrings then Some(DLSTRINGS)
    else if id in byKind.ilstrings then Some(ILSTRINGS)
    else if id in byKind.strings then Some(STRINGS)
    else None
  }

  /** Every known id is filed under its home. */
  ghost predicate Coherent(t: Tables) {
    && (forall id :: id in t.kindOf <==> HomeOf(t.byKind, id).Some?)
    && (forall id | id in t.kindOf :: HomeOf(t.byKind, id) == Some(t.kindOf[id]))
  }

  function ParseKind(files: Files, k: Kind): Outcome<Table> {
    if k in files then Parse(files[k], LengthPrefixed(k)) else Done(map[])
  }

  function FileAll(kindOf: map<nat, Kind>, t: Table, k: Kind): map<nat, Kind> {
    kindOf + map id | id in t :: k
  }

  function Load(files: Files): Outcome<Tables> {
    var s :- ParseKind(files, STRINGS);
    var i :- ParseKind(files, ILSTRINGS);
    var d :- ParseKind(files, DLSTRINGS);
    Done(Tables(ByKind(s, i, d),
                FileAll(FileAll(FileAll(map[], s, STRINGS), i, ILSTRINGS), d, DLSTRINGS)))
  }

  function Text(t: Tables, id: nat): Option<bytes>
  {
    if id in t.kindOf && id in t.byKind.At(t.kindOf[id]) then Some(t.byKind.At(t.kindOf[id])[id]) else None
  }

  function Merged(t: Tables): Table
  {
    t.byKind.strings + t.byKind.ilstrings + t.byKind.dlstrings
  }

  function Set(t: Tables, id: nat, text: bytes): Tables
  {
    if id !in t.kindOf then t
    else
      var entries: Table := t.byKind.At(t.kindOf[id])[id := text];
      t.(byKind := t.byKind.With(t.kindOf[id], entries))
  }

  ghost function WriteKind(t: Tables, files: Files, k: Kind): Outcome<Files>
  {
    if t.byKind.At(k) == map[] then Done(files)
    else
      var blob :- Build(t.byKind.At(k), LengthPrefixed(k));
      Done(files[k := blob])
  }

  ghost function Write(t: Tables, files: Files): Outcome<Files>
  {
    var a :- WriteKind(t, files, STRINGS);
    var b :- WriteKind(t, a, ILSTRINGS);
    WriteKind(t, b, DLSTRINGS)
  }

  // ── Laws ────────────────────────────────────────────────────────────────────

  lemma LoadIsCoherent(files: Files)
    ensures Load(files).Done? ==> Coherent(Load(files).value)
    ensures Load(files).Done? ==> forall k: Kind :: Clean(Load(files).value.byKind.At(k))
  {
    hide Parse, Clean;
    forall k: Kind
      ensures ParseKind(files, k).Done? ==> Clean(ParseKind(files, k).value)
    {
      if k in files { ParseIsClean(files[k], LengthPrefixed(k)); } else { EmptyIsClean(); }
    }
  }

  /** Each kind of file is read in its own format, the first without lengths and the other two
      with them, a missing one as empty; an id in several belongs to the last of them. */
  lemma KindsAreRead(files: Files)
    requires Load(files).Done?
    ensures var t := Load(files).value;
            && (if STRINGS in files then Parse(files[STRINGS], false) == Done(t.byKind.strings)
                else t.byKind.strings == map[])
            && (if ILSTRINGS in files then Parse(files[ILSTRINGS], true) == Done(t.byKind.ilstrings)
                else t.byKind.ilstrings == map[])
            && (if DLSTRINGS in files then Parse(files[DLSTRINGS], true) == Done(t.byKind.dlstrings)
                else t.byKind.dlstrings == map[])
            && (forall id | id in t.kindOf ::
                  t.kindOf[id] == if id in t.byKind.dlstrings then DLSTRINGS
                                  else if id in t.byKind.ilstrings then ILSTRINGS else STRINGS)
  {
    hide Parse;
  }

  lemma ParseIsClean(blob: bytes, prefixed: bool)
    ensures Parse(blob, prefixed).Done? ==> Clean(Parse(blob, prefixed).value)
  {
    hide U32, Entries;
    if |blob| >= 8 && 8 + 8 * U32(blob, 0) <= |blob| {
      EntriesAreClean(blob, prefixed, 8 + 8 * U32(blob, 0), U32(blob, 0));
    }
  }

  lemma EmptyIsClean()
    ensures Clean(map[])
  {
  }

  /** Looking an id up and looking into the merged table never disagree, even when the id
      occurs in several files. */
  lemma TextIsMerged(t: Tables, id: nat)
    requires Coherent(t)
    ensures Text(t, id) == if id in Merged(t) then Some(Merged(t)[id]) else None
  {
  }

  /** Setting a text keeps the filing, changes one id of the merged table and no other;
      an unknown id changes nothing. */
  lemma SetChangesOne(t: Tables, id: nat, text: bytes)
    requires Coherent(t)
    ensures Coherent(Set(t, id, text))
    ensures Merged(Set(t, id, text)) == if id in Merged(t) then Merged(t)[id := text] else Merged(t)
    ensures id in t.kindOf <==> id in Merged(t)
  {
    TextIsMerged(t, id);
    var u := Set(t, id, text);
    assert forall x, k: Kind :: x in u.byKind.At(k) <==> x in t.byKind.At(k);
    assert forall x :: HomeOf(u.byKind, x) == HomeOf(t.byKind, x);
  }

  lemma KindSurvivesWriting(t: Tables, files: Files, k: Kind)
    requires Write(t, files).Done?
    ensures t.byKind.At(k) == map[] ==>
              && (k in Write(t, files).value <==> k in files)
              && (k in files ==> Write(t, files).value[k] == files[k])
    ensures t.byKind.At(k) != map[] ==>
              && k in Write(t, files).value
              && Build(t.byKind.At(k), LengthPrefixed(k)) == Done(Write(t, files).value[k])
  {
    hide Build;
  }

  function CutKinds(byKind: ByKind): ByKind
  {
    ByKind(CutAtNul(byKind.strings), CutAtNul(byKind.ilstrings), CutAtNul(byKind.dlstrings))
  }

  /** Loading what was written gives the same tables, each text cut at its first NUL. */
  lemma LoadAfterWrite(t: Tables, files: Files)
    requires Coherent(t) && Write(t, files).Done?
    requires forall k: Kind | t.byKind.At(k) == map[] :: ParseKind(files, k) == Done(map[])
    ensures Load(Write(t, files).value).Done?
    ensures Load(Write(t, files).value).value.byKind == CutKinds(t.byKind)
  {
    hide Build, Parse, Write;
    var after := Write(t, files).value;
    forall k: Kind
      ensures ParseKind(after, k) == Done(CutAtNul(t.byKind.At(k)))
    {
      KindSurvivesWriting(t, files, k);
      if t.byKind.At(k) == map[] {
        assert CutAtNul(map[]) == map[];
      } else {
        ParseAfterBuild(t.byKind.At(k), LengthPrefixed(k));
      }
    }
  }

  lemma CleanIsUncut(t: Table)
    requires Clean(t)
    ensures CutAtNul(t) == t
  {
    forall id | id in t
      ensures CString(t[id]) == t[id]
    {
      CStringKeeps(t[id]);
    }
  }

  lemma CutAfterSet(t: Table, id: nat, text: bytes)
    requires Clean(t)
    ensures CutAtNul(t[id := text]) == t[id := CString(text)]
  {
    hide CString;
    CleanIsUncut(t);
    assert forall x | x in t :: CutAtNul(t)[x] == t[x];
  }

  /** Load, set, write, load: the merged table has the new text, as far as a
      NUL-terminated file can hold it, under that id; every other id is as before. */
  lemma SetSurvivesTheDisk(files: Files, id: nat, text: bytes)
    requires Load(files).Done? && Write(Set(Load(files).value, id, text), files).Done?
    ensures var before := Load(files).value;
            var after := Load(Write(Set(before, id, text), files).value);
            && after.Done?
            && Merged(after.value) ==
                 (if id in Merged(before) then Merged(before)[id := CString(text)] else Merged(before))
            && Coherent(after.value)
  {
    hide Write, Parse, CString, Load;
    LoadIsCoherent(files);
    var before := Load(files).value;
    var t := Set(before, id, text);
    SetChangesOne(before, id, text);
    SetChangesOne(before, id, CString(text));
    EmptyKindsWereEmpty(files, id, text);
    LoadAfterWrite(t, files);
    LoadIsCoherent(Write(t, files).value);
    assert CutKinds(t.byKind) == Set(before, id, CString(text)).byKind by {
      CutOfSet(before, id, text);
    }
  }

  lemma CutOfSet(t: Tables, id: nat, text: bytes)
    requires Coherent(t) && forall k: Kind :: Clean(t.byKind.At(k))
    ensures CutKinds(Set(t, id, text).byKind) == Set(t, id, CString(text)).byKind
  {
    hide CString, Clean;
    forall k: Kind
      ensures CutAtNul(Set(t, id, text).byKind.At(k)) == Set(t, id, CString(text)).byKind.At(k)
    {
      if id in t.kindOf && t.kindOf[id] == k { CutAfterSet(t.byKind.At(k), id, text); } else { CleanIsUncut(t.byKind.At(k)); }
    }
    var a, b := Set(t, id, text).byKind, Set(t, id, CString(text)).byKind;
    assert CutAtNul(a.At(STRINGS)) == b.At(STRINGS) && CutAtNul(a.At(ILSTRINGS)) == b.At(ILSTRINGS)
           && CutAtNul(a.At(DLSTRINGS)) == b.At(DLSTRINGS);
  }

  lemma EmptyKindsWereEmpty(files: Files, id: nat, text: bytes)
    requires Load(files).Done?
    ensures forall k: Kind | Set(Load(files).value, id, text).byKind.At(k) == map[] :: ParseKind(files, k) == Done(map[])
  {
    hide Parse;
    var t := Load(files).value;
    assert forall k: Kind | id in t.kindOf && t.kindOf[id] == k :: id in Set(t, id, text).byKind.At(k);
    assert forall k: Kind :: ParseKind(files, k) == Done(t.byKind.At(k));
  }

  // ── The class ───────────────────────────────────────────────────────────────

  class Strings {
    var byKind: ByKind
    var kindOf: map<nat, Kind>

    ghost function View(): Tables
      reads this
    {
      Tables(byKind, kindOf)
    }

    ghost predicate Valid()
      reads this
    {
      Coherent(View())
    }

    constructor ()
      ensures byKind == ByKind(map[], map[], map[]) && kindOf == map[]
    {
      byKind := ByKind(map[], map[], map[]);
      kindOf := map[];
    }

    method ReadKind(k: Kind, files: Files) returns (r: Outcome<()>)
      modifies this
      ensures r.Raised? <==> ParseKind(files, k).Raised?
      ensures r.Done? ==>
        var parsed := ParseKind(files, k).value;
        && byKind == (if k in files then old(byKind).With(k, parsed) else old(byKind))
        && kindOf == FileAll(old(kindOf), parsed, k)
    {
      if k in files {
        var parsed := ParseStringsBytes(files[k], LengthPrefixed(k));
        if parsed.Raised? { return Raised; }
        byKind := byKind.With(k, parsed.value);
        kindOf := kindOf + map id | id in parsed.value :: k;
      }
      return Done(());
    }

    method GetText(id: nat) returns (r: Option<bytes>)
      requires Valid()
      ensures r == Text(View(), id)
      ensures r == if id in Merged(View()) then Some(Merged(View())[id]) else None
    {
      TextIsMerged(View(), id);
      if id !in kindOf { return None; }
      var kind := kindOf[id];
      return if id in byKind.At(kind) then Some(byKind.At(kind)[id]) else None;
    }

    method GetMerged() returns (out: Table)
      requires Valid()
      ensures out == Merged(View())
    {
      out := map[];
      out := out + byKind.strings;
      out := out + byKind.ilstrings;
      out := out + byKind.dlstrings;
    }

    method SetText(id: nat, text: bytes) returns (known: bool)
      requires Valid()
      modifies this
      ensures Valid() && View() == Set(old(View()), id, text)
      ensures known <==> id in old(Merged(View()))
      ensures Merged(View()) == if known then old(Merged(View()))[id := text] else old(Merged(View()))
    {
      SetChangesOne(View(), id, text);
      if id !in kindOf { return false; }
      var entries: Table := byKind.At(kindOf[id])[id := text];
      byKind := byKind.With(kindOf[id], entries);
      return true;
    }

    method WriteFiles(files: Files) returns (r: Outcome<Files>)
      requires Valid()
      ensures r == Write(View(), files)
    {
      hide Build;
      var out := files;
      for n := 0 to 3
        invariant n == 0 ==> out == files
        invariant n == 1 ==> Done(out) == WriteKind(View(), files, STRINGS)
        invariant n == 2 ==>
          && WriteKind(View(), files, STRINGS).Done?
          && Done(out) == WriteKind(View(), WriteKind(View(), files, STRINGS).value, ILSTRINGS)
        invariant n == 3 ==> Done(out) == Write(View(), files)
      {
        var kind := KINDS[n];
        if byKind.At(kind) == map[] { continue; }
        var blob :- BuildStringsBytes(byKind.At(kind), LengthPrefixed(kind));
        out := out[kind := blob];
      }
      return Done(out);
    }
  }

  method LoadStrings(files: Files) returns (r: Outcome<Strings>)
    ensures r.Raised? <==> Load(files).Raised?
    ensures r.Done? ==> fresh(r.value) && r.value.Valid() && r.value.View() == Load(files).value
  {
    hide Parse;
    LoadIsCoherent(files);
    var s := new Strings();
    var a := s.ReadKind(STRINGS, files);
    if a.Raised? { return Raised; }
    var b := s.ReadKind(ILSTRINGS, files);
    if b.Raised? { return Raised; }
    var c := s.ReadKind(DLSTRINGS, files);
    if c.Raised? { return Raised; }
    assert s.byKind == Load(files).value.byKind;
    return Done(s);
  }
}
