/** The string table of a compiled script and its guarded rewrite (scripts/pex_engine.py).
    Text is kept as bytes: `clean` is decoding with replacement followed by encoding. */
module Pex {
  import opened Bytes

  const MAGIC := 0xFA57C0DE

  type Codec = bytes -> bytes

  /** Decoding yields text, and encoded text decodes to itself. */
  ghost predicate Idempotent(clean: Codec) {
    forall b :: clean(clean(b)) == clean(b)
  }

  /** A length-prefixed string: its bytes, cut at the end of the data, and where it ends. */
  function ReadLenStr(data: bytes, pos: nat): Outcome<(bytes, nat)> {
    if pos + 2 > |data| then Raised
    else
      var n := U16(data, pos);
      Done((Take(Drop(data, pos + 2), n), pos + 2 + n))
  }

  function SkipStrings(data: bytes, pos: nat, count: nat): Outcome<nat>
    decreases count
  {
    if count == 0 then Done(pos)
    else
      var s :- ReadLenStr(data, pos);
      SkipStrings(data, s.1, count - 1)
  }

  /** Where the table begins: behind 16 fixed bytes and three strings. */
  function TableOffset(data: bytes): Outcome<nat> {
    if |data| < 4 || U32(data, 0) != MAGIC then Raised else SkipStrings(data, 16, 3)
  }

  datatype Strings = Strings(raw: seq<bytes>, end: nat)

  function ReadStrings(data: bytes, pos: nat, count: nat): Outcome<Strings>
    decreases count
  {
    if count == 0 then Done(Strings([], pos))
    else
      var s :- ReadLenStr(data, pos);
      var rest :- ReadStrings(data, s.1, count - 1);
      Done(Strings([s.0] + rest.raw, rest.end))
  }

  datatype Script = Script(raw: seq<bytes>, start: nat, end: nat)

  /** The table's entries before decoding, and the stretch it occupies. */
  function ParseTable(data: bytes): Outcome<Script> {
    var start :- TableOffset(data);
    if start + 2 > |data| then Raised
    else
      var t :- ReadStrings(data, start + 2, U16(data, start));
      Done(Script(t.raw, start, t.end))
  }

  function Decoded(clean: Codec, raw: seq<bytes>): (texts: seq<bytes>)
    ensures |texts| == |raw|
    ensures forall i | 0 <= i < |raw| :: texts[i] == clean(raw[i])
  {
    seq(|raw|, i requires 0 <= i < |raw| => clean(raw[i]))
  }

  type Replacements = map<int, bytes>

  function Replaced(texts: seq<bytes>, reps: Replacements): (out: seq<bytes>)
    ensures |out| == |texts|
    ensures forall i | 0 <= i < |texts| :: out[i] == if i in reps && reps[i] != [] then reps[i] else texts[i]
  {
    seq(|texts|, i requires 0 <= i < |texts| => if i in reps && reps[i] != [] then reps[i] else texts[i])
  }

  predicate Storable(texts: seq<bytes>) {
    |texts| < U16_LIMIT && forall t | t in texts :: |t| < U16_LIMIT
  }

  function Packed(texts: seq<bytes>): bytes
    requires forall t | t in texts :: |t| < U16_LIMIT
  {
    if texts == [] then [] else P16(|texts[0]|) + texts[0] + Packed(texts[1..])
  }

  function BuildTable(texts: seq<bytes>): bytes
    requires Storable(texts)
  {
    P16(|texts|) + Packed(texts)
  }

  // ── The table is all that changes ───────────────────────────────────────────

  lemma {:induction false} SkipsRise(data: bytes, pos: nat, count: nat)
    ensures SkipStrings(data, pos, count).Done? ==> SkipStrings(data, pos, count).value >= pos
    decreases count
  {
    if count > 0 && ReadLenStr(data, pos).Done? {
      SkipsRise(data, ReadLenStr(data, pos).value.1, count - 1);
    }
  }

  lemma SkipStringsUnfolds(data: bytes, pos: nat, count: nat)
    ensures SkipStrings(data, pos, count) ==
            if count == 0 then Done(pos)
            else match ReadLenStr(data, pos) {
              case Raised => Raised
              case Done(s) => SkipStrings(data, s.1, count - 1)
            }
  {
  }

  lemma ReadIsLocal(data: bytes, pos: nat, start: nat, other: bytes)
    requires ReadLenStr(data, pos).Done? && ReadLenStr(data, pos).value.1 <= start <= |data|
    requires start <= |other| && other[..start] == data[..start]
    ensures ReadLenStr(other, pos).Done? && ReadLenStr(other, pos).value.1 == ReadLenStr(data, pos).value.1
  {
    assert data[pos] == data[..start][pos] == other[pos];
    assert data[pos + 1] == data[..start][pos + 1] == other[pos + 1];
  }

  /** Skipping stays inside the part it has read. */
  lemma {:induction false} SkipIsLocal(data: bytes, pos: nat, count: nat, start: nat, other: bytes)
    requires SkipStrings(data, pos, count) == Done(start) && start <= |data|
    requires start <= |other| && other[..start] == data[..start]
    ensures SkipStrings(other, pos, count) == Done(start)
    decreases count
  {
    hide SkipStrings, ReadLenStr, U16;
    SkipStringsUnfolds(data, pos, count);
    SkipStringsUnfolds(other, pos, count);
    if count > 0 {
      var next := ReadLenStr(data, pos).value.1;
      SkipsRise(data, next, count - 1);
      SkipIsLocal(data, next, count - 1, start, other);
      ReadIsLocal(data, pos, start, other);
    }
  }

  lemma HeaderIsLocal(data: bytes, start: nat, other: bytes)
    requires TableOffset(data) == Done(start) && start <= |data|
    requires start <= |other| && other[..start] == data[..start]
    ensures TableOffset(other) == Done(start)
  {
    SkipsRise(data, 16, 3);
    assert forall i | 0 <= i < 4 :: data[i] == data[..start][i] == other[i];
    SkipIsLocal(data, 16, 3, start, other);
  }

  lemma ReadStringsUnfolds(data: bytes, pos: nat, count: nat)
    ensures ReadStrings(data, pos, count) ==
            if count == 0 then Done(Strings([], pos))
            else match ReadLenStr(data, pos) {
              case Raised => Raised
              case Done(s) =>
                match ReadStrings(data, s.1, count - 1) {
                  case Raised => Raised
                  case Done(rest) => Done(Strings([s.0] + rest.raw, rest.end))
                }
            }
  {
  }

  lemma ReadFirst(pre: bytes, t: bytes, post: bytes)
    requires |t| < U16_LIMIT
    ensures ReadLenStr(pre + P16(|t|) + t + post, |pre|) == Done((t, |pre + P16(|t|) + t|))
  {
    hide U16, P16;
    var n := P16(|t|);
    var data := pre + n + t + post;
    ReadInside(pre, n, t + post);
    assert data == pre + n + (t + post);
    assert Take(Drop(data, |pre| + 2), |t|) == t;
  }

  lemma {:induction false} PackedReads(pre: bytes, texts: seq<bytes>, post: bytes)
    requires forall t | t in texts :: |t| < U16_LIMIT
    ensures ReadStrings(pre + Packed(texts) + post, |pre|, |texts|)
            == Done(Strings(texts, |pre| + |Packed(texts)|))
    decreases |texts|
  {
    hide U16, P16, ReadStrings, ReadLenStr;
    ReadStringsUnfolds(pre + Packed(texts) + post, |pre|, |texts|);
    if texts != [] {
      var t := texts[0];
      assert t in texts;
      var head := pre + P16(|t|) + t;
      PackedReads(head, texts[1..], post);
      ReadFirst(pre, t, Packed(texts[1..]) + post);
      assert pre + Packed(texts) + post == head + Packed(texts[1..]) + post;
      assert head + Packed(texts[1..]) + post == head + (Packed(texts[1..]) + post);
      assert [t] + texts[1..] == texts;
    }
  }

  lemma TableReads(header: bytes, texts: seq<bytes>, post: bytes)
    requires Storable(texts) && TableOffset(header + BuildTable(texts) + post) == Done(|header|)
    ensures ParseTable(header + BuildTable(texts) + post)
            == Done(Script(texts, |header|, |header| + |BuildTable(texts)|))
  {
    hide U16, P16, Packed;
    hide TableOffset, ReadStrings, ReadLenStr;
    var data := header + BuildTable(texts) + post;
    var n := P16(|texts|);
    ReadInside(header, n, Packed(texts) + post);
    assert data == header + n + (Packed(texts) + post);
    PackedReads(header + n, texts, post);
    assert data == header + n + Packed(texts) + post;
  }

  // ── A whole script, written out ─────────────────────────────────────────────

  /** The header of a compiled script: version, game and time of compilation, and the names
      of source file, user and machine. */
  datatype Header = Header(major: byte, minor: byte, game: nat, time: bytes, source: bytes, user: bytes, machine: bytes)

  predicate Printable(h: Header) {
    h.game < 0x10000 && |h.time| == 8 && |h.source| < 0x10000 && |h.user| < 0x10000 && |h.machine| < 0x10000
  }

  function Name(s: bytes): bytes
    requires |s| < 0x10000
  {
    P16(|s|) + s
  }

  function Fixed(h: Header): (b: bytes)
    requires Printable(h)
    ensures |b| == 16
  {
    [0xDE, 0xC0, 0x57, 0xFA] + [h.major, h.minor] + P16(h.game) + h.time
  }

  function PrintHeader(h: Header): bytes
    requires Printable(h)
  {
    Fixed(h) + Name(h.source) + Name(h.user) + Name(h.machine)
  }

  function PrintTexts(texts: seq<bytes>): bytes
    requires forall t | t in texts :: |t| < 0x10000
  {
    if texts == [] then [] else Name(texts[0]) + PrintTexts(texts[1..])
  }

  lemma SkipOne(pre: bytes, t: bytes, post: bytes, count: nat)
    requires |t| < 0x10000 && count > 0
    ensures SkipStrings(pre + Name(t) + post, |pre|, count)
            == SkipStrings(pre + Name(t) + post, |pre + Name(t)|, count - 1)
  {
    hide U16, P16;
    ReadFirst(pre, t, post);
    assert pre + P16(|t|) + t == pre + Name(t);
  }

  lemma HeaderIsSkipped(h: Header, rest: bytes)
    requires Printable(h)
    ensures TableOffset(PrintHeader(h) + rest) == Done(|PrintHeader(h)|)
  {
    hide Name, SkipStrings, U32, Fixed;
    var a := Fixed(h);
    var b := a + Name(h.source);
    var c := b + Name(h.user);
    var data := PrintHeader(h) + rest;
    SkipOne(a, h.source, Name(h.user) + Name(h.machine) + rest, 3);
    assert data == a + Name(h.source) + (Name(h.user) + Name(h.machine) + rest);
    SkipOne(b, h.user, Name(h.machine) + rest, 2);
    assert data == b + Name(h.user) + (Name(h.machine) + rest);
    SkipOne(c, h.machine, rest, 1);
    assert data == c + Name(h.machine) + rest;
    SkipsNothing(data, |PrintHeader(h)|);
    MagicIsRead(h, data);
  }

  lemma SkipsNothing(data: bytes, pos: nat)
    ensures SkipStrings(data, pos, 0) == Done(pos)
  {
  }

  lemma MagicIsRead(h: Header, data: bytes)
    requires Printable(h) && Fixed(h) <= data
    ensures |data| >= 4 && U32(data, 0) == MAGIC
  {
    assert data[..4] == [0xDE, 0xC0, 0x57, 0xFA];
    assert forall i | 0 <= i < 4 :: data[i] == data[..4][i];
  }

  lemma {:induction false} PrintedTexts(texts: seq<bytes>)
    requires forall t | t in texts :: |t| < 0x10000
    ensures PrintTexts(texts) == Packed(texts)
  {
    hide P16;
    if texts != [] {
      PrintedTexts(texts[1..]);
      assert Name(texts[0]) + Packed(texts[1..]) == P16(|texts[0]|) + texts[0] + Packed(texts[1..]);
    }
  }

  /** Every script written out as the format says parses to its texts, and the table is the
      stretch between header and the rest. */
  lemma PrintedScriptParses(h: Header, texts: seq<bytes>, rest: bytes)
    requires Printable(h) && |texts| < 0x10000 && forall t | t in texts :: |t| < 0x10000
    ensures var table := P16(|texts|) + PrintTexts(texts);
            ParseTable(PrintHeader(h) + table + rest)
            == Done(Script(texts, |PrintHeader(h)|, |PrintHeader(h) + table|))
  {
    hide Printable, PrintHeader, TableOffset, P16, ParseTable, PrintTexts, Packed;
    var header := PrintHeader(h);
    PrintedTexts(texts);
    var table := BuildTable(texts);
    HeaderIsSkipped(h, table + rest);
    assert header + (table + rest) == header + table + rest;
    TableReads(header, texts, rest);
  }

  /** The rebuilt script. */
  function Rebuilt(data: bytes, s: Script, texts: seq<bytes>): bytes
    requires Storable(texts)
  {
    Take(data, s.start) + BuildTable(texts) + Drop(data, s.end)
  }

  /** The rebuilt script parses to exactly the new texts; the header before the table and
      every byte behind it are those of the original. */
  lemma RebuiltParses(data: bytes, texts: seq<bytes>)
    requires ParseTable(data).Done? && Storable(texts)
    ensures var s := ParseTable(data).value;
            var out := Rebuilt(data, s, texts);
            && ParseTable(out) == Done(Script(texts, s.start, s.start + |BuildTable(texts)|))
            && out[..s.start] == data[..s.start]
            && Drop(out, s.start + |BuildTable(texts)|) == Drop(data, s.end)
  {
    hide BuildTable, TableOffset, ReadStrings;
    var s := ParseTable(data).value;
    var out := Rebuilt(data, s, texts);
    var header := data[..s.start];
    assert out == header + BuildTable(texts) + Drop(data, s.end);
    assert out[..s.start] == header;
    HeaderIsLocal(data, s.start, out);
    TableReads(header, texts, Drop(data, s.end));
  }

  /** What the rewrite returns. The encoder raises on a text that does not fit its prefix. */
  function Rewrite(clean: Codec, data: bytes, reps: Replacements): Outcome<(bytes, bool)> {
    var s :- ParseTable(data);
    if reps == map[] then Done((data, false))
    else
      var texts := Replaced(Decoded(clean, s.raw), reps);
      if !Storable(texts) then Raised else Done((Rebuilt(data, s, texts), true))
  }

  /** Only what begins with the magic number is a script. */
  lemma OnlyScriptsParse(clean: Codec, data: bytes, reps: Replacements)
    requires |data| < 4 || data[..4] != [0xDE, 0xC0, 0x57, 0xFA]
    ensures ParseTable(data).Raised? && Rewrite(clean, data, reps).Raised?
  {
    hide U32, SkipStrings, ReadStrings;
    if |data| >= 4 { MagicBytes(data); }
  }

  lemma MagicBytes(data: bytes)
    requires |data| >= 4 && data[..4] != [0xDE, 0xC0, 0x57, 0xFA]
    ensures U32(data, 0) != MAGIC
  {
    assert data[..4] == [data[0], data[1], data[2], data[3]];
  }

  /** Nothing to replace leaves any script as it is; otherwise the rewrite raises if and only
      if one of the new or decoded texts is too long for its prefix. */
  lemma RewriteRaisesExactly(clean: Codec, data: bytes, reps: Replacements)
    requires ParseTable(data).Done?
    ensures var s := ParseTable(data).value;
            && (reps == map[] ==> Rewrite(clean, data, reps) == Done((data, false)))
            && (reps != map[] ==>
                  && (Rewrite(clean, data, reps).Raised? <==>
                        exists i | 0 <= i < |s.raw| ::
                          |if i in reps && reps[i] != [] then reps[i] else clean(s.raw[i])| >= 0x1_0000)
                  && (Rewrite(clean, data, reps).Done? ==> Rewrite(clean, data, reps).value.1))
  {
    hide U16, SkipStrings, ReadStrings, Rebuilt, TableOffset;
    var s := ParseTable(data).value;
    var start := TableOffset(data).value;
    CountOfStrings(data, start + 2, U16(data, start));
    var texts := Replaced(Decoded(clean, s.raw), reps);
    if t :| t in texts && |t| >= U16_LIMIT {
      var i :| 0 <= i < |texts| && texts[i] == t;
      assert |if i in reps && reps[i] != [] then reps[i] else clean(s.raw[i])| >= 0x1_0000;
    } else {
      assert forall i | 0 <= i < |texts| :: texts[i] in texts;
    }
  }

  lemma {:induction false} CountOfStrings(data: bytes, pos: nat, count: nat)
    ensures ReadStrings(data, pos, count).Done? ==> |ReadStrings(data, pos, count).value.raw| == count
    decreases count
  {
    hide ReadLenStr;
    if count > 0 && ReadLenStr(data, pos).Done? { CountOfStrings(data, ReadLenStr(data, pos).value.1, count - 1); }
  }

  /** The result holds the same number of entries in the same order: the replaced texts at
      their indices, and elsewhere the entry's decoded form, which is the entry itself
      exactly when its bytes were valid. Everything outside the table is untouched. */
  lemma RewriteKeepsTheScript(clean: Codec, data: bytes, reps: Replacements)
    requires ParseTable(data).Done? && reps != map[] && Rewrite(clean, data, reps).Done?
    ensures var s := ParseTable(data).value;
            var out := Rewrite(clean, data, reps).value.0;
            var s' := ParseTable(out);
            && s'.Done? && |s'.value.raw| == |s.raw| && s'.value.start == s.start
            && (forall i | 0 <= i < |s.raw| ::
                  s'.value.raw[i] == if i in reps && reps[i] != [] then reps[i] else clean(s.raw[i]))
            && ((forall i | 0 <= i < |s.raw| && !(i in reps && reps[i] != []) :: s'.value.raw[i] == s.raw[i])
                <==> forall i | 0 <= i < |s.raw| && !(i in reps && reps[i] != []) :: clean(s.raw[i]) == s.raw[i])
            && out[..s.start] == data[..s.start]
            && Drop(out, s'.value.end) == Drop(data, s.end)
  {
    hide ParseTable, Rebuilt;
    RebuiltParses(data, Replaced(Decoded(clean, ParseTable(data).value.raw), reps));
  }

  // ── The code ────────────────────────────────────────────────────────────────

  method ReadTableOffset(data: bytes) returns (r: Outcome<nat>)
    ensures r == TableOffset(data)
  {
    hide U16, U32;
    if |data| < 4 || U32(data, 0) != MAGIC { return Raised; }
    var pos: nat := 16;
    for k := 0 to 3
      invariant SkipStrings(data, pos, 3 - k) == SkipStrings(data, 16, 3)
    {
      var s :- ReadLenStr(data, pos);
      pos := s.1;
    }
    return Done(pos);
  }

  function Prefixed(xs: seq<bytes>, t: Outcome<Strings>): Outcome<Strings> {
    match t
    case Raised => Raised
    case Done(s) => Done(Strings(xs + s.raw, s.end))
  }

  lemma PrefixedNext(xs: seq<bytes>, data: bytes, pos: nat, count: nat)
    requires count > 0 && ReadLenStr(data, pos).Done?
    ensures var s := ReadLenStr(data, pos).value;
            Prefixed(xs, ReadStrings(data, pos, count)) == Prefixed(xs + [s.0], ReadStrings(data, s.1, count - 1))
  {
    hide ReadLenStr;
    var s := ReadLenStr(data, pos).value;
    var rest := ReadStrings(data, s.1, count - 1);
    if rest.Done? { assert xs + ([s.0] + rest.value.raw) == xs + [s.0] + rest.value.raw; }
  }

  method ParseStringTable(data: bytes) returns (r: Outcome<Script>)
    ensures r == ParseTable(data)
  {
    hide TableOffset, ReadLenStr;
    var start :- ReadTableOffset(data);
    if start + 2 > |data| { return Raised; }
    var count := U16(data, start);
    var pos: nat := start + 2;
    var strings: seq<bytes> := [];
    ghost var whole := ReadStrings(data, start + 2, count);
    assert whole.Done? ==> [] + whole.value.raw == whole.value.raw;
    for k := 0 to count
      invariant Prefixed(strings, ReadStrings(data, pos, count - k)) == whole
    {
      if ReadLenStr(data, pos).Done? { PrefixedNext(strings, data, pos, count - k); }
      var s :- ReadLenStr(data, pos);
      strings := strings + [s.0];
      pos := s.1;
    }
    assert strings + [] == strings;
    return Done(Script(strings, start, pos));
  }

  method BuildStringTable(strings: seq<bytes>) returns (r: Outcome<bytes>)
    ensures r == if Storable(strings) then Done(BuildTable(strings)) else Raised
  {
    hide P16;
    if |strings| >= U16_LIMIT { return Raised; }
    var out := P16(|strings|);
    for k := 0 to |strings|
      invariant forall t | t in strings[..k] :: |t| < U16_LIMIT
      invariant out == P16(|strings|) + Packed(strings[..k])
    {
      var b := strings[k];
      if |b| >= U16_LIMIT { assert b in strings; return Raised; }
      assert strings[..k + 1] == strings[..k] + [b];
      PackedAppends(strings[..k], b);
      out := out + (P16(|b|) + b);
    }
    assert strings[..|strings|] == strings;
    return Done(out);
  }

  lemma {:induction false} PackedAppends(texts: seq<bytes>, t: bytes)
    requires |t| < U16_LIMIT && forall x | x in texts :: |x| < U16_LIMIT
    ensures forall x | x in texts + [t] :: |x| < U16_LIMIT
    ensures Packed(texts + [t]) == Packed(texts) + (P16(|t|) + t)
  {
    hide P16;
    if texts == [] {
      assert [] + [t] == [t] && [t][1..] == [];
    } else {
      assert texts[0] in texts;
      PackedAppends(texts[1..], t);
      assert (texts + [t])[1..] == texts[1..] + [t];
    }
  }

  lemma SomeMember(s: set<int>)
    ensures s == {} || exists i :: i in s
  {
    if forall i :: i !in s { assert forall i :: i in s <==> i in {}; }
  }

  /** The rewrite with its self-check; the check never turns a rewrite down. */
  method RewritePexStrings(clean: Codec, data: bytes, reps: Replacements) returns (r: Outcome<(bytes, bool)>)
    requires Idempotent(clean)
    ensures r == Rewrite(clean, data, reps)
  {
    hide ParseTable, BuildTable;
    var s :- ParseStringTable(data);
    if reps == map[] { return Done((data, false)); }
    var strings := Decoded(clean, s.raw);
    var newStrings := strings;
    var left := reps.Keys;
    while left != {}
      invariant left <= reps.Keys
      invariant newStrings == Replaced(strings, map i | i in reps && i !in left :: reps[i])
      decreases |left|
    {
      SomeMember(left);
      var i :| i in left;
      left := left - {i};
      if 0 <= i < |newStrings| && reps[i] != [] { newStrings := newStrings[i := reps[i]]; }
    }
    assert (map i | i in reps && i !in left :: reps[i]) == reps;
    var table :- BuildStringTable(newStrings);
    var rebuilt := Take(data, s.start) + table + Drop(data, s.end);
    RebuiltParses(data, newStrings);
    var check := ParseStringTable(rebuilt);
    if check.Raised? || |check.value.raw| != |strings| { return Done((data, false)); }
    for i := 0 to |strings|
    {
      if i in reps { continue; }
      if strings[i] != clean(check.value.raw[i]) { return Done((data, false)); }
    }
    return Done((rebuilt, true));
  }
}
