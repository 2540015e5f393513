/** Subrecords of a plugin record: the parser, the builder and how far each undoes the
    other (scripts/esp_engine.py). */
module Subrecords {
  import opened Bytes

  datatype Field = Field(ftype: bytes, data: bytes)

  const XXXX: bytes := [0x58, 0x58, 0x58, 0x58]

  /** A field the builder can write: a four-byte type and a 32-bit size. */
  predicate Writable(f: Field) {
    |f.ftype| == 4 && |f.data| < U32_LIMIT
  }

  predicate AllWritable(fs: seq<Field>) {
    forall f | f in fs :: Writable(f)
  }

  /** Once written, this field reads back as the size prefix of the next one. */
  predicate LooksLikePrefix(f: Field) {
    f.ftype == XXXX && |f.data| == 4
  }

  /** A field of claimed size `size` at the head of `rest`; the last one may be cut short. */
  function FieldAt(ftype: bytes, size: nat, rest: bytes): Field {
    Field(ftype, Take(rest, size))
  }

  /** All fields of a record's data. The only failure is a size prefix cut off inside
      its own four bytes. */
  function Parse(raw: bytes): Outcome<seq<Field>>
    decreases |raw|
  {
    if |raw| < 6 then Done([])
    else if raw[..4] == XXXX && U16(raw, 4) == 4 then
      if |raw| < 10 then Raised
      else if |raw| < 16 then Parse(raw[10..])
      else
        var size := U32(raw, 6);
        Append([FieldAt(raw[10..14], size, raw[16..])], Parse(Drop(raw[16..], size)))
    else
      var size := U16(raw, 4);
      Append([FieldAt(raw[..4], size, raw[6..])], Parse(Drop(raw[6..], size)))
  }

  function BuildOne(f: Field): (out: bytes)
    requires Writable(f)
    ensures |out| == (if |f.data| > 0xFFFF then 16 else 6) + |f.data|
  {
    if |f.data| > 0xFFFF then XXXX + P16(4) + P32(|f.data|) + f.ftype + P16(0) + f.data
    else f.ftype + P16(|f.data|) + f.data
  }

  function Build(fs: seq<Field>): bytes
    requires AllWritable(fs)
  {
    if fs == [] then [] else BuildOne(fs[0]) + Build(fs[1..])
  }

  lemma ParseOne(f: Field, rest: bytes)
    requires Writable(f) && !LooksLikePrefix(f)
    ensures Parse(BuildOne(f) + rest) == Append([f], Parse(rest))
  {
    if |f.data| > 0xFFFF { ParseLarge(f, rest); } else { ParseSmall(f, rest); }
  }

  lemma ParseSmall(f: Field, rest: bytes)
    requires Writable(f) && !LooksLikePrefix(f) && |f.data| <= 0xFFFF
    ensures Parse(BuildOne(f) + rest) == Append([f], Parse(rest))
  {
    var raw := BuildOne(f) + rest;
    ReadInside(f.ftype, P16(|f.data|), f.data + rest);
    assert raw == f.ftype + P16(|f.data|) + (f.data + rest);
    assert raw[..4] == f.ftype && raw[6..] == f.data + rest;
    assert Take(raw[6..], |f.data|) == f.data && Drop(raw[6..], |f.data|) == rest;
  }

  lemma ParseLarge(f: Field, rest: bytes)
    requires Writable(f) && |f.data| > 0xFFFF
    ensures Parse(BuildOne(f) + rest) == Append([f], Parse(rest))
  {
    var raw := BuildOne(f) + rest;
    var tail := f.ftype + P16(0) + f.data + rest;
    assert raw == XXXX + P16(4) + (P32(|f.data|) + tail);
    ReadInside(XXXX, P16(4), P32(|f.data|) + tail);
    assert raw == (XXXX + P16(4)) + P32(|f.data|) + tail;
    ReadInside(XXXX + P16(4), P32(|f.data|), tail);
    assert raw[..4] == XXXX && raw[10..14] == f.ftype && raw[16..] == f.data + rest;
    assert Take(raw[16..], |f.data|) == f.data && Drop(raw[16..], |f.data|) == rest;
  }

  /** A field byte by byte: name, two bytes of size, data. It is written so and read so. */
  lemma SmallFieldInBytes(f: Field, lo: byte, hi: byte, rest: bytes)
    requires |f.ftype| == 4 && |f.data| == lo + 256 * hi && !LooksLikePrefix(f)
    ensures BuildOne(f) == f.ftype + [lo, hi] + f.data
    ensures Parse(f.ftype + [lo, hi] + f.data + rest) == Append([f], Parse(rest))
  {
    hide Parse;
    ParseOne(f, rest);
    assert P16(|f.data|) == [lo, hi];
  }

  /** A field of 65536 bytes or more: XXXX, the size of a size, the size in four bytes, name,
      two bytes that say nothing, data. */
  lemma LargeFieldInBytes(f: Field, a: byte, b: byte, c: byte, d: byte, rest: bytes)
    requires |f.ftype| == 4 && |f.data| == a + 256 * b + 65536 * c + 16777216 * d && |f.data| >= 65536
    ensures BuildOne(f) ==
            ['X' as int, 'X' as int, 'X' as int, 'X' as int] + [4, 0] + [a, b, c, d] + f.ftype + [0, 0] + f.data
    ensures Parse(BuildOne(f) + rest) == Append([f], Parse(rest))
  {
    hide Parse, Append;
    SizeInBytes(a, b, c, d);
    ParseOne(f, rest);
    assert P16(4) == [4, 0] && P16(0) == [0, 0];
  }

  lemma SizeInBytes(a: byte, b: byte, c: byte, d: byte)
    ensures P32(a + 256 * b + 65536 * c + 16777216 * d) == [a, b, c, d]
  {
    var v := a + 256 * b + 65536 * c + 16777216 * d;
    var lo, hi := a + 256 * b, c + 256 * d;
    assert v == 0x1_0000 * hi + lo;
    assert v / 0x1_0000 == hi && v % 0x1_0000 == lo;
    assert P16(lo) == [a, b] && P16(hi) == [c, d];
  }

  lemma {:induction false} BuildThenParseTail(fs: seq<Field>, rest: bytes)
    requires AllWritable(fs) && forall f | f in fs :: !LooksLikePrefix(f)
    ensures Parse(Build(fs) + rest) == Append(fs, Parse(rest))
  {
    hide Parse, BuildOne;
    if fs == [] {
      assert Build(fs) + rest == rest;
      AppendNothing(Parse(rest));
    } else {
      BuildThenParseTail(fs[1..], rest);
      ParseOne(fs[0], Build(fs[1..]) + rest);
      assert Build(fs) + rest == BuildOne(fs[0]) + (Build(fs[1..]) + rest);
      AppendAppend([fs[0]], fs[1..], Parse(rest));
      assert [fs[0]] + fs[1..] == fs;
    }
  }

  /** The least number of bytes a parse that yields `fs` has read. */
  function Cost(fs: seq<Field>): nat {
    if fs == [] then 0 else (if |fs[0].data| > 0xFFFF then 16 else 6) + |fs[0].data| + Cost(fs[1..])
  }

  lemma {:induction false} ParseReadsWhatItYields(raw: bytes)
    ensures Parse(raw).Done? ==> Cost(Parse(raw).value) <= |raw|
    decreases |raw|
  {
    hide U16, U32, Cost;
    if |raw| < 6 {
      CostOfNothing();
    } else if raw[..4] == XXXX && U16(raw, 4) == 4 {
      if |raw| >= 16 {
        var size := U32(raw, 6);
        ParseReadsWhatItYields(Drop(raw[16..], size));
        ConsCost(FieldAt(raw[10..14], size, raw[16..]), Parse(Drop(raw[16..], size)));
      } else if |raw| >= 10 {
        ParseReadsWhatItYields(raw[10..]);
      }
    } else {
      var size := U16(raw, 4);
      ParseReadsWhatItYields(Drop(raw[6..], size));
      ConsCost(FieldAt(raw[..4], size, raw[6..]), Parse(Drop(raw[6..], size)));
    }
  }

  lemma CostOfNothing()
    ensures Cost([]) == 0
  {
  }

  lemma ConsCost(f: Field, fs: Outcome<seq<Field>>)
    ensures fs.Done? ==> Cost(Append([f], fs).value) == (if |f.data| > 0xFFFF then 16 else 6) + |f.data| + Cost(fs.value)
  {
    if fs.Done? { assert ([f] + fs.value)[1..] == fs.value; }
  }

  lemma {:induction false} CostOfBuild(fs: seq<Field>)
    requires AllWritable(fs)
    ensures Cost(fs) == |Build(fs)|
  {
    hide BuildOne;
    if fs != [] { CostOfBuild(fs[1..]); }
  }

  /** Ten bytes of prefix yield nothing, so a small field behind them is overpaid. */
  lemma PrefixIsOverpaid(raw: bytes)
    requires |raw| >= 6 && raw[..4] == XXXX && U16(raw, 4) == 4
    ensures Parse(raw).Done? && Parse(raw).value != [] && |Parse(raw).value[0].data| <= 0xFFFF
            ==> Cost(Parse(raw).value) <= |raw| - 10
  {
    hide U16, U32, Cost;
    if |raw| >= 16 {
      var size := U32(raw, 6);
      var g := FieldAt(raw[10..14], size, raw[16..]);
      ParseReadsWhatItYields(Drop(raw[16..], size));
      ConsCost(g, Parse(Drop(raw[16..], size)));
      assert Parse(raw).Done? ==> Parse(raw).value[0] == g;
    }
  }

  /** A built field that looks like a prefix swallows its own header, so the bytes that
      are left cannot pay for all the fields. */
  lemma PrefixIsLost(f: Field, fs: seq<Field>)
    requires AllWritable([f] + fs) && AllWritable(fs) && LooksLikePrefix(f)
    ensures Parse(BuildOne(f) + Build(fs)) != Done([f] + fs)
  {
    hide Parse, U16, P16, Cost, Build;
    var raw := BuildOne(f) + Build(fs);
    assert Writable(f) by { assert ([f] + fs)[0] == f; }
    assert raw == XXXX + P16(4) + (f.data + Build(fs));
    ReadInside(XXXX, P16(4), f.data + Build(fs));
    PrefixIsOverpaid(raw);
    ConsCost(f, Done(fs));
    CostOfBuild(fs);
    assert ([f] + fs)[0] == f;
  }

  function FirstPrefix(fs: seq<Field>): (k: nat)
    ensures k <= |fs|
    ensures k < |fs| ==> LooksLikePrefix(fs[k])
    ensures forall j | 0 <= j < k :: !LooksLikePrefix(fs[j])
  {
    if fs == [] || LooksLikePrefix(fs[0]) then 0 else 1 + FirstPrefix(fs[1..])
  }

  /** Parsing undoes building exactly when no field is four bytes named XXXX. */
  lemma BuildThenParse(fs: seq<Field>)
    requires AllWritable(fs)
    ensures Parse(Build(fs)) == Done(fs) <==> FirstPrefix(fs) == |fs|
    ensures FirstPrefix(fs) == |fs| <==> forall f | f in fs :: !LooksLikePrefix(f)
  {
    hide Parse, BuildOne, Build, Append;
    var k := FirstPrefix(fs);
    if k == |fs| {
      BuildThenParseTail(fs, Build([]));
      NothingParses();
      assert Build(fs) + Build([]) == Build(fs);
      assert fs + [] == fs;
    } else {
      BrokenAt(fs, k);
    }
  }

  /** Six bytes announce a 32-bit size, and the field they announce is itself named XXXX. */
  const NAMED_XXXX: bytes := XXXX + [4, 0] + [4, 0, 0, 0] + XXXX + [0, 0] + [1, 2, 3, 4]

  /** A file can hold such a field, behind a size prefix: it is parsed, written back without
      the prefix its size no longer needs, and lost when it is parsed again. */
  lemma XxxxFieldIsLost()
    ensures var f := Field(XXXX, [1, 2, 3, 4]);
            Writable(f) && Parse(NAMED_XXXX) == Done([f]) && Parse(Build([f])) == Done([])
  {
    hide Parse;
    var f := Field(XXXX, [1, 2, 3, 4]);
    var raw := NAMED_XXXX;
    assert raw[..4] == XXXX && U16(raw, 4) == 4 && U32(raw, 6) == 4;
    assert raw[10..14] == XXXX && raw[16..] == [1, 2, 3, 4];
    PrefixUnfolds(raw);
    assert Drop(raw[16..], 4) == [] && FieldAt(raw[10..14], 4, raw[16..]) == f;
    NothingParses();
    assert [f] + [] == [f];
    var out := Build([f]);
    assert [f][1..] == [] && out == BuildOne(f);
    assert out == XXXX + P16(4) + [1, 2, 3, 4];
    assert out[..4] == XXXX && out[4..6] == P16(4) && U16(out, 4) == 4;
    PrefixUnfolds(out);
    assert out[10..] == [];
  }

  lemma PrefixUnfolds(raw: bytes)
    requires |raw| >= 10 && raw[..4] == XXXX && U16(raw, 4) == 4
    ensures |raw| < 16 ==> Parse(raw) == Parse(raw[10..])
    ensures |raw| >= 16 ==>
              Parse(raw) == Append([FieldAt(raw[10..14], U32(raw, 6), raw[16..])], Parse(Drop(raw[16..], U32(raw, 6))))
  {
  }

  lemma BrokenAt(fs: seq<Field>, k: nat)
    requires AllWritable(fs) && k < |fs| && LooksLikePrefix(fs[k])
    requires forall j | 0 <= j < k :: !LooksLikePrefix(fs[j])
    ensures Parse(Build(fs)) != Done(fs)
  {
    hide Parse, BuildOne, Build, Append;
    var pre, rest := fs[..k], fs[k..];
    assert fs == pre + rest;
    BuildSplits(pre, rest);
    BuildThenParseTail(pre, Build(rest));
    assert rest == [fs[k]] + fs[k + 1..];
    BuildUnfolds(fs[k], fs[k + 1..]);
    PrefixIsLost(fs[k], fs[k + 1..]);
    AppendCancels(pre, Parse(Build(rest)), rest);
  }

  lemma NothingParses()
    ensures Build([]) == [] && Parse([]) == Done([])
    ensures forall fs: seq<Field> :: Append(fs, Done([])) == Done(fs)
  {
    forall fs: seq<Field>
      ensures Append(fs, Done([])) == Done(fs)
    {
      assert fs + [] == fs;
    }
  }

  lemma BuildUnfolds(f: Field, fs: seq<Field>)
    requires AllWritable([f] + fs)
    ensures AllWritable(fs) && Writable(f) && Build([f] + fs) == BuildOne(f) + Build(fs)
  {
    assert ([f] + fs)[0] == f && ([f] + fs)[1..] == fs;
  }

  lemma AppendCancels(pre: seq<Field>, tail: Outcome<seq<Field>>, rest: seq<Field>)
    ensures Append(pre, tail) == Done(pre + rest) ==> tail == Done(rest)
  {
    if tail.Done? {
      assert tail.value == (pre + tail.value)[|pre|..] && rest == (pre + rest)[|pre|..];
    }
  }

  lemma {:induction false} BuildSplits(a: seq<Field>, b: seq<Field>)
    requires AllWritable(a + b)
    ensures AllWritable(a) && AllWritable(b)
    ensures Build(a + b) == Build(a) + Build(b)
  {
    assert AllWritable(a) by { assert forall f | f in a :: f in a + b; }
    assert AllWritable(b) by { assert forall f | f in b :: f in a + b; }
    if a == [] {
      assert a + b == b;
    } else {
      assert (a + b)[1..] == a[1..] + b;
      BuildSplits(a[1..], b);
    }
  }

  lemma {:induction false} ParsedTypes(raw: bytes)
    ensures Parse(raw).Done? ==> forall f | f in Parse(raw).value :: |f.ftype| == 4
    decreases |raw|
  {
    if |raw| < 6 {
    } else if raw[..4] == XXXX && U16(raw, 4) == 4 {
      if |raw| >= 16 {
        ParsedTypes(Drop(raw[16..], U32(raw, 6)));
      } else if |raw| >= 10 {
        ParsedTypes(raw[10..]);
      }
    } else {
      ParsedTypes(Drop(raw[6..], U16(raw, 4)));
    }
  }

  // ── The code ────────────────────────────────────────────────────────────────

  /** Whether the six bytes at `pos` announce a 32-bit size. */
  predicate PrefixAt(data: bytes, pos: nat)
    requires pos + 6 <= |data|
  {
    data[pos..pos + 4] == XXXX && U16(data, pos + 4) == 4
  }

  lemma PlainUnfolds(raw: bytes)
    requires |raw| >= 6 && !(raw[..4] == XXXX && U16(raw, 4) == 4)
    ensures Parse(raw) == Append([FieldAt(raw[..4], U16(raw, 4), raw[6..])], Parse(Drop(raw[6..], U16(raw, 4))))
  {
  }

  lemma PlainStep(data: bytes, pos: nat, fields: seq<Field>)
    requires pos + 6 <= |data| && !PrefixAt(data, pos)
    ensures var size := U16(data, pos + 4);
            var f := FieldAt(data[pos..pos + 4], size, Drop(data, pos + 6));
            Append(fields, Parse(Drop(data, pos))) == Append(fields + [f], Parse(Drop(data, pos + 6 + size)))
  {
    hide Parse, Append;
    var rest, size := Drop(data, pos), U16(data, pos + 4);
    assert rest[..4] == data[pos..pos + 4] && U16(rest, 4) == size;
    PlainUnfolds(rest);
    DropDrop(data, pos, 6);
    DropDrop(data, pos + 6, size);
    AppendAppend(fields, [FieldAt(rest[..4], size, rest[6..])], Parse(Drop(rest[6..], size)));
  }

  lemma PrefixStep(data: bytes, pos: nat, fields: seq<Field>)
    requires pos + 6 <= |data| && PrefixAt(data, pos)
    ensures pos + 10 > |data| ==> Parse(Drop(data, pos)).Raised?
    ensures pos + 10 <= |data| < pos + 16 ==> Parse(Drop(data, pos)) == Parse(Drop(data, pos + 10))
    ensures pos + 16 <= |data| ==>
              var size := U32(data, pos + 6);
              var f := FieldAt(data[pos + 10..pos + 14], size, Drop(data, pos + 16));
              Append(fields, Parse(Drop(data, pos))) == Append(fields + [f], Parse(Drop(data, pos + 16 + size)))
  {
    var rest := Drop(data, pos);
    assert rest[..4] == data[pos..pos + 4] && U16(rest, 4) == U16(data, pos + 4);
    DropDrop(data, pos, 10);
    if pos + 16 <= |data| {
      var size := U32(data, pos + 6);
      assert U32(rest, 6) == size;
      assert rest[10..14] == data[pos + 10..pos + 14];
      DropDrop(data, pos, 16);
      DropDrop(data, pos + 16, size);
      AppendAppend(fields, [FieldAt(rest[10..14], size, rest[16..])], Parse(Drop(rest[16..], size)));
    }
  }

  method ParseSubrecords(data: bytes) returns (r: Outcome<seq<Field>>)
    ensures r == Parse(data)
  {
    hide Parse;
    var fields: seq<Field> := [];
    var pos := 0;
    assert Drop(data, 0) == data;
    AppendNothing(Parse(data));
    while pos + 6 <= |data|
      invariant Append(fields, Parse(Drop(data, pos))) == Parse(data)
      decreases |data| - pos
    {
      var ftype := data[pos..pos + 4];
      var fsize := U16(data, pos + 4);
      if ftype == XXXX && fsize == 4 {
        PrefixStep(data, pos, fields);
        pos := pos + 6;
        if pos + 4 > |data| { return Raised; }
        var realSize := U32(data, pos);
        pos := pos + 4;
        if pos + 6 <= |data| {
          var ftype2 := data[pos..pos + 4];
          pos := pos + 6;
          fields := fields + [Field(ftype2, Take(Drop(data, pos), realSize))];
          pos := pos + realSize;
        }
        continue;
      }
      PlainStep(data, pos, fields);
      pos := pos + 6;
      fields := fields + [Field(ftype, Take(Drop(data, pos), fsize))];
      pos := pos + fsize;
    }
    ShortParse(Drop(data, pos));
    assert fields + [] == fields;
    return Done(fields);
  }

  lemma ShortParse(raw: bytes)
    requires |raw| < 6
    ensures Parse(raw) == Done([])
  {
  }

  lemma BuildAppends(fs: seq<Field>, f: Field)
    requires AllWritable(fs) && Writable(f)
    ensures AllWritable(fs + [f]) && Build(fs + [f]) == Build(fs) + BuildOne(f)
  {
    BuildSplits(fs, [f]);
    assert [f][1..] == [];
  }

  /** Raises when a field is too large for a 32-bit size. */
  method BuildSubrecords(fields: seq<Field>) returns (r: Outcome<bytes>)
    requires forall f | f in fields :: |f.ftype| == 4
    ensures r == if AllWritable(fields) then Done(Build(fields)) else Raised
  {
    hide Build;
    var out: bytes := [];
    NothingParses();
    for i := 0 to |fields|
      invariant AllWritable(fields[..i])
      invariant out == Build(fields[..i])
    {
      var f := fields[i];
      var size := |f.data|;
      if size >= U32_LIMIT { assert f in fields && !Writable(f); return Raised; }
      assert fields[..i + 1] == fields[..i] + [f];
      BuildAppends(fields[..i], f);
      if size > 0xFFFF {
        out := out + (XXXX + P16(4) + P32(size) + f.ftype + P16(0) + f.data);
      } else {
        out := out + (f.ftype + P16(size) + f.data);
      }
    }
    assert fields[..|fields|] == fields;
    return Done(out);
  }
}
