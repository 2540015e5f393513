/** The localized-string files: directory, shared payloads and the parser that reads them
    back (scripts/strings_codec.py). */
module StringTable {
  import opened Bytes

  type Table = map<nat, bytes>

  // ── Parsing ─────────────────────────────────────────────────────────────────

  /** The text stored at `pos`, when enough of it is inside the file. */
  function ReadText(blob: bytes, prefixed: bool, pos: nat): Option<bytes> {
    if pos > |blob| then None
    else if !prefixed then Some(CString(Drop(blob, pos)))
    else if pos + 4 > |blob| then None
    else Some(CString(Take(Drop(blob, pos + 4), U32(blob, pos))))
  }

  /** The first n directory entries; a later entry of the same id replaces an earlier one. */
  function Entries(blob: bytes, prefixed: bool, dataStart: nat, n: nat): Table
    requires 8 + 8 * n <= |blob|
  {
    if n == 0 then map[] else
    var before := Entries(blob, prefixed, dataStart, n - 1);
    var at := 8 + 8 * (n - 1);
    match ReadText(blob, prefixed, dataStart + U32(blob, at + 4))
    case None => before
    case Some(t) => before[U32(blob, at) := t]
  }

  function Parse(blob: bytes, prefixed: bool): Outcome<Table> {
    if |blob| < 8 then Done(map[])
    else if 8 + 8 * U32(blob, 0) > |blob| then Raised
    else Done(Entries(blob, prefixed, 8 + 8 * U32(blob, 0), U32(blob, 0)))
  }

  /** Ids of 32 bits and texts without NUL. */
  predicate Clean(t: Table) {
    forall id | id in t :: id < U32_LIMIT && 0 !in t[id]
  }

  lemma {:induction false} EntriesAreClean(blob: bytes, prefixed: bool, dataStart: nat, n: nat)
    requires 8 + 8 * n <= |blob|
    ensures Clean(Entries(blob, prefixed, dataStart, n))
  {
    if n > 0 {
      EntriesAreClean(blob, prefixed, dataStart, n - 1);
      var at := 8 + 8 * (n - 1);
      var id := U32(blob, at);
      var text := ReadText(blob, prefixed, dataStart + U32(blob, at + 4));
      if text.Some? { CleanUpdate(Entries(blob, prefixed, dataStart, n - 1), id, text.value); }
    }
  }

  lemma CleanUpdate(t: Table, id: nat, text: bytes)
    requires Clean(t) && id < U32_LIMIT && 0 !in text
    ensures Clean(t[id := text])
  {
  }

  method ParseStringsBytes(blob: bytes, prefixed: bool) returns (r: Outcome<Table>)
    ensures r == Parse(blob, prefixed)
  {
    hide U32, CString;
    if |blob| < 8 { return Done(map[]); }
    var count := U32(blob, 0);
    var dataStart := 8 + count * 8;
    var out: Table := map[];
    var i := 0;
    while i < count
      invariant i <= count && 8 + 8 * i <= |blob|
      invariant out == Entries(blob, prefixed, dataStart, i)
    {
      if 8 + i * 8 + 8 > |blob| { return Raised; }
      var sid, off := U32(blob, 8 + i * 8), U32(blob, 8 + i * 8 + 4);
      var pos := dataStart + off;
      i := i + 1;
      if pos > |blob| { continue; }
      if prefixed {
        if pos + 4 > |blob| { continue; }
        var blen := U32(blob, pos);
        out := out[sid := CString(Take(Drop(blob, pos + 4), blen))];
      } else {
        out := out[sid := CString(Drop(blob, pos))];
      }
    }
    return Done(out);
  }

  /** Directory entry k, eight bytes behind the eight of the header: its id, and the place
      of its text behind the directory. */
  function IdAt(blob: bytes, k: nat): nat
    requires 16 + 8 * k <= |blob|
  {
    U32(blob, 8 + 8 * k)
  }

  function PlaceAt(blob: bytes, k: nat): nat
    requires 16 + 8 * k <= |blob|
  {
    8 + 8 * U32(blob, 0) + U32(blob, 12 + 8 * k)
  }

  /** The text of entry k can be read, and no later entry of the same id can. */
  predicate Counts(blob: bytes, prefixed: bool, n: nat, k: nat)
    requires 8 + 8 * n <= |blob|
  {
    && k < n && Inside(blob, prefixed, k)
    && forall j | k < j < n && IdAt(blob, j) == IdAt(blob, k) :: !Inside(blob, prefixed, j)
  }

  predicate Inside(blob: bytes, prefixed: bool, k: nat)
    requires 16 + 8 * k <= |blob|
  {
    PlaceAt(blob, k) + (if prefixed then 4 else 0) <= |blob|
  }

  /** Some readable entry has this id and no later one. */
  predicate Named(blob: bytes, prefixed: bool, n: nat, id: nat)
    requires 8 + 8 * n <= |blob|
  {
    exists k | 0 <= k < n :: Counts(blob, prefixed, n, k) && IdAt(blob, k) == id
  }

  /** The text entry k points at: up to the first NUL, and within the length in front of it
      where the file keeps one. */
  function TextAt(blob: bytes, prefixed: bool, k: nat): bytes
    requires 16 + 8 * k <= |blob| && Inside(blob, prefixed, k)
  {
    var p := PlaceAt(blob, k);
    CString(if prefixed then Take(blob[p + 4..], U32(blob, p)) else blob[p..])
  }

  lemma EntriesNext(blob: bytes, prefixed: bool, n: nat)
    requires 16 + 8 * n <= |blob|
    ensures var start := 8 + 8 * U32(blob, 0);
            Entries(blob, prefixed, start, n + 1) ==
            if Inside(blob, prefixed, n) then Entries(blob, prefixed, start, n)[IdAt(blob, n) := TextAt(blob, prefixed, n)]
            else Entries(blob, prefixed, start, n)
  {
    hide U32, CString;
  }

  lemma CountsNext(blob: bytes, prefixed: bool, n: nat)
    requires 16 + 8 * n <= |blob|
    ensures Counts(blob, prefixed, n + 1, n) <==> Inside(blob, prefixed, n)
    ensures forall k | 0 <= k < n ::
              Counts(blob, prefixed, n + 1, k) <==>
              Counts(blob, prefixed, n, k) && (Inside(blob, prefixed, n) ==> IdAt(blob, n) != IdAt(blob, k))
  {
    hide U32, IdAt, PlaceAt, Inside;
  }

  lemma {:induction false} EntriesExactly(blob: bytes, prefixed: bool, n: nat)
    requires 8 + 8 * n <= |blob|
    ensures var t := Entries(blob, prefixed, 8 + 8 * U32(blob, 0), n);
            && (forall k: nat | k < n && Counts(blob, prefixed, n, k) ::
                  IdAt(blob, k) in t && t[IdAt(blob, k)] == TextAt(blob, prefixed, k))
            && (forall id | id in t :: Named(blob, prefixed, n, id))
  {
    hide U32, CString, IdAt, PlaceAt, Entries, Inside, TextAt, Counts;
    if n == 0 {
      NoEntries(blob, prefixed);
    } else {
      EntriesExactly(blob, prefixed, n - 1);
      EntriesNext(blob, prefixed, n - 1);
      CountsNext(blob, prefixed, n - 1);
      var t := Entries(blob, prefixed, 8 + 8 * U32(blob, 0), n);
      assert forall k: nat | k < n && Counts(blob, prefixed, n, k) :: k == n - 1 || Counts(blob, prefixed, n - 1, k);
      forall id | id in t
        ensures Named(blob, prefixed, n, id)
      {
        if id == IdAt(blob, n - 1) && Inside(blob, prefixed, n - 1) {
          assert Counts(blob, prefixed, n, n - 1);
        } else {
          var k :| 0 <= k < n - 1 && Counts(blob, prefixed, n - 1, k) && IdAt(blob, k) == id;
          assert Counts(blob, prefixed, n, k);
        }
      }
    }
  }

  lemma NoEntries(blob: bytes, prefixed: bool)
    requires |blob| >= 8
    ensures Entries(blob, prefixed, 8 + 8 * U32(blob, 0), 0) == map[]
  {
    hide U32;
  }

  /** Exactly what a file says: nothing when it is shorter than its header, an error when the
      directory is cut off, else the ids of the readable entries, each with the text its last
      readable entry points at. */
  lemma ParsedExactly(blob: bytes, prefixed: bool)
    ensures |blob| < 8 ==> Parse(blob, prefixed) == Done(map[])
    ensures Parse(blob, prefixed).Raised? <==> |blob| >= 8 && 8 + 8 * U32(blob, 0) > |blob|
    ensures |blob| >= 8 && 8 + 8 * U32(blob, 0) <= |blob| ==>
              var t, n := Parse(blob, prefixed).value, U32(blob, 0);
              && (forall k: nat | k < n && Counts(blob, prefixed, n, k) ::
                    IdAt(blob, k) in t && t[IdAt(blob, k)] == TextAt(blob, prefixed, k))
              && (forall id | id in t :: Named(blob, prefixed, n, id))
  {
    hide U32, CString, Entries, Named, TextAt, Counts;
    if |blob| >= 8 && 8 + 8 * U32(blob, 0) <= |blob| { EntriesExactly(blob, prefixed, U32(blob, 0)); }
  }

  // ── Building ────────────────────────────────────────────────────────────────

  predicate Payable(text: bytes) {
    |text| + 1 < U32_LIMIT
  }

  function Payload(text: bytes, prefixed: bool): (p: bytes)
    requires Payable(text)
    ensures |p| > 0
  {
    var body := text + [0];
    if prefixed then P32(|body|) + body else body
  }

  /** The first occurrence of every payload, in order of use. */
  function Distinct(ps: seq<bytes>): (d: seq<bytes>)
    ensures forall p :: p in d <==> p in ps
    ensures forall j, k | 0 <= j < k < |d| :: d[j] != d[k]
  {
    if ps == [] then [] else
    var n := |ps| - 1;
    var d := Distinct(ps[..n]);
    assert ps == ps[..n] + [ps[n]];
    if ps[n] in ps[..n] then d else d + [ps[n]]
  }

  function Concat(ps: seq<bytes>): bytes {
    if ps == [] then [] else Concat(ps[..|ps| - 1]) + ps[|ps| - 1]
  }

  /** Where payload p starts in the concatenation of d. */
  function OffsetIn(d: seq<bytes>, p: bytes): nat
    requires p in d
  {
    var n := |d| - 1;
    if d[n] == p && p !in d[..n] then |Concat(d[..n])| else
    assert d == d[..n] + [d[n]];
    OffsetIn(d[..n], p)
  }

  lemma {:induction false} FoundAtOffset(d: seq<bytes>, p: bytes)
    requires p in d
    ensures OffsetIn(d, p) + |p| <= |Concat(d)|
    ensures Concat(d)[OffsetIn(d, p)..OffsetIn(d, p) + |p|] == p
  {
    var n := |d| - 1;
    if !(d[n] == p && p !in d[..n]) {
      assert d == d[..n] + [d[n]];
      FoundAtOffset(d[..n], p);
    }
  }

  /** Appending a payload that is new moves no other payload. */
  lemma OffsetStays(d: seq<bytes>, p: bytes, q: bytes)
    requires p in d && q !in d
    ensures OffsetIn(d + [q], p) == OffsetIn(d, p)
    ensures OffsetIn(d + [q], q) == |Concat(d)|
    ensures Concat(d + [q]) == Concat(d) + q
  {
    assert (d + [q])[..|d|] == d;
  }

  lemma ConcatAppends(d: seq<bytes>, q: bytes)
    ensures Concat(d + [q]) == Concat(d) + q
    ensures q !in d ==> OffsetIn(d + [q], q) == |Concat(d)|
  {
    assert (d + [q])[..|d|] == d;
  }

  function Payloads(t: Table, ids: seq<nat>, prefixed: bool): (ps: seq<bytes>)
    requires forall id | id in ids :: id in t && Payable(t[id])
    ensures |ps| == |ids|
    ensures forall k | 0 <= k < |ids| :: ps[k] == Payload(t[ids[k]], prefixed)
  {
    seq(|ids|, k requires 0 <= k < |ids| => Payload(t[ids[k]], prefixed))
  }

  /** The directory: each id with the offset of its payload. */
  function Directory(t: Table, ids: seq<nat>, prefixed: bool, d: seq<bytes>): (dir: bytes)
    requires forall id | id in ids :: id in t && Payable(t[id]) && id < U32_LIMIT
    requires forall id | id in ids :: Payload(t[id], prefixed) in d && OffsetIn(d, Payload(t[id], prefixed)) < U32_LIMIT
    ensures |dir| == 8 * |ids|
  {
    if ids == [] then [] else
    var n := |ids| - 1;
    assert ids[n] in ids;
    Directory(t, ids[..n], prefixed, d) + P32(ids[n]) + P32(OffsetIn(d, Payload(t[ids[n]], prefixed)))
  }

  predicate Ascending(ids: seq<nat>) {
    forall j, k | 0 <= j < k < |ids| :: ids[j] < ids[k]
  }

  /** All keys, each once, in rising order. */
  ghost predicate Lists(ids: seq<nat>, keys: set<nat>) {
    Ascending(ids) && forall id :: id in ids <==> id in keys
  }

  lemma {:induction false} HasMax(keys: set<nat>)
    requires keys != {}
    ensures exists m | m in keys :: forall k | k in keys :: k <= m
  {
    var m :| m in keys;
    if keys - {m} != {} {
      HasMax(keys - {m});
      var n :| n in keys - {m} && forall k | k in keys - {m} :: k <= n;
      var top := if m < n then n else m;
      assert forall k | k in keys :: k == m || k in keys - {m};
      assert top in keys && forall k | k in keys :: k <= top;
    } else {
      assert keys == {m};
    }
  }

  ghost function SortedIds(keys: set<nat>): (ids: seq<nat>)
    ensures Lists(ids, keys)
  {
    if keys == {} then [] else
    HasMax(keys);
    var m :| m in keys && forall k | k in keys :: k <= m;
    SortedIds(keys - {m}) + [m]
  }

  lemma {:induction false} ListingLength(a: seq<nat>, keys: set<nat>)
    requires Lists(a, keys)
    ensures |a| == |keys|
    decreases |a|
  {
    if a == [] {
      assert keys == {};
    } else {
      DropLast(a, keys);
      assert a[|a| - 1] in a;
      ListingLength(a[..|a| - 1], keys - {a[|a| - 1]});
    }
  }

  lemma {:induction false} ListingIsUnique(a: seq<nat>, b: seq<nat>, keys: set<nat>)
    requires Lists(a, keys) && Lists(b, keys)
    ensures a == b
    decreases |a|
  {
    ListingLength(a, keys);
    ListingLength(b, keys);
    if a != [] {
      var m := a[|a| - 1];
      assert m in a && m in b && b[|b| - 1] in b && b[|b| - 1] in a;
      DropLast(a, keys);
      DropLast(b, keys);
      assert b[|b| - 1] == m;
      ListingIsUnique(a[..|a| - 1], b[..|b| - 1], keys - {m});
      assert a == a[..|a| - 1] + [m] && b == b[..|b| - 1] + [m];
    }
  }

  lemma DropLast(a: seq<nat>, keys: set<nat>)
    requires Lists(a, keys) && a != []
    ensures Lists(a[..|a| - 1], keys - {a[|a| - 1]})
  {
    var n := |a| - 1;
    assert a == a[..n] + [a[n]];
    forall id
      ensures id in a[..n] <==> id in keys - {a[n]}
    {
      if id in a[..n] { var j :| 0 <= j < n && a[..n][j] == id; assert a[j] < a[n]; }
    }
  }

  /** Every number of the file fits its 32 bits. */
  predicate Fits(t: Table, ids: seq<nat>, prefixed: bool)
    requires forall id | id in ids :: id in t
  {
    && (forall id | id in ids :: id < U32_LIMIT && Payable(t[id]))
    && |Concat(Distinct(Payloads(t, ids, prefixed)))| < U32_LIMIT
    && |ids| < U32_LIMIT
  }

  lemma DirectoryIsDefined(t: Table, ids: seq<nat>, prefixed: bool)
    requires forall id | id in ids :: id in t
    requires Fits(t, ids, prefixed)
    ensures var d := Distinct(Payloads(t, ids, prefixed));
            forall id | id in ids ::
              Payload(t[id], prefixed) in d && OffsetIn(d, Payload(t[id], prefixed)) < U32_LIMIT
  {
    var ps := Payloads(t, ids, prefixed);
    var d := Distinct(ps);
    forall id | id in ids
      ensures Payload(t[id], prefixed) in d && OffsetIn(d, Payload(t[id], prefixed)) < U32_LIMIT
    {
      var k :| 0 <= k < |ids| && ids[k] == id;
      assert ps[k] in ps;
      FoundAtOffset(d, ps[k]);
    }
  }

  function FileOf(t: Table, ids: seq<nat>, prefixed: bool): bytes
    requires forall id | id in ids :: id in t
    requires Fits(t, ids, prefixed)
  {
    DirectoryIsDefined(t, ids, prefixed);
    var d := Distinct(Payloads(t, ids, prefixed));
    P32(|ids|) + P32(|Concat(d)|) + Directory(t, ids, prefixed, d) + Concat(d)
  }

  ghost function Build(t: Table, prefixed: bool): Outcome<bytes> {
    var ids := SortedIds(t.Keys);
    if Fits(t, ids, prefixed) then Done(FileOf(t, ids, prefixed)) else Raised
  }

  // ── Reading back what was built ─────────────────────────────────────────────

  lemma {:induction false} DirectoryEntry(t: Table, ids: seq<nat>, prefixed: bool, d: seq<bytes>, k: nat)
    requires forall id | id in ids :: id in t && Payable(t[id]) && id < U32_LIMIT
    requires forall id | id in ids :: Payload(t[id], prefixed) in d && OffsetIn(d, Payload(t[id], prefixed)) < U32_LIMIT
    requires k < |ids|
    ensures U32(Directory(t, ids, prefixed, d), 8 * k) == ids[k]
    ensures U32(Directory(t, ids, prefixed, d), 8 * k + 4) == OffsetIn(d, Payload(t[ids[k]], prefixed))
  {
    hide U32, P32, OffsetIn, Payload;
    var n := |ids| - 1;
    var pre := Directory(t, ids[..n], prefixed, d);
    assert ids[n] in ids;
    var a, b := P32(ids[n]), P32(OffsetIn(d, Payload(t[ids[n]], prefixed)));
    assert Directory(t, ids, prefixed, d) == pre + a + b;
    if k == n {
      ReadInside(pre, a, b);
      ReadInside(pre + a, b, []);
      assert pre + a + b + [] == pre + a + b;
    } else {
      DirectoryEntry(t, ids[..n], prefixed, d, k);
      ReadBefore(pre, a + b, 8 * k);
      ReadBefore(pre, a + b, 8 * k + 4);
      assert pre + (a + b) == pre + a + b;
    }
  }

  lemma ReadBefore(pre: bytes, post: bytes, k: nat)
    requires k + 4 <= |pre|
    ensures U32(pre + post, k) == U32(pre, k)
  {
  }

  lemma ReadAfter(pre: bytes, post: bytes, k: nat)
    requires k + 4 <= |post|
    ensures U32(pre + post, |pre| + k) == U32(post, k)
  {
  }

  /** A payload found anywhere in the data reads back as its text up to the first NUL. */
  lemma PayloadReads(pre: bytes, text: bytes, prefixed: bool, post: bytes)
    requires Payable(text)
    ensures ReadText(pre + Payload(text, prefixed) + post, prefixed, |pre|) == Some(CString(text))
  {
    if prefixed { PrefixedReads(pre, text, post); } else { PlainReads(pre, text, post); }
  }

  lemma PrefixedReads(pre: bytes, text: bytes, post: bytes)
    requires Payable(text)
    ensures ReadText(pre + Payload(text, true) + post, true, |pre|) == Some(CString(text))
  {
    hide CString, U32, P32;
    var body := text + [0];
    var blob := pre + Payload(text, true) + post;
    CStringStops(text, []);
    assert text + [0] + [] == body;
    ReadInside(pre, P32(|body|), body + post);
    assert blob == pre + P32(|body|) + (body + post);
    assert Drop(blob, |pre| + 4) == body + post;
    assert Take(body + post, |body|) == body;
  }

  lemma PlainReads(pre: bytes, text: bytes, post: bytes)
    requires Payable(text)
    ensures ReadText(pre + Payload(text, false) + post, false, |pre|) == Some(CString(text))
  {
    hide CString, U32, P32;
    CStringStops(text, post);
    assert Drop(pre + (text + [0]) + post, |pre|) == text + [0] + post;
  }

  lemma {:induction false} CStringStops(text: bytes, post: bytes)
    ensures CString(text + [0] + post) == CString(text)
  {
    if text == [] {
      assert text + [0] + post == [0] + post;
    } else if text[0] != 0 {
      assert (text + [0] + post)[1..] == text[1..] + [0] + post;
      CStringStops(text[1..], post);
    }
  }

  lemma BuiltEntry(t: Table, ids: seq<nat>, prefixed: bool, k: nat)
    requires forall id | id in ids :: id in t
    requires Fits(t, ids, prefixed) && k < |ids|
    ensures var f := FileOf(t, ids, prefixed);
            var dataStart := 8 + 8 * |ids|;
            && |f| >= dataStart && U32(f, 0) == |ids|
            && U32(f, 8 + 8 * k) == ids[k]
            && ReadText(f, prefixed, dataStart + U32(f, 8 + 8 * k + 4)) == Some(CString(t[ids[k]]))
  {
    hide U32, P32, OffsetIn, Payload, CString, ReadText, Directory, Concat, Distinct;
    DirectoryIsDefined(t, ids, prefixed);
    var d := Distinct(Payloads(t, ids, prefixed));
    var dir, data := Directory(t, ids, prefixed, d), Concat(d);
    var f := FileOf(t, ids, prefixed);
    FileParts(|ids|, |data|, dir, data, k);
    DirectoryEntry(t, ids, prefixed, d, k);
    var p := Payload(t[ids[k]], prefixed);
    var o := OffsetIn(d, p);
    FoundAtOffset(d, p);
    var head := P32(|ids|) + P32(|data|) + dir + data[..o];
    assert data == data[..o] + p + data[o + |p|..];
    assert f == head + p + data[o + |p|..];
    PayloadReads(head, t[ids[k]], prefixed, data[o + |p|..]);
  }

  lemma FileParts(count: nat, size: nat, dir: bytes, data: bytes, k: nat)
    requires count < U32_LIMIT && size < U32_LIMIT && |dir| == 8 * count && k < count
    ensures var f := P32(count) + P32(size) + dir + data;
            && U32(f, 0) == count
            && U32(f, 8 + 8 * k) == U32(dir, 8 * k)
            && U32(f, 8 + 8 * k + 4) == U32(dir, 8 * k + 4)
  {
    hide U32, P32;
    var f := P32(count) + P32(size) + dir + data;
    ReadInside([], P32(count), P32(size) + dir + data);
    assert f == [] + P32(count) + (P32(size) + dir + data);
    var head := P32(count) + P32(size);
    assert f == head + (dir + data);
    ReadAfter(head, dir + data, 8 * k);
    ReadAfter(head, dir + data, 8 * k + 4);
    ReadBefore(dir, data, 8 * k);
    ReadBefore(dir, data, 8 * k + 4);
  }

  /** The first n entries of a built file are the first n ids with their texts, each cut
      at its first NUL. */
  lemma {:induction false} BuiltEntries(t: Table, ids: seq<nat>, prefixed: bool, n: nat)
    requires forall id | id in ids :: id in t
    requires Fits(t, ids, prefixed) && n <= |ids|
    ensures var f := FileOf(t, ids, prefixed);
            && |f| >= 8 + 8 * |ids|
            && Entries(f, prefixed, 8 + 8 * |ids|, n).Keys == (set k | 0 <= k < n :: ids[k])
            && forall k | 0 <= k < n :: Entries(f, prefixed, 8 + 8 * |ids|, n)[ids[k]] == CString(t[ids[k]])
  {
    hide U32, CString, ReadText, FileOf, Fits;
    var f := FileOf(t, ids, prefixed);
    FileIsLongEnough(t, ids, prefixed);
    if n > 0 {
      BuiltEntries(t, ids, prefixed, n - 1);
      BuiltEntry(t, ids, prefixed, n - 1);
    }
  }

  lemma FileIsLongEnough(t: Table, ids: seq<nat>, prefixed: bool)
    requires forall id | id in ids :: id in t
    requires Fits(t, ids, prefixed)
    ensures |FileOf(t, ids, prefixed)| >= 8 + 8 * |ids| && U32(FileOf(t, ids, prefixed), 0) == |ids|
  {
    hide U32, P32, Directory, Concat, Distinct;
    DirectoryIsDefined(t, ids, prefixed);
    var d := Distinct(Payloads(t, ids, prefixed));
    var rest := P32(|Concat(d)|) + Directory(t, ids, prefixed, d) + Concat(d);
    ReadInside([], P32(|ids|), rest);
    assert FileOf(t, ids, prefixed) == [] + P32(|ids|) + rest;
  }

  /** A file of one text, byte by byte: one entry, the size of the data, the id at offset 0,
      and the text with its NUL, behind the length of both where the kind keeps one. */
  lemma OneTextFile(id: nat, text: bytes, prefixed: bool)
    requires id < 0x1_0000_0000 && |text| < 0xFFFF_FFF0
    ensures var data := (if prefixed then P32(|text| + 1) else []) + text + [0];
            Build(map[id := text], prefixed) == Done(P32(1) + P32(|data|) + P32(id) + P32(0) + data)
  {
    hide P32, Distinct, Concat, OffsetIn, SortedIds;
    var t := map[id := text];
    var ids, p := SortedIds(t.Keys), Payload(text, prefixed);
    ListingIsUnique(ids, [id], t.Keys);
    var ps := Payloads(t, [id], prefixed);
    assert ps == [p];
    OnePayload(p);
    assert |p| <= |text| + 5;
    assert Fits(t, [id], prefixed);
    OneEntry(t, id, prefixed, p);
    assert FileOf(t, [id], prefixed) == P32(1) + P32(|p|) + (P32(id) + P32(0)) + p;
    assert P32(1) + P32(|p|) + (P32(id) + P32(0)) + p == P32(1) + P32(|p|) + P32(id) + P32(0) + p;
    assert p == (if prefixed then P32(|text| + 1) else []) + text + [0];
  }

  lemma OneEntry(t: Table, id: nat, prefixed: bool, p: bytes)
    requires id in t && id < U32_LIMIT && Payable(t[id]) && p == Payload(t[id], prefixed) && OffsetIn([p], p) == 0
    ensures Directory(t, [id], prefixed, [p]) == P32(id) + P32(0)
  {
    hide P32, OffsetIn, Payload;
    assert [id][..0] == [];
    assert Directory(t, [], prefixed, [p]) == [];
  }

  lemma OnePayload(p: bytes)
    ensures Distinct([p]) == [p] && Concat([p]) == p && OffsetIn([p], p) == 0
  {
    assert [p][..0] == [] && [p] == [] + [p];
  }

  function CutAtNul(t: Table): (r: Table)
    ensures r.Keys == t.Keys
    ensures forall id | id in t :: r[id] == CString(t[id])
  {
    map id | id in t :: CString(t[id])
  }

  lemma AllEntriesBack(t: Table, ids: seq<nat>, prefixed: bool)
    requires Lists(ids, t.Keys) && Fits(t, ids, prefixed)
    ensures Parse(FileOf(t, ids, prefixed), prefixed) == Done(CutAtNul(t))
  {
    hide U32, CString, FileOf, Fits, Entries;
    FileIsLongEnough(t, ids, prefixed);
    BuiltEntries(t, ids, prefixed, |ids|);
    var got := Entries(FileOf(t, ids, prefixed), prefixed, 8 + 8 * |ids|, |ids|);
    forall id | id in t
      ensures id in got && got[id] == CString(t[id])
    {
      assert id in ids;
      var k :| 0 <= k < |ids| && ids[k] == id;
    }
    assert forall id | id in got :: id in ids;
    assert got == CutAtNul(t);
  }

  /** The round trip: what is read back is the table cut at NULs, so it is the table
      exactly when no text contains one. */
  lemma ParseAfterBuild(t: Table, prefixed: bool)
    requires Build(t, prefixed).Done?
    ensures Parse(Build(t, prefixed).value, prefixed) == Done(CutAtNul(t))
    ensures CutAtNul(t) == t <==> forall id | id in t :: 0 !in t[id]
  {
    hide CString, FileOf, Fits, Parse;
    AllEntriesBack(t, SortedIds(t.Keys), prefixed);
    forall id | id in t
      ensures CString(t[id]) == t[id] <==> 0 !in t[id]
    {
      CStringKeeps(t[id]);
    }
  }

  lemma {:induction false} CStringKeeps(text: bytes)
    ensures CString(text) == text <==> 0 !in text
  {
    if text != [] && text[0] != 0 { CStringKeeps(text[1..]); }
  }

  // ── The builder's loop ──────────────────────────────────────────────────────

  lemma ListsNext(ids: seq<nat>, done: set<nat>, m: nat)
    requires Lists(ids, done) && forall k | k in done :: k < m
    ensures Lists(ids + [m], done + {m})
  {
    assert forall j | 0 <= j < |ids| :: ids[j] in ids;
  }

  method SortIds(keys: set<nat>) returns (ids: seq<nat>)
    ensures ids == SortedIds(keys)
  {
    hide Lists, SortedIds;
    ids := [];
    var left := keys;
    ghost var done: set<nat> := {};
    ListsNothing();
    while left != {}
      invariant Lists(ids, done) && keys == done + left
      invariant forall a, b | a in done && b in left :: a < b
      decreases left
    {
      HasMin(left);
      var m :| m in left && IsMin(m, left);
      ListsNext(ids, done, m);
      ids := ids + [m];
      done := done + {m};
      left := left - {m};
    }
    ListingIsUnique(ids, SortedIds(keys), keys);
  }

  lemma ListsNothing()
    ensures Lists([], {})
  {
  }

  lemma {:induction false} HasMin(keys: set<nat>)
    requires keys != {}
    ensures exists m :: IsMin(m, keys)
  {
    var m :| m in keys;
    var others := keys - {m};
    assert forall k | k in keys :: k == m || k in others;
    if others != {} {
      HasMin(others);
      var n :| IsMin(n, others);
      if m < n { assert IsMin(m, keys); } else { assert IsMin(n, keys); }
    } else {
      assert IsMin(m, keys);
    }
  }

  predicate IsMin(m: nat, keys: set<nat>) {
    m in keys && forall k | k in keys :: m <= k
  }

  /** The dictionary of offsets mirrors the distinct payloads packed so far. */
  ghost predicate Mirrors(offsetOf: map<bytes, nat>, d: seq<bytes>) {
    && (forall p :: p in offsetOf <==> p in d)
    && (forall p | p in d :: offsetOf[p] == OffsetIn(d, p))
  }

  lemma MirrorsNext(offsetOf: map<bytes, nat>, d: seq<bytes>, q: bytes)
    requires Mirrors(offsetOf, d) && q !in d
    ensures Mirrors(offsetOf[q := |Concat(d)|], d + [q])
  {
    hide OffsetIn, Concat;
    ConcatAppends(d, q);
    forall p | p in d
      ensures OffsetIn(d + [q], p) == OffsetIn(d, p)
    {
      OffsetStays(d, p, q);
    }
  }

  lemma {:induction false} DirectoryStays(t: Table, ids: seq<nat>, prefixed: bool, d: seq<bytes>, q: bytes)
    requires forall id | id in ids :: id in t && Payable(t[id]) && id < U32_LIMIT
    requires forall id | id in ids :: Payload(t[id], prefixed) in d && OffsetIn(d, Payload(t[id], prefixed)) < U32_LIMIT
    requires q !in d
    ensures forall id | id in ids :: Payload(t[id], prefixed) in d + [q]
              && OffsetIn(d + [q], Payload(t[id], prefixed)) < U32_LIMIT
    ensures Directory(t, ids, prefixed, d + [q]) == Directory(t, ids, prefixed, d)
  {
    hide OffsetIn, Payload, P32;
    forall id | id in ids
      ensures OffsetIn(d + [q], Payload(t[id], prefixed)) == OffsetIn(d, Payload(t[id], prefixed))
    {
      OffsetStays(d, Payload(t[id], prefixed), q);
    }
    if ids != [] {
      assert ids[|ids| - 1] in ids;
      DirectoryStays(t, ids[..|ids| - 1], prefixed, d, q);
    }
  }

  /** The first ids are packed: data, directory and offsets as they should be. */
  ghost predicate Packed(t: Table, ids: seq<nat>, prefixed: bool,
                         data: bytes, directory: bytes, offsetOf: map<bytes, nat>)
  {
    && (forall id | id in ids :: id in t && Payable(t[id]) && id < U32_LIMIT)
    && var d := Distinct(Payloads(t, ids, prefixed));
    && Mirrors(offsetOf, d)
    && data == Concat(d)
    && (forall id | id in ids :: Payload(t[id], prefixed) in d && OffsetIn(d, Payload(t[id], prefixed)) < U32_LIMIT)
    && directory == Directory(t, ids, prefixed, d)
  }

  lemma KnownIsMirrored(offsetOf: map<bytes, nat>, d: seq<bytes>, p: bytes)
    requires Mirrors(offsetOf, d) && p in offsetOf
    ensures p in d && offsetOf[p] == OffsetIn(d, p)
  {
  }

  /** The next id, with a payload that is stored already. */
  lemma PackKnown(t: Table, ids: seq<nat>, id: nat, prefixed: bool,
                  data: bytes, directory: bytes, offsetOf: map<bytes, nat>)
    requires Packed(t, ids, prefixed, data, directory, offsetOf)
    requires id in t && Payable(t[id]) && id < U32_LIMIT
    requires Payload(t[id], prefixed) in offsetOf
    ensures offsetOf[Payload(t[id], prefixed)] < U32_LIMIT
    ensures Packed(t, ids + [id], prefixed, data,
                   directory + P32(id) + P32(offsetOf[Payload(t[id], prefixed)]), offsetOf)
  {
    hide OffsetIn, Payload, P32, Concat, Directory, Distinct, Mirrors;
    var p := Payload(t[id], prefixed);
    var ps := Payloads(t, ids, prefixed);
    KnownIsMirrored(offsetOf, Distinct(ps), p);
    PayloadsAppend(t, ids, id, prefixed);
    DistinctAppends(ps, p);
    assert p in ps;
    var k :| 0 <= k < |ids| && ps[k] == p;
    assert ids[k] in ids;
    DirectoryAppends(t, ids, id, prefixed, Distinct(ps));
  }

  /** The next id, with a new payload at the end of the data. */
  lemma PackNew(t: Table, ids: seq<nat>, id: nat, prefixed: bool,
                data: bytes, directory: bytes, offsetOf: map<bytes, nat>)
    requires Packed(t, ids, prefixed, data, directory, offsetOf)
    requires id in t && Payable(t[id]) && id < U32_LIMIT
    requires Payload(t[id], prefixed) !in offsetOf
    ensures var p := Payload(t[id], prefixed);
            && (forall i | i in ids + [id] :: i in t && Payable(t[i]))
            && p in Distinct(Payloads(t, ids + [id], prefixed))
            && OffsetIn(Distinct(Payloads(t, ids + [id], prefixed)), p) == |data|
            && (|data| < U32_LIMIT ==>
                  Packed(t, ids + [id], prefixed, data + p, directory + P32(id) + P32(|data|), offsetOf[p := |data|]))
  {
    hide OffsetIn, Payload, P32, Concat, Directory, Distinct;
    var p := Payload(t[id], prefixed);
    var ps := Payloads(t, ids, prefixed);
    var d := Distinct(ps);
    PayloadsAppend(t, ids, id, prefixed);
    DistinctAppends(ps, p);
    assert p !in d;
    assert p !in ps;
    MirrorsNext(offsetOf, d, p);
    ConcatAppends(d, p);
    DirectoryStays(t, ids, prefixed, d, p);
    if |data| < U32_LIMIT { DirectoryAppends(t, ids, id, prefixed, d + [p]); }
  }

  /** Raises when some number does not fit its 32 bits. */
  method BuildStringsBytes(t: Table, prefixed: bool) returns (r: Outcome<bytes>)
    ensures r == Build(t, prefixed)
  {
    hide Packed, Payload, P32, Directory, OffsetIn, Distinct, Concat, SortedIds, FileOf;
    var ids := SortIds(t.Keys);
    var data: bytes, directory: bytes := [], [];
    var offsetOf: map<bytes, nat> := map[];
    PackedNothing(t, prefixed);
    if |ids| >= U32_LIMIT { return Raised; }
    for k := 0 to |ids|
      invariant Packed(t, ids[..k], prefixed, data, directory, offsetOf)
    {
      var sid := ids[k];
      assert sid in ids && ids[..k + 1] == ids[..k] + [sid];
      if sid >= U32_LIMIT || !Payable(t[sid]) { return Raised; }
      var payload := Payload(t[sid], prefixed);
      var off: nat;
      if payload in offsetOf {
        PackKnown(t, ids[..k], sid, prefixed, data, directory, offsetOf);
        off := offsetOf[payload];
      } else {
        PackNew(t, ids[..k], sid, prefixed, data, directory, offsetOf);
        off := |data|;
        offsetOf := offsetOf[payload := off];
        data := data + payload;
      }
      if off >= U32_LIMIT { TooLong(t, ids, prefixed, k + 1, payload); return Raised; }
      directory := directory + P32(sid) + P32(off);
    }
    assert ids[..|ids|] == ids;
    PackedParts(t, ids, prefixed, data, directory, offsetOf);
    if |data| >= U32_LIMIT { return Raised; }
    return Done(P32(|ids|) + P32(|data|) + directory + data);
  }

  lemma PackedNothing(t: Table, prefixed: bool)
    ensures Packed(t, [], prefixed, [], [], map[])
  {
  }

  lemma PackedParts(t: Table, ids: seq<nat>, prefixed: bool, data: bytes, directory: bytes, offsetOf: map<bytes, nat>)
    requires Packed(t, ids, prefixed, data, directory, offsetOf) && |ids| < U32_LIMIT
    ensures forall id | id in ids :: id in t
    ensures Fits(t, ids, prefixed) <==> |data| < U32_LIMIT
    ensures |data| < U32_LIMIT ==> FileOf(t, ids, prefixed) == P32(|ids|) + P32(|data|) + directory + data
  {
    hide Payload, P32, Directory, OffsetIn, Distinct, Concat;
  }

  lemma PayloadsAppend(t: Table, ids: seq<nat>, id: nat, prefixed: bool)
    requires forall i | i in ids + [id] :: i in t && Payable(t[i])
    ensures forall i | i in ids :: i in t && Payable(t[i])
    ensures id in t && Payable(t[id])
    ensures Payloads(t, ids + [id], prefixed) == Payloads(t, ids, prefixed) + [Payload(t[id], prefixed)]
  {
    hide Payload;
    assert forall i | i in ids :: i in ids + [id];
    assert id in ids + [id];
  }

  lemma DistinctAppends(ps: seq<bytes>, p: bytes)
    ensures Distinct(ps + [p]) == if p in ps then Distinct(ps) else Distinct(ps) + [p]
  {
    assert (ps + [p])[..|ps|] == ps;
  }

  lemma DirectoryAppends(t: Table, ids: seq<nat>, id: nat, prefixed: bool, d: seq<bytes>)
    requires forall i | i in ids + [id] :: i in t && Payable(t[i]) && i < U32_LIMIT
    requires forall i | i in ids + [id] ::
      Payload(t[i], prefixed) in d && OffsetIn(d, Payload(t[i], prefixed)) < U32_LIMIT
    ensures forall i | i in ids :: i in ids + [id]
    ensures id in ids + [id]
    ensures Directory(t, ids + [id], prefixed, d)
            == Directory(t, ids, prefixed, d) + P32(id) + P32(OffsetIn(d, Payload(t[id], prefixed)))
  {
    hide Payload, OffsetIn, P32;
    assert (ids + [id])[..|ids|] == ids;
  }

  /** Packing more payloads never makes the data shorter. */
  lemma {:induction false} DistinctGrows(ps: seq<bytes>, k: nat)
    requires k <= |ps|
    ensures |Concat(Distinct(ps[..k]))| <= |Concat(Distinct(ps))|
    decreases |ps|
  {
    if k < |ps| {
      var n := |ps| - 1;
      assert ps == ps[..n] + [ps[n]];
      assert ps[..n][..k] == ps[..k];
      DistinctGrows(ps[..n], k);
      DistinctAppends(ps[..n], ps[n]);
      ConcatAppends(Distinct(ps[..n]), ps[n]);
    } else {
      assert ps[..k] == ps;
    }
  }

  lemma TooLong(t: Table, ids: seq<nat>, prefixed: bool, k: nat, p: bytes)
    requires (forall id | id in ids :: id in t) && k <= |ids|
    requires forall id | id in ids[..k] :: Payable(t[id])
    requires p in Distinct(Payloads(t, ids[..k], prefixed))
    requires OffsetIn(Distinct(Payloads(t, ids[..k], prefixed)), p) >= U32_LIMIT
    ensures !Fits(t, ids, prefixed)
  {
    hide Payload, OffsetIn, Concat, Distinct;
    if Fits(t, ids, prefixed) {
      var ps := Payloads(t, ids, prefixed);
      assert Payloads(t, ids[..k], prefixed) == ps[..k];
      FoundAtOffset(Distinct(ps[..k]), p);
      DistinctGrows(ps, k);
    }
  }
}
