/** The format of a VMAD subrecord, written out as a printer, and what the parser makes of
    everything printed (scripts/esp_engine.py). */
module VmadFormat {
  import opened Bytes
  import V = Vmad

  /** The value of a script property, one kind for each of the eleven types; the status
      byte, like the object's eight bytes, is carried without a meaning. */
  datatype Value =
    | Nothing
    | Object(object8: bytes)
    | String(text: bytes)
    | Int(int4: bytes)
    | Float(float4: bytes)
    | Bool(flag: byte)
    | Objects(objects: seq<bytes>)
    | Strings(texts: seq<bytes>)
    | Ints(ints: seq<bytes>)
    | Floats(floats: seq<bytes>)
    | Bools(flags: bytes)

  datatype Property = Property(name: bytes, status: byte, value: Value)

  datatype Script = Script(name: bytes, status: byte, props: seq<Property>)

  datatype Contents = Contents(version: nat, format: nat, scripts: seq<Script>)

  // ── What can be printed ─────────────────────────────────────────────────────

  predicate Short(s: bytes) {
    |s| < 0x10000
  }

  predicate AllOf(items: seq<bytes>, width: nat) {
    |items| < 0x1_0000_0000 && forall x | x in items :: |x| == width
  }

  predicate PrintableValue(v: Value) {
    match v
    case Object(x) => |x| == 8
    case String(t) => Short(t)
    case Int(x) => |x| == 4
    case Float(x) => |x| == 4
    case Objects(xs) => AllOf(xs, 8)
    case Strings(ts) => |ts| < 0x1_0000_0000 && forall t | t in ts :: Short(t)
    case Ints(xs) => AllOf(xs, 4)
    case Floats(xs) => AllOf(xs, 4)
    case Bools(xs) => |xs| < 0x1_0000_0000
    case _ => true
  }

  predicate PrintableProperty(p: Property) {
    Short(p.name) && PrintableValue(p.value)
  }

  predicate PrintableScript(s: Script) {
    Short(s.name) && |s.props| < 0x10000 && forall p | p in s.props :: PrintableProperty(p)
  }

  predicate Printable(x: Contents) {
    && x.version < 0x10000 && x.format < 0x10000 && |x.scripts| < 0x10000
    && forall s | s in x.scripts :: PrintableScript(s)
  }

  // ── The printer ─────────────────────────────────────────────────────────────

  function Prefixed(s: bytes): bytes
    requires Short(s)
  {
    P16(|s|) + s
  }

  function Joined(items: seq<bytes>): bytes {
    if items == [] then [] else items[0] + Joined(items[1..])
  }

  function PrefixedAll(ts: seq<bytes>): bytes
    requires forall t | t in ts :: Short(t)
  {
    if ts == [] then [] else Prefixed(ts[0]) + PrefixedAll(ts[1..])
  }

  /** The number that stands for the kind of a value. */
  function Code(v: Value): byte {
    match v
    case Nothing => 0
    case Object(_) => 1
    case String(_) => 2
    case Int(_) => 3
    case Float(_) => 4
    case Bool(_) => 5
    case Objects(_) => 11
    case Strings(_) => 12
    case Ints(_) => 13
    case Floats(_) => 14
    case Bools(_) => 15
  }

  function PrintValue(v: Value): bytes
    requires PrintableValue(v)
  {
    match v
    case Nothing => []
    case Object(x) => x
    case String(t) => Prefixed(t)
    case Int(x) => x
    case Float(x) => x
    case Bool(b) => [b]
    case Objects(xs) => P32(|xs|) + Joined(xs)
    case Strings(ts) => P32(|ts|) + PrefixedAll(ts)
    case Ints(xs) => P32(|xs|) + Joined(xs)
    case Floats(xs) => P32(|xs|) + Joined(xs)
    case Bools(xs) => P32(|xs|) + xs
  }

  /** The status byte exists from version 4 on. */
  function Status(version: nat, b: byte): bytes {
    if version >= 4 then [b] else []
  }

  function PrintProperty(version: nat, p: Property): bytes
    requires PrintableProperty(p)
  {
    Prefixed(p.name) + [Code(p.value)] + Status(version, p.status) + PrintValue(p.value)
  }

  function PrintProperties(version: nat, ps: seq<Property>): bytes
    requires forall p | p in ps :: PrintableProperty(p)
  {
    if ps == [] then [] else PrintProperty(version, ps[0]) + PrintProperties(version, ps[1..])
  }

  function PrintScript(version: nat, s: Script): bytes
    requires PrintableScript(s)
  {
    Prefixed(s.name) + Status(version, s.status) + P16(|s.props|) + PrintProperties(version, s.props)
  }

  function PrintScripts(version: nat, ss: seq<Script>): bytes
    requires forall s | s in ss :: PrintableScript(s)
  {
    if ss == [] then [] else PrintScript(version, ss[0]) + PrintScripts(version, ss[1..])
  }

  function Print(x: Contents): bytes
    requires Printable(x)
  {
    P16(x.version) + P16(x.format) + P16(|x.scripts|) + PrintScripts(x.version, x.scripts)
  }

  // ── The strings of the contents ─────────────────────────────────────────────

  function ValueTexts(v: Value): seq<bytes> {
    match v
    case String(t) => [t]
    case Strings(ts) => ts
    case _ => []
  }

  function PropertyTexts(ps: seq<Property>): seq<bytes> {
    if ps == [] then [] else ValueTexts(ps[0].value) + PropertyTexts(ps[1..])
  }

  function ScriptTexts(ss: seq<Script>): seq<bytes> {
    if ss == [] then [] else PropertyTexts(ss[0].props) + ScriptTexts(ss[1..])
  }

  function Texts(x: Contents): seq<bytes> {
    ScriptTexts(x.scripts)
  }

  /** The recorded strings are these texts in this order, none cut off. */
  predicate Reads(es: seq<V.Entry>, ts: seq<bytes>) {
    && |es| == |ts|
    && forall j | 0 <= j < |ts| :: es[j].text == ts[j] && !V.Clipped(es[j])
  }

  // ── Printed contents are read back ──────────────────────────────────────────

  lemma {:induction false} JoinedLength(items: seq<bytes>, width: nat)
    requires forall x | x in items :: |x| == width
    ensures |Joined(items)| == width * |items|
  {
    if items != [] {
      assert items[0] in items;
      JoinedLength(items[1..], width);
      OneMore(width, |items| - 1);
    }
  }

  lemma OneMore(width: nat, n: nat)
    ensures width * (n + 1) == width + width * n
  {
  }

  /** One string in front of what is read from there on. */
  lemma StringIsRead(c: V.Todo, t: bytes, tail: bytes, off: nat, ts: seq<bytes>)
    requires c.Body? && c.elems > 0 && Short(t)
    requires Reads(V.Scan(c.(elems := c.elems - 1), tail, off + 2 + |t|), ts)
    ensures Reads(V.Scan(c, Prefixed(t) + tail, off), [t] + ts)
  {
    hide V.Scan, V.Gaps, P16, U16;
    var rest := Prefixed(t) + tail;
    ReadInside([], P16(|t|), t + tail);
    assert rest == [] + P16(|t|) + (t + tail);
    V.StrUnfolds(c, rest, off, c.(elems := c.elems - 1), |t|);
    assert Drop(rest, 2) == t + tail && Drop(rest, 2 + |t|) == tail && Take(t + tail, |t|) == t;
  }

  lemma {:induction false} StringsAreRead(c: V.Todo, strings: seq<bytes>, tail: bytes, off: nat, ts: seq<bytes>)
    requires c.Body? && c.elems == 0 && forall t | t in strings :: Short(t)
    requires Reads(V.Scan(c, tail, off + |PrefixedAll(strings)|), ts)
    ensures Reads(V.Scan(c.(elems := |strings|), PrefixedAll(strings) + tail, off), strings + ts)
    decreases |strings|
  {
    hide V.Scan, Prefixed, Reads;
    if strings == [] {
      assert PrefixedAll(strings) + tail == tail && strings + ts == ts;
    } else {
      var t, more := strings[0], strings[1..];
      PrefixedIsLonger(t);
      StringsAreRead(c, more, tail, off + 2 + |t|, ts);
      StringIsRead(c.(elems := |strings|), t, PrefixedAll(more) + tail, off, more + ts);
      assert PrefixedAll(strings) + tail == Prefixed(t) + (PrefixedAll(more) + tail);
      assert [t] + (more + ts) == strings + ts;
    }
  }

  lemma PrefixedIsLonger(t: bytes)
    requires Short(t)
    ensures |Prefixed(t)| == 2 + |t|
  {
  }

  /** What a step over bytes without a string leaves to be read. */
  lemma RawIsRead(c: V.Todo, head: bytes, tail: bytes, off: nat, n: V.Todo, ts: seq<bytes>)
    requires V.Next(c, head + tail) == V.Raw(|head|, n)
    requires Reads(V.Scan(n, tail, off + |head|), ts)
    ensures Reads(V.Scan(c, head + tail, off), ts)
  {
    hide V.Scan, V.Next, V.Gaps, Reads;
    V.RawUnfolds(c, head + tail, off, |head|, n);
    assert Drop(head + tail, |head|) == tail;
  }

  function PropertyHead(version: nat, p: Property): bytes
    requires PrintableProperty(p)
  {
    Prefixed(p.name) + [Code(p.value)] + Status(version, p.status)
  }

  /** The bytes of a value that hold no string: a fixed width, or the count and the items. */
  function Plain(v: Value): bytes
    requires PrintableValue(v)
  {
    match v
    case String(_) => []
    case Strings(ts) => P32(|ts|)
    case _ => PrintValue(v)
  }

  lemma HeadIsRead(c: V.Todo, p: Property, rest: bytes)
    requires c.Body? && c.props > 0 && c.elems == 0 && PrintableProperty(p)
    ensures var head := PropertyHead(c.version, p);
            |head| >= 3 &&
            V.Next(c, head + rest) == V.PropertyBody(head + rest, Code(p.value), |head|, c.(props := c.props - 1))
  {
    hide P16, U16, V.PropertyBody, Code, PrintableValue;
    var head := PropertyHead(c.version, p);
    var data := head + rest;
    var after := [Code(p.value)] + Status(c.version, p.status) + rest;
    ReadInside([], P16(|p.name|), p.name + after);
    assert data == [] + P16(|p.name|) + (p.name + after);
    assert data[2 + |p.name|] == Code(p.value);
  }

  lemma ValueIsSkipped(head: bytes, v: Value, tail: bytes, d: V.Todo)
    requires d.Body? && d.elems == 0 && |head| >= 3 && PrintableValue(v)
    ensures V.PropertyBody(head + Plain(v) + tail, Code(v), |head|, d)
            == V.Raw(|head + Plain(v)|, d.(elems := |ValueTexts(v)|))
  {
    hide P32, U32;
    match v
    case Objects(xs) => CountIsRead(head, |xs|, Joined(xs), tail); JoinedLength(xs, 8);
    case Strings(ts) => CountIsRead(head, |ts|, [], tail); assert P32(|ts|) + [] == P32(|ts|);
    case Ints(xs) => CountIsRead(head, |xs|, Joined(xs), tail); JoinedLength(xs, 4);
    case Floats(xs) => CountIsRead(head, |xs|, Joined(xs), tail); JoinedLength(xs, 4);
    case Bools(xs) => CountIsRead(head, |xs|, xs, tail);
    case _ =>
  }

  lemma CountIsRead(head: bytes, n: nat, items: bytes, tail: bytes)
    requires n < 0x1_0000_0000
    ensures var data := head + (P32(n) + items) + tail;
            |data| >= |head| + 4 && U32(data, |head|) == n
  {
    hide P32, U32;
    ReadInside(head, P32(n), items + tail);
    assert head + (P32(n) + items) + tail == head + P32(n) + (items + tail);
  }

  lemma PropertyIsRead(c: V.Todo, p: Property, tail: bytes, off: nat, ts: seq<bytes>)
    requires c.Body? && c.props > 0 && c.elems == 0 && PrintableProperty(p)
    requires Reads(V.Scan(c.(props := c.props - 1), tail, off + |PrintProperty(c.version, p)|), ts)
    ensures Reads(V.Scan(c, PrintProperty(c.version, p) + tail, off), ValueTexts(p.value) + ts)
  {
    hide V.Scan, V.Next, V.PropertyBody, Prefixed, Reads, P32, Joined;
    var head, plain, d := PropertyHead(c.version, p), Plain(p.value), c.(props := c.props - 1);
    var strings := StringPart(p.value);
    HeadIsRead(c, p, PrintValue(p.value) + tail);
    assert PrintProperty(c.version, p) + tail == head + (PrintValue(p.value) + tail);
    assert PrintValue(p.value) == plain + strings;
    assert head + (PrintValue(p.value) + tail) == head + plain + (strings + tail);
    ValueIsSkipped(head, p.value, strings + tail, d);
    assert PrintProperty(c.version, p) == head + plain + strings;
    OneString(p.value);
    StringsAreRead(d, ValueTexts(p.value), tail, off + |head + plain|, ts);
    RawIsRead(c, head + plain, strings + tail, off, d.(elems := |ValueTexts(p.value)|), ValueTexts(p.value) + ts);
  }

  function StringPart(v: Value): bytes
    requires PrintableValue(v)
  {
    match v
    case String(t) => Prefixed(t)
    case Strings(ts) => PrefixedAll(ts)
    case _ => []
  }

  lemma OneString(v: Value)
    requires PrintableValue(v)
    ensures forall t | t in ValueTexts(v) :: Short(t)
    ensures StringPart(v) == PrefixedAll(ValueTexts(v))
  {
    if v.String? {
      assert [v.text][1..] == [];
      assert PrefixedAll([v.text]) == Prefixed(v.text) + [];
    }
  }

  lemma {:induction false} PropertiesAreRead(c: V.Todo, ps: seq<Property>, tail: bytes, off: nat, ts: seq<bytes>)
    requires c.Body? && c.props == 0 && c.elems == 0 && forall p | p in ps :: PrintableProperty(p)
    requires Reads(V.Scan(c, tail, off + |PrintProperties(c.version, ps)|), ts)
    ensures Reads(V.Scan(c.(props := |ps|), PrintProperties(c.version, ps) + tail, off), PropertyTexts(ps) + ts)
    decreases |ps|
  {
    hide V.Scan, PrintProperty, Reads, PrintableProperty, ValueTexts;
    if ps == [] {
      assert PrintProperties(c.version, ps) + tail == tail && PropertyTexts(ps) + ts == ts;
    } else {
      var p, more := ps[0], ps[1..];
      assert p in ps;
      var first, others := PrintProperty(c.version, p), PrintProperties(c.version, more);
      PropertiesAreRead(c, more, tail, off + |first|, ts);
      PropertyIsRead(c.(props := |ps|), p, others + tail, off, PropertyTexts(more) + ts);
      assert PrintProperties(c.version, ps) + tail == first + (others + tail);
      assert ValueTexts(p.value) + (PropertyTexts(more) + ts) == PropertyTexts(ps) + ts;
    }
  }

  lemma ScriptIsRead(c: V.Todo, s: Script, tail: bytes, off: nat, ts: seq<bytes>)
    requires c.Body? && c.scripts > 0 && c.props == 0 && c.elems == 0 && PrintableScript(s)
    requires Reads(V.Scan(c.(scripts := c.scripts - 1), tail, off + |PrintScript(c.version, s)|), ts)
    ensures Reads(V.Scan(c, PrintScript(c.version, s) + tail, off), PropertyTexts(s.props) + ts)
  {
    hide V.Scan, V.Next, V.Gaps, Prefixed, Reads, P16, U16, PrintProperties, PropertyTexts, PrintableProperty;
    var head := Prefixed(s.name) + Status(c.version, s.status) + P16(|s.props|);
    var body, d := PrintProperties(c.version, s.props), c.(scripts := c.scripts - 1);
    assert PrintScript(c.version, s) == head + body;
    assert head + body + tail == head + (body + tail);
    ScriptHeadIsRead(c, s, body + tail);
    PropertiesAreRead(d, s.props, tail, off + |head|, ts);
    RawIsRead(c, head, body + tail, off, d.(props := |s.props|), PropertyTexts(s.props) + ts);
  }

  lemma ScriptHeadIsRead(c: V.Todo, s: Script, rest: bytes)
    requires c.Body? && c.scripts > 0 && c.props == 0 && c.elems == 0 && PrintableScript(s)
    ensures var head := Prefixed(s.name) + Status(c.version, s.status) + P16(|s.props|);
            V.Next(c, head + rest) == V.Raw(|head|, c.(scripts := c.scripts - 1, props := |s.props|))
  {
    hide P16, U16, PrintableProperty;
    var name := Prefixed(s.name) + Status(c.version, s.status);
    var data := name + P16(|s.props|) + rest;
    ReadInside(name, P16(|s.props|), rest);
    var after := Status(c.version, s.status) + P16(|s.props|) + rest;
    ReadInside([], P16(|s.name|), s.name + after);
    assert data == [] + P16(|s.name|) + (s.name + after);
  }

  lemma {:induction false} ScriptsAreRead(c: V.Todo, ss: seq<Script>, tail: bytes, off: nat, ts: seq<bytes>)
    requires c.Body? && c.scripts == 0 && c.props == 0 && c.elems == 0 && forall s | s in ss :: PrintableScript(s)
    requires Reads(V.Scan(c, tail, off + |PrintScripts(c.version, ss)|), ts)
    ensures Reads(V.Scan(c.(scripts := |ss|), PrintScripts(c.version, ss) + tail, off), ScriptTexts(ss) + ts)
    decreases |ss|
  {
    hide V.Scan, PrintScript, Reads, PrintableScript, PropertyTexts;
    if ss == [] {
      assert PrintScripts(c.version, ss) + tail == tail && ScriptTexts(ss) + ts == ts;
    } else {
      var s, more := ss[0], ss[1..];
      assert s in ss;
      var first, others := PrintScript(c.version, s), PrintScripts(c.version, more);
      ScriptsAreRead(c, more, tail, off + |first|, ts);
      ScriptIsRead(c.(scripts := |ss|), s, others + tail, off, ScriptTexts(more) + ts);
      assert PrintScripts(c.version, ss) + tail == first + (others + tail);
      assert PropertyTexts(s.props) + (ScriptTexts(more) + ts) == ScriptTexts(ss) + ts;
    }
  }

  /** Of everything printed the parser records exactly the string and string-array values
      in their order, none of them cut off, whatever follows the printed bytes. */
  lemma PrintedIsRead(x: Contents, tail: bytes)
    requires Printable(x)
    ensures Reads(V.Scan(V.Start, Print(x) + tail, 0), Texts(x))
  {
    hide V.Scan, V.Gaps, V.Next, P16, U16, PrintScripts, ScriptTexts, PrintableScript, Reads;
    var head := P16(x.version) + P16(x.format) + P16(|x.scripts|);
    var body := PrintScripts(x.version, x.scripts);
    var c := V.Body(x.version, 0, 0, 0);
    NothingMore(c, tail, 6 + |body|);
    ScriptsAreRead(c, x.scripts, tail, 6, []);
    HeaderIsRead(x, body + tail);
    assert Print(x) + tail == head + (body + tail);
    RawIsRead(V.Start, head, body + tail, 0, c.(scripts := |x.scripts|), ScriptTexts(x.scripts) + []);
    assert ScriptTexts(x.scripts) + [] == Texts(x);
  }

  lemma NothingMore(c: V.Todo, tail: bytes, off: nat)
    requires c.Body? && c.scripts == 0 && c.props == 0 && c.elems == 0
    ensures Reads(V.Scan(c, tail, off), [])
  {
    hide V.Scan, V.Gaps;
    V.HaltUnfolds(c, tail, off);
  }

  lemma HeaderIsRead(x: Contents, rest: bytes)
    requires x.version < 0x10000 && x.format < 0x10000 && |x.scripts| < 0x10000
    ensures var head := P16(x.version) + P16(x.format) + P16(|x.scripts|);
            V.Next(V.Start, head + rest) == V.Raw(|head|, V.Body(x.version, |x.scripts|, 0, 0))
  {
    hide P16, U16;
    var a, b, c := P16(x.version), P16(x.format), P16(|x.scripts|);
    ReadInside([], a, b + c + rest);
    ReadInside(a + b, c, rest);
    assert a + b + c + rest == [] + a + (b + c + rest);
  }
}
