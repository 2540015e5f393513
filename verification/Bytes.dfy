/** Little-endian integers inside byte strings, and the outcome of code that may raise. */
module Bytes {

  type byte = b: int | 0 <= b < 256
  type bytes = seq<byte>

  const U16_LIMIT := 0x1_0000
  const U32_LIMIT := 0x1_0000_0000

  /** The value a call returns, or the exception it raises instead. */
  datatype Outcome<+T> = Done(value: T) | Raised {
    predicate IsFailure() {
      Raised?
    }

    function PropagateFailure<U>(): Outcome<U>
      requires Raised?
    {
      Raised
    }

    function Extract(): T
      requires Done?
    {
      value
    }
  }

  /** What has been gathered, in front of what the rest of the work yields. */
  function Append<T>(xs: seq<T>, ys: Outcome<seq<T>>): Outcome<seq<T>> {
    match ys
    case Raised => Raised
    case Done(y) => Done(xs + y)
  }

  lemma AppendNothing<T>(ys: Outcome<seq<T>>)
    ensures Append([], ys) == ys
  {
    if ys.Done? { assert [] + ys.value == ys.value; }
  }

  lemma AppendAppend<T>(xs: seq<T>, ys: seq<T>, zs: Outcome<seq<T>>)
    ensures Append(xs, Append(ys, zs)) == Append(xs + ys, zs)
  {
    if zs.Done? { assert xs + (ys + zs.value) == xs + ys + zs.value; }
  }

  datatype Option<+T> = None | Some(value: T)

  function U16(data: bytes, off: nat): (v: nat)
    requires off + 2 <= |data|
    ensures v < U16_LIMIT
  {
    var lo: nat := data[off];
    var hi: nat := data[off + 1];
    lo + 0x100 * hi
  }

  function P16(v: nat): (p: bytes)
    requires v < U16_LIMIT
    ensures |p| == 2 && U16(p, 0) == v
  {
    [v % 0x100, v / 0x100]
  }

  lemma P16OfU16(data: bytes)
    requires |data| >= 2
    ensures P16(U16(data, 0)) == data[..2]
  {
  }

  function U32(data: bytes, off: nat): (v: nat)
    requires off + 4 <= |data|
    ensures v < U32_LIMIT
  {
    U16(data, off) + 0x1_0000 * U16(data, off + 2)
  }

  function P32(v: nat): (p: bytes)
    requires v < U32_LIMIT
    ensures |p| == 4 && U32(p, 0) == v
  {
    P16(v % 0x1_0000) + P16(v / 0x1_0000)
  }

  /** The least byte comes first. */
  lemma LittleEndian(a: byte, b: byte, c: byte, d: byte)
    ensures U16([a, b], 0) == a + 256 * b
    ensures U32([a, b, c, d], 0) == a + 256 * b + 65536 * c + 16777216 * d
  {
  }

  /** What a slice `s[n:]` leaves, also when n lies beyond the end. */
  function Drop(s: bytes, n: nat): (r: bytes)
    ensures |r| == if n <= |s| then |s| - n else 0
  {
    if n <= |s| then s[n..] else []
  }

  /** What a slice `s[:n]` gives, also when n lies beyond the end. */
  function Take(s: bytes, n: nat): (r: bytes)
    ensures |r| == if n <= |s| then n else |s|
    ensures r <= s
  {
    if n <= |s| then s[..n] else s
  }

  lemma DropDrop(s: bytes, m: nat, n: nat)
    ensures Drop(Drop(s, m), n) == Drop(s, m + n)
  {
  }

  /** Reading sees only the bytes at the offset, whatever surrounds them. */
  lemma ReadInside(a: bytes, p: bytes, b: bytes)
    ensures |p| >= 2 ==> U16(a + p + b, |a|) == U16(p, 0)
    ensures |p| >= 4 ==> U32(a + p + b, |a|) == U32(p, 0)
  {
    var s := a + p + b;
    assert forall i | 0 <= i < |p| :: s[|a| + i] == p[i];
  }

  /** The bytes before the first NUL. */
  function CString(data: bytes): (t: bytes)
    ensures 0 !in t
  {
    if data == [] || data[0] == 0 then [] else [data[0]] + CString(data[1..])
  }

  lemma {:induction false} CStringOfText(t: bytes, after: bytes)
    requires 0 !in t
    ensures CString(t + [0] + after) == t
  {
    if t == [] {
      assert t + [0] + after == [0] + after;
    } else {
      assert (t + [0] + after)[1..] == t[1..] + [0] + after;
      CStringOfText(t[1..], after);
    }
  }
}
