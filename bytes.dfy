/**
 * Bytes, the little-endian 32-bit integer encoding used by Node's
 * `Buffer.writeInt32LE`/`readInt32LE`, and strings seen as the UTF-8
 * encodings of their characters.
 */
module Bytes {

  type Byte = b: int | 0 <= b < 256

  const Int32Min: int := -0x8000_0000
  const Int32Max: int := 0x7FFF_FFFF
  const TwoTo32: int := 0x1_0000_0000

  /** The values `writeInt32LE` accepts without a RangeError. */
  predicate InInt32(v: int) {
    Int32Min <= v <= Int32Max
  }

  /** `n` zero bytes. */
  function Zeros(n: nat): (r: seq<Byte>)
    ensures |r| == n && forall i | 0 <= i < n :: r[i] == 0
  {
    seq(n, _ => 0)
  }

  /** The four bytes `writeInt32LE(v, …)` stores: two's complement, least significant first. */
  function Int32LE(v: int): (r: seq<Byte>)
    requires InInt32(v)
    ensures |r| == 4
    ensures r[0] as int + 0x100 * r[1] as int + 0x1_0000 * r[2] as int + 0x100_0000 * r[3] as int
            == if v < 0 then v + TwoTo32 else v
  {
    var u := if v < 0 then v + TwoTo32 else v;
    Base256Digits(u);
    [u % 256, u / 0x100 % 256, u / 0x1_0000 % 256, u / 0x100_0000]
  }

  /** A number below 2^32 is the sum of its four base-256 digits. */
  lemma Base256Digits(u: int)
    requires 0 <= u < TwoTo32
    ensures u / 0x100_0000 < 256
    ensures u % 256 + 0x100 * (u / 0x100 % 256) + 0x1_0000 * (u / 0x1_0000 % 256) + 0x100_0000 * (u / 0x100_0000) == u
  {
    var q1 := u / 0x100;
    var q2 := u / 0x1_0000;
    var q3 := u / 0x100_0000;
    assert u == u % 256 + 0x100 * q1;
    assert q2 == q1 / 0x100;
    assert q1 == q1 % 256 + 0x100 * q2;
    assert q3 == q2 / 0x100;
    assert q2 == q2 % 256 + 0x100 * q3;
  }

  /** The value `readInt32LE` yields for four bytes. */
  function ReadInt32LE(b: seq<Byte>): (v: int)
    requires |b| == 4
    ensures InInt32(v)
  {
    var u := b[0] as int + 0x100 * b[1] as int + 0x1_0000 * b[2] as int + 0x100_0000 * b[3] as int;
    if u > Int32Max then u - TwoTo32 else u
  }

  /** Reading back what was written gives the value written. */
  lemma ReadInt32LEOfInt32LE(v: int)
    requires InInt32(v)
    ensures ReadInt32LE(Int32LE(v)) == v
  {
    var u := if v < 0 then v + TwoTo32 else v;
    var b := Int32LE(v);
    assert u == b[0] as int + 0x100 * b[1] as int + 0x1_0000 * b[2] as int + 0x100_0000 * b[3] as int;
  }

  /** Every four bytes are the encoding of exactly one int32: the encoding is onto. */
  lemma Int32LEOfReadInt32LE(b: seq<Byte>)
    requires |b| == 4
    ensures Int32LE(ReadInt32LE(b)) == b
  {
    var u := b[0] as int + 0x100 * b[1] as int + 0x1_0000 * b[2] as int + 0x100_0000 * b[3] as int;
    var above8 := b[1] as int + 0x100 * b[2] as int + 0x1_0000 * b[3] as int;
    var above16 := b[2] as int + 0x100 * b[3] as int;
    SplitAt8(u, b[0], above8);
    SplitAt8(above8, b[1], above16);
    SplitAt16(u, b[0] as int + 0x100 * b[1] as int, above16);
    SplitAt8(above16, b[2], b[3]);
    SplitAt24(u, b[0] as int + 0x100 * b[1] as int + 0x1_0000 * b[2] as int, b[3]);
    assert (if ReadInt32LE(b) < 0 then ReadInt32LE(b) + TwoTo32 else ReadInt32LE(b)) == u;
  }

  // Division by a power of two, given the quotient and remainder.

  lemma SplitAt8(x: int, lo: int, hi: int)
    requires 0 <= lo < 0x100 && x == lo + 0x100 * hi
    ensures x / 0x100 == hi && x % 0x100 == lo
  {
  }

  lemma SplitAt16(x: int, lo: int, hi: int)
    requires 0 <= lo < 0x1_0000 && x == lo + 0x1_0000 * hi
    ensures x / 0x1_0000 == hi && x % 0x1_0000 == lo
  {
  }

  lemma SplitAt24(x: int, lo: int, hi: int)
    requires 0 <= lo < 0x100_0000 && x == lo + 0x100_0000 * hi
    ensures x / 0x100_0000 == hi && x % 0x100_0000 == lo
  {
  }

  /** The UTF-8 encoding of one character: one to four bytes. */
  type EncodedChar = c: seq<Byte> | 1 <= |c| <= 4 witness [0]

  /** The bytes of a string given as its characters' encodings. */
  function Flatten(cs: seq<EncodedChar>): seq<Byte>
  {
    if cs == [] then [] else cs[0] + Flatten(cs[1..])
  }

  lemma {:induction false} FlattenAppend(a: seq<EncodedChar>, b: seq<EncodedChar>)
    ensures Flatten(a + b) == Flatten(a) + Flatten(b)
  {
    if a == [] {
      assert a + b == b;
    } else {
      assert (a + b)[1..] == a[1..] + b;
      FlattenAppend(a[1..], b);
    }
  }

  /** A byte that no character contains is not in the flattened string. */
  lemma {:induction false} FlattenExcludes(cs: seq<EncodedChar>, x: Byte)
    requires forall i | 0 <= i < |cs| :: x !in cs[i]
    ensures x !in Flatten(cs)
  {
    if cs != [] {
      FlattenExcludes(cs[1..], x);
    }
  }

  /**
   * How many leading characters fit, whole, in `capacity` bytes: the rule
   * by which Node's `Buffer.write` truncates a string, never writing part
   * of a character.
   */
  function FittingChars(cs: seq<EncodedChar>, capacity: nat): (k: nat)
    ensures k <= |cs|
  {
    if cs == [] || |cs[0]| > capacity then 0
    else 1 + FittingChars(cs[1..], capacity - |cs[0]|)
  }

  /** The fitting characters fit, and one more would not. */
  lemma {:induction false} FittingCharsFit(cs: seq<EncodedChar>, capacity: nat)
    ensures |Flatten(cs[..FittingChars(cs, capacity)])| <= capacity
    ensures FittingChars(cs, capacity) < |cs| ==>
              |Flatten(cs[..FittingChars(cs, capacity) + 1])| > capacity
  {
    var k := FittingChars(cs, capacity);
    if cs == [] {
      assert cs[..k] == [];
    } else if |cs[0]| > capacity {
      assert cs[..k] == [];
      assert cs[..k + 1] == [cs[0]];
      assert Flatten([cs[0]]) == cs[0] + Flatten([]);
    } else {
      var rest := cs[1..];
      var k' := FittingChars(rest, capacity - |cs[0]|);
      FittingCharsFit(rest, capacity - |cs[0]|);
      assert cs[..k] == [cs[0]] + rest[..k'];
      assert cs[..k][1..] == rest[..k'];
      if k < |cs| {
        assert cs[..k + 1][1..] == rest[..k' + 1];
      }
    }
  }

  /** A string that fits entirely is written entirely. */
  lemma {:induction false} FittingCharsAll(cs: seq<EncodedChar>, capacity: nat)
    requires |Flatten(cs)| <= capacity
    ensures FittingChars(cs, capacity) == |cs|
  {
    if cs != [] {
      FittingCharsAll(cs[1..], capacity - |cs[0]|);
    }
  }

  /** The written bytes are a prefix of the string's bytes. */
  lemma FittingCharsPrefix(cs: seq<EncodedChar>, capacity: nat)
    ensures Flatten(cs[..FittingChars(cs, capacity)]) <= Flatten(cs)
  {
    var k := FittingChars(cs, capacity);
    assert cs == cs[..k] + cs[k..];
    FlattenAppend(cs[..k], cs[k..]);
  }
}
