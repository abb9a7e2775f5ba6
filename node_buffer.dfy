/**
 * The three operations of Node's `Buffer` that the footer is built with,
 * as methods on a byte array: `Buffer.alloc`, `buf.writeInt32LE` and
 * `buf.write` with UTF-8 encoding.
 */
module NodeBuffer {
  import opened Bytes

  /** `Buffer.alloc(size)`: a fresh buffer, zero-filled. */
  method Alloc(size: nat) returns (buf: array<Byte>)
    ensures fresh(buf)
    ensures buf[..] == Zeros(size)
  {
    buf := new Byte[size](_ => 0);
  }

  /**
   * `buf.writeInt32LE(value, offset)`. A value outside the signed 32-bit
   * range makes Node throw a RangeError before anything is written:
   * `ok` is false and the buffer is left as it was.
   */
  method WriteInt32LE(buf: array<Byte>, value: int, offset: nat) returns (ok: bool)
    requires offset + 4 <= buf.Length
    modifies buf
    ensures ok == InInt32(value)
    ensures ok ==> buf[..] == old(buf[..offset]) + Int32LE(value) + old(buf[offset + 4..])
    ensures !ok ==> buf[..] == old(buf[..])
  {
    if !InInt32(value) {
      return false;
    }
    var b := Int32LE(value);
    buf[offset], buf[offset + 1], buf[offset + 2], buf[offset + 3] := b[0], b[1], b[2], b[3];
    ok := true;
    assert buf[..] == old(buf[..offset]) + b + old(buf[offset + 4..]);
  }

  /**
   * `buf.write(s, offset, length)`: writes the UTF-8 bytes of the leading
   * characters of `s` that fit, whole, in `min(length, buf.Length - offset)`
   * bytes, starting at `offset`, and returns how many bytes it wrote. The
   * rest of the buffer is unchanged. Only lengths up to the buffer's size
   * are modelled; Node rejects larger ones with a RangeError.
   */
  method Write(buf: array<Byte>, s: seq<EncodedChar>, offset: nat, length: nat) returns (written: nat)
    requires offset <= buf.Length && length <= buf.Length
    modifies buf
    ensures var cap := if length < buf.Length - offset then length else buf.Length - offset;
            var bytes := Flatten(s[..FittingChars(s, cap)]);
            && written == |bytes| <= cap
            && buf[..] == old(buf[..offset]) + bytes + old(buf[offset + written..])
  {
    var cap := if length < buf.Length - offset then length else buf.Length - offset;
    var bytes := Flatten(s[..FittingChars(s, cap)]);
    FittingCharsFit(s, cap);
    forall i | 0 <= i < |bytes| {
      buf[offset + i] := bytes[i];
    }
    written := |bytes|;
    assert buf[..] == old(buf[..offset]) + bytes + old(buf[offset + written..]);
  }
}
