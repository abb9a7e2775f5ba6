/**
 * The FileFooter that `bundleExecutable` appends to a native executable so
 * that the native runtime can find the cartridge by reading back from the
 * end of the file. Layout (136 bytes):
 *   offset   0, 4 bytes   magic 1414676803, int32 little-endian ("CART")
 *   offset   4, 128 bytes title: at most 127 UTF-8 bytes, then zeros
 *   offset 132, 4 bytes   cartridge length, int32 little-endian
 */
module Footer {
  import opened Wrappers
  import opened Bytes
  import NodeBuffer

  const Magic: int := 1414676803
  const FooterSize: nat := 136
  const TitleOffset: nat := 4
  /** The `length` argument of the title write. */
  const TitleCapacity: nat := 127
  /** Bytes 4..131: the title bytes and the zeros after them. */
  const TitleFieldSize: nat := 128
  const CartLengthOffset: nat := 132

  /** Why building a footer can fail. */
  datatype BundleError =
    /** `writeInt32LE` rejects a cartridge length above 2^31 - 1 with a RangeError. */
    | CartLengthOutOfRange(length: nat)

  /** The title bytes the footer holds: the whole characters of the title that fit in 127 bytes. */
  function TitleBytes(title: seq<EncodedChar>): (r: seq<Byte>)
    ensures |r| <= TitleCapacity
    ensures r <= Flatten(title)
  {
    FittingCharsFit(title, TitleCapacity);
    FittingCharsPrefix(title, TitleCapacity);
    Flatten(title[..FittingChars(title, TitleCapacity)])
  }

  /**
   * A title of at most 127 bytes is written whole; a longer one is cut
   * before the first character that would cross the 127th byte.
   */
  lemma TitleBytesTruncation(title: seq<EncodedChar>)
    ensures |Flatten(title)| <= TitleCapacity ==> TitleBytes(title) == Flatten(title)
    ensures |Flatten(title)| > TitleCapacity ==>
      exists k | 0 <= k < |title| ::
        TitleBytes(title) == Flatten(title[..k]) && |Flatten(title[..k + 1])| > TitleCapacity
  {
    var k := FittingChars(title, TitleCapacity);
    FittingCharsFit(title, TitleCapacity);
    if |Flatten(title)| <= TitleCapacity {
      FittingCharsAll(title, TitleCapacity);
      assert title[..k] == title;
    } else {
      assert title[..|title|] == title;
    }
  }

  /** The 128-byte title field: the title bytes, padded with zeros. */
  function TitleField(title: seq<EncodedChar>): (r: seq<Byte>)
    ensures |r| == TitleFieldSize
    ensures r[..|TitleBytes(title)|] == TitleBytes(title)
    ensures forall i | |TitleBytes(title)| <= i < TitleFieldSize :: r[i] == 0
    ensures r[TitleFieldSize - 1] == 0
  {
    TitleBytes(title) + Zeros(TitleFieldSize - |TitleBytes(title)|)
  }

  /** The footer, as a value: the specification of `BuildFooter`. */
  function Layout(title: seq<EncodedChar>, cartLength: nat): (r: seq<Byte>)
    requires cartLength <= Int32Max
    ensures |r| == FooterSize
  {
    Int32LE(Magic) + TitleField(title) + Int32LE(cartLength)
  }

  /**
   * `Buffer.alloc(136)`, then the magic, the title and the cartridge length
   * written in place. Fails, as `writeInt32LE` throws, when the length does
   * not fit a signed 32-bit integer.
   */
  method BuildFooter(title: seq<EncodedChar>, cartLength: nat) returns (r: Result<seq<Byte>, BundleError>)
    ensures r.Success? <==> cartLength <= Int32Max
    ensures r.Failure? ==> r.error == CartLengthOutOfRange(cartLength)
    ensures r.Success? ==> r.value == Layout(title, cartLength)
    ensures r.Success? ==>
      && |r.value| == FooterSize
      && r.value[..TitleOffset] == [0x43, 0x41, 0x52, 0x54]
      && r.value[TitleOffset..TitleOffset + |TitleBytes(title)|] == TitleBytes(title)
      && (forall i | TitleOffset + |TitleBytes(title)| <= i < CartLengthOffset :: r.value[i] == 0)
      && r.value[CartLengthOffset - 1] == 0
      && r.value[CartLengthOffset..] == Int32LE(cartLength)
  {
    var footer := NodeBuffer.Alloc(FooterSize);
    var magicOk := NodeBuffer.WriteInt32LE(footer, Magic, 0);
    assert footer[..] == Int32LE(Magic) + Zeros(FooterSize - 4);
    var n := NodeBuffer.Write(footer, title, TitleOffset, TitleCapacity);
    assert footer[..] == Int32LE(Magic) + TitleBytes(title) + Zeros(FooterSize - 4 - n);
    var lengthOk := NodeBuffer.WriteInt32LE(footer, cartLength, CartLengthOffset);
    if !lengthOk {
      return Failure(CartLengthOutOfRange(cartLength));
    }
    assert footer[..] == Layout(title, cartLength);
    LayoutFields(title, cartLength);
    r := Success(footer[..]);
  }

  /** The footer's fields at their offsets: "CART", the title, zeros up to byte 131, the length. */
  lemma LayoutFields(title: seq<EncodedChar>, cartLength: nat)
    requires cartLength <= Int32Max
    ensures var f := Layout(title, cartLength);
      && f[..TitleOffset] == [0x43, 0x41, 0x52, 0x54]
      && f[TitleOffset..TitleOffset + |TitleBytes(title)|] == TitleBytes(title)
      && (forall i | TitleOffset + |TitleBytes(title)| <= i < CartLengthOffset :: f[i] == 0)
      && f[CartLengthOffset - 1] == 0
      && f[CartLengthOffset..] == Int32LE(cartLength)
  {
    var f := Layout(title, cartLength);
    var field := TitleField(title);
    assert f[..TitleOffset] == Int32LE(Magic);
    assert f[TitleOffset..CartLengthOffset] == field;
    assert f[TitleOffset..TitleOffset + |TitleBytes(title)|] == field[..|TitleBytes(title)|];
    forall i | TitleOffset + |TitleBytes(title)| <= i < CartLengthOffset
      ensures f[i] == 0
    {
      assert f[i] == field[i - TitleOffset];
    }
    assert f[CartLengthOffset..] == Int32LE(cartLength);
  }

  /** The three fields a reader of the footer recovers. */
  datatype FooterFields = FooterFields(magic: int, titleField: seq<Byte>, cartLength: int)

  /** Reads the footer back: the inverse of `Layout`. */
  function DecodeFooter(f: seq<Byte>): (d: FooterFields)
    requires |f| == FooterSize
    ensures |d.titleField| == TitleFieldSize
  {
    FooterFields(ReadInt32LE(f[..4]), f[TitleOffset..CartLengthOffset], ReadInt32LE(f[CartLengthOffset..]))
  }

  /** Decoding a written footer recovers the magic, the title field and the exact length. */
  lemma DecodeLayout(title: seq<EncodedChar>, cartLength: nat)
    requires cartLength <= Int32Max
    ensures DecodeFooter(Layout(title, cartLength)) == FooterFields(Magic, TitleField(title), cartLength)
  {
    var f := Layout(title, cartLength);
    assert f[..4] == Int32LE(Magic);
    assert f[TitleOffset..CartLengthOffset] == TitleField(title);
    assert f[CartLengthOffset..] == Int32LE(cartLength);
    ReadInt32LEOfInt32LE(Magic);
    ReadInt32LEOfInt32LE(cartLength);
  }

  /** The magic's four bytes spell "CART". */
  lemma MagicSpellsCart()
    ensures Int32LE(Magic) == ['C' as Byte, 'A' as Byte, 'R' as Byte, 'T' as Byte]
  {
  }

  /** A title field read as a NUL-terminated string, as C code reads a `char[128]`. */
  function UntilNul(field: seq<Byte>): (r: seq<Byte>)
    ensures r <= field && 0 !in r
    ensures |r| == |field| || field[|r|] == 0
  {
    if field == [] || field[0] == 0 then [] else [field[0]] + UntilNul(field[1..])
  }

  lemma {:induction false} UntilNulOfPadded(s: seq<Byte>, n: nat)
    requires 0 !in s && n > 0
    ensures UntilNul(s + Zeros(n)) == s
  {
    if s == [] {
      assert (s + Zeros(n))[0] == 0;
    } else {
      assert (s + Zeros(n))[1..] == s[1..] + Zeros(n);
      UntilNulOfPadded(s[1..], n);
    }
  }

  /**
   * For a title without U+0000, reading the title field up to the first NUL
   * gives back exactly the title bytes that were written.
   */
  lemma TitleFieldReadsBack(title: seq<EncodedChar>)
    requires forall i | 0 <= i < |title| :: 0 !in title[i]
    ensures UntilNul(TitleField(title)) == TitleBytes(title)
  {
    var k := FittingChars(title, TitleCapacity);
    FlattenExcludes(title[..k], 0);
    UntilNulOfPadded(TitleBytes(title), TitleFieldSize - |TitleBytes(title)|);
  }
}
