/** The partial output byte: how bits collect in it and when it is written out. */
module BitPacker {
  import opened Bits

  const TOP_BIT: byte := 0x80

  /** How many bits a partial byte holds, told from the mask of the next free bit. */
  function HeldCount(bitIndex: byte): (k: nat)
    ensures k <= 8
  {
    if bitIndex == 0x80 then 0 else if bitIndex == 0x40 then 1 else if bitIndex == 0x20 then 2
    else if bitIndex == 0x10 then 3 else if bitIndex == 0x08 then 4 else if bitIndex == 0x04 then 5
    else if bitIndex == 0x02 then 6 else if bitIndex == 0x01 then 7 else 8
  }

  /** The mask is a single bit, and the bits from it downwards are still clear. */
  ghost predicate PackerOk(current: byte, bitIndex: byte) {
    && HeldCount(bitIndex) < 8
    && forall j :: HeldCount(bitIndex) <= j < 8 ==> !Field(current, 8)[j]
  }

  /** All bits taken so far: those of the written bytes and those in the partial byte. */
  ghost function BitsOut(out: seq<byte>, current: byte, bitIndex: byte): seq<bool> {
    Unpack(out) + Field(current, 8)[..HeldCount(bitIndex)]
  }

  lemma MaskInRange(current: byte, bitIndex: byte)
    requires PackerOk(current, bitIndex)
    ensures HeldCount(bitIndex) < 8 && (HeldCount(bitIndex) == 0 <==> bitIndex == TOP_BIT)
  {
  }

  lemma BitsOutLength(out: seq<byte>, current: byte, bitIndex: byte)
    requires PackerOk(current, bitIndex)
    ensures |BitsOut(out, current, bitIndex)| == 8 * |out| + HeldCount(bitIndex) < 8 * |out| + 8
  {
  }

  /** The field of a power of two has a single bit set. */
  lemma {:induction false} FieldOfPow2(m: nat, n: nat)
    requires m < n
    ensures forall j :: 0 <= j < n ==> Field(Pow2(m), n)[j] == (j == n - 1 - m)
  {
    if m == 0 {
      FieldOfZero(n - 1);
    } else {
      FieldOfPow2(m - 1, n - 1);
    }
  }

  lemma {:induction false} FieldOfZero(n: nat)
    ensures Field(0, n) == Zeros(n)
  {
    if n > 0 {
      FieldOfZero(n - 1);
    }
  }

  lemma MaskIsPow2(bitIndex: byte)
    requires HeldCount(bitIndex) < 8
    ensures bitIndex == Pow2(7 - HeldCount(bitIndex))
  {
    assert Pow2(7) == 0x80 && Pow2(6) == 0x40 && Pow2(5) == 0x20 && Pow2(4) == 0x10;
    assert Pow2(3) == 0x08 && Pow2(2) == 0x04 && Pow2(1) == 0x02 && Pow2(0) == 0x01;
  }

  lemma MaskShift(bitIndex: byte)
    requires HeldCount(bitIndex) < 8
    ensures bitIndex <= 1 <==> HeldCount(bitIndex) == 7
    ensures bitIndex > 1 ==> HeldCount(bitIndex / 2) == HeldCount(bitIndex) + 1
  {
  }

  /** The partial byte after one more bit. */
  function WithBit(current: byte, bitIndex: byte, bit: bool): (r: byte) {
    assert Pow2(8) == 256;
    OrBound(current, bitIndex, 8);
    if bit then Or(current, bitIndex) else current
  }

  lemma WithBitField(current: byte, bitIndex: byte, bit: bool)
    requires PackerOk(current, bitIndex)
    ensures var k := HeldCount(bitIndex);
            && Field(WithBit(current, bitIndex, bit), 8)[..k + 1] == Field(current, 8)[..k] + [bit]
            && forall j :: k < j < 8 ==> !Field(WithBit(current, bitIndex, bit), 8)[j]
  {
    hide Field, Or;
    MaskIsPow2(bitIndex);
    FieldOfPow2(7 - HeldCount(bitIndex), 8);
    FieldOfOr(current, bitIndex, 8);
  }

  /** A bit that leaves the partial byte unfinished. */
  lemma BitHeld(out: seq<byte>, current: byte, bitIndex: byte, bit: bool)
    requires PackerOk(current, bitIndex) && bitIndex > 1
    ensures var next := WithBit(current, bitIndex, bit);
            && PackerOk(next, bitIndex / 2)
            && BitsOut(out, next, bitIndex / 2) == BitsOut(out, current, bitIndex) + [bit]
            && HeldCount(bitIndex / 2) == HeldCount(bitIndex) + 1
  {
    hide Field, WithBit, Unpack;
    MaskShift(bitIndex);
    WithBitField(current, bitIndex, bit);
  }

  /** The bit that completes the partial byte, which is then written and cleared. */
  lemma BitCompletes(out: seq<byte>, current: byte, bitIndex: byte, bit: bool)
    requires PackerOk(current, bitIndex) && bitIndex <= 1
    ensures PackerOk(0, TOP_BIT)
    ensures BitsOut(out + [WithBit(current, bitIndex, bit)], 0, TOP_BIT) == BitsOut(out, current, bitIndex) + [bit]
    ensures HeldCount(bitIndex) == 7
  {
    hide Field, WithBit, Unpack;
    MaskShift(bitIndex);
    WithBitField(current, bitIndex, bit);
    EmptyByte();
    UnpackOne(out, WithBit(current, bitIndex, bit));
    var full := Field(WithBit(current, bitIndex, bit), 8);
    assert full[..8] == full;
  }

  lemma EmptyByte()
    ensures Field(0, 8) == Zeros(8) && PackerOk(0, TOP_BIT)
  {
    FieldOfZero(8);
  }

  /** At a byte boundary a whole byte can be written at once. */
  lemma WholeByte(out: seq<byte>, current: byte, b: byte)
    ensures BitsOut(out + [b], current, TOP_BIT) == BitsOut(out, current, TOP_BIT) + Field(b, 8)
  {
    UnpackOne(out, b);
  }

  /** Writing out the partial byte completes the packing. */
  lemma FlushPacks(out: seq<byte>, current: byte, bitIndex: byte, bits: seq<bool>)
    requires PackerOk(current, bitIndex) && BitsOut(out, current, bitIndex) == bits
    ensures (if bitIndex == TOP_BIT then out else out + [current]) == Pack(bits)
  {
    hide Field, Unpack, Pack;
    var k := HeldCount(bitIndex);
    if bitIndex == TOP_BIT {
      assert Unpack(out) == bits + Zeros(0);
      PackedIsPack(out, bits);
    } else {
      UnpackOne(out, current);
      assert Field(current, 8) == Field(current, 8)[..k] + Zeros(8 - k);
      assert Unpack(out + [current]) == bits + Zeros(8 - k);
      PackedIsPack(out + [current], bits);
    }
  }
}
