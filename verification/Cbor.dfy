/** The part of CBOR (RFC 8949) that the messages use: integers and arrays of definite length,
    with the shortest heads (sections 3, 3.1 and 4.2.1), and a decoder for them. */
module Cbor {
  import opened Bits

  const UNSIGNED: nat := 0
  const NEGATIVE: nat := 1
  const ARRAY: nat := 4

  const UINT64_LIMIT: int := 0x1_0000_0000_0000_0000

  /** n in k bytes, most significant first. */
  function BigEndian(n: nat, k: nat): (r: seq<byte>)
    ensures |r| == k
  {
    if k == 0 then [] else BigEndian(n / 256, k - 1) + [n % 256]
  }

  function Number(bytes: seq<byte>): nat {
    if bytes == [] then 0 else 256 * Number(bytes[..|bytes| - 1]) + bytes[|bytes| - 1]
  }

  /** How many bytes follow the initial byte of the shortest head for n. */
  function ArgumentSize(n: nat): nat {
    if n <= 23 then 0 else if n <= 0xFF then 1 else if n <= 0xFFFF then 2
    else if n <= 0xFFFF_FFFF then 4 else 8
  }

  /** The additional information that announces an argument of that many bytes. */
  function SizeInfo(size: nat): nat {
    if size == 1 then 24 else if size == 2 then 25 else if size == 4 then 26 else 27
  }

  /** The head of a data item: its major type and its argument. */
  function Head(major: nat, n: nat): (r: seq<byte>)
    requires major < 8
    ensures |r| == 1 + ArgumentSize(n)
  {
    var size := ArgumentSize(n);
    [32 * major + (if size == 0 then n else SizeInfo(size))] + BigEndian(n, size)
  }

  /** An integer, from -2^64 to 2^64 - 1. */
  function Int(n: int): (r: seq<byte>)
    ensures 1 <= |r| <= 9
  {
    if n >= 0 then Head(UNSIGNED, n) else Head(NEGATIVE, -1 - n)
  }

  // ----- decoding

  datatype HeadRead = NoHead | HeadRead(major: nat, n: nat, size: nat)

  /** The head at the front of a byte string. */
  function ReadHead(bytes: seq<byte>): (r: HeadRead)
    ensures r.HeadRead? ==> 1 <= r.size <= |bytes|
  {
    if bytes == [] then NoHead
    else
      var major, info := bytes[0] / 32, bytes[0] % 32;
      if info <= 23 then HeadRead(major, info, 1)
      else if info > 27 then NoHead
      else
        var size := if info == 24 then 1 else if info == 25 then 2 else if info == 26 then 4 else 8;
        if |bytes| < 1 + size then NoHead else HeadRead(major, Number(bytes[1..1 + size]), 1 + size)
  }

  datatype IntRead = NoInt | IntRead(value: int, size: nat)

  function ReadInt(bytes: seq<byte>): (r: IntRead)
    ensures r.IntRead? ==> 1 <= r.size <= |bytes|
  {
    match ReadHead(bytes)
    case NoHead => NoInt
    case HeadRead(major, n, size) =>
      if major == UNSIGNED then IntRead(n, size)
      else if major == NEGATIVE then IntRead(-1 - n, size)
      else NoInt
  }

  // ----- decoding inverts encoding

  function Pow256(k: nat): nat {
    if k == 0 then 1 else 256 * Pow256(k - 1)
  }

  lemma {:induction false} NumberOfBigEndian(n: nat, k: nat)
    requires n < Pow256(k)
    ensures Number(BigEndian(n, k)) == n
  {
    if k > 0 {
      NumberOfBigEndian(n / 256, k - 1);
      assert BigEndian(n, k)[..k - 1] == BigEndian(n / 256, k - 1);
    }
  }

  lemma ReadHeadOfHead(major: nat, n: nat, rest: seq<byte>)
    requires major < 8 && n < UINT64_LIMIT
    ensures ReadHead(Head(major, n) + rest) == HeadRead(major, n, |Head(major, n)|)
  {
    hide BigEndian, Number;
    var bytes, size := Head(major, n) + rest, ArgumentSize(n);
    assert bytes[1..1 + size] == BigEndian(n, size);
    assert Pow256(0) == 1 && Pow256(1) == 0x100 && Pow256(2) == 0x1_0000 && Pow256(4) == 0x1_0000_0000;
    assert Pow256(8) == UINT64_LIMIT;
    if size > 0 {
      NumberOfBigEndian(n, size);
    }
  }

  lemma ReadIntOfInt(n: int, rest: seq<byte>)
    requires -UINT64_LIMIT <= n < UINT64_LIMIT
    ensures ReadInt(Int(n) + rest) == IntRead(n, |Int(n)|)
  {
    hide Head, ReadHead;
    ReadHeadOfHead(if n >= 0 then UNSIGNED else NEGATIVE, if n >= 0 then n else -1 - n, rest);
  }

  // ----- the lengths the firmware predicts

  /** cbor_bit_width: the bytes an integer takes, as the firmware counts them. */
  function CborBitWidth(number: int): nat {
    if -24 <= number <= 23 then 1
    else if -256 <= number <= 255 then 2
    else if -65536 <= number <= 65535 then 3
    else 5
  }

  /** cbor_bit_width_timestamp: the same for an unsigned 64-bit number. */
  function CborBitWidthTimestamp(number: nat): nat {
    if number <= 23 then 1
    else if number <= 255 then 2
    else if number <= 65535 then 3
    else if number <= 4294967295 then 5
    else 9
  }

  /** The predicted width is the encoded length exactly for the integers of 33 bits with sign, which
      include every 32-bit integer; beyond them four bytes are missing. */
  lemma WidthIsEncodedLength(number: int)
    requires -UINT64_LIMIT <= number < UINT64_LIMIT
    ensures CborBitWidth(number) == |Int(number)| <==> -0x1_0000_0000 <= number <= 0xFFFF_FFFF
    ensures CborBitWidth(number) <= |Int(number)| <= CborBitWidth(number) + 4
  {
  }

  lemma TimestampWidthIsEncodedLength(number: nat)
    requires number < UINT64_LIMIT
    ensures CborBitWidthTimestamp(number) == |Int(number)|
  {
  }
}
