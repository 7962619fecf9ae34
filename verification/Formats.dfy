/** The formats on the wire, byte for byte: CBOR heads as RFC 8949 writes them, the message, and compressed
    streams. They fix what an encoder and its decoder, which only have to agree, could still choose. */
module Formats {
  import opened Bits
  import opened Lzss
  import opened Cbor
  import opened MsgEncode

  // ----- CBOR

  lemma OneMoreByte(n: nat, k: nat)
    ensures BigEndian(n, k + 1) == BigEndian(n / 256, k) + [n % 256]
  {
  }

  lemma NoBytes(n: nat)
    ensures BigEndian(n, 0) == []
  {
  }

  lemma TwoBytes(n: nat)
    ensures BigEndian(n, 1) == [n % 256] && BigEndian(n, 2) == [n / 256 % 256, n % 256]
  {
    hide BigEndian;
    NoBytes(n / 256);
    NoBytes(n / 256 / 256);
    OneMoreByte(n, 0);
    OneMoreByte(n / 256, 0);
    OneMoreByte(n, 1);
  }

  lemma FourBytes(n: nat)
    ensures BigEndian(n, 4) == [n / 256 / 256 / 256 % 256, n / 256 / 256 % 256, n / 256 % 256, n % 256]
  {
    hide BigEndian;
    TwoBytes(n / 256 / 256);
    OneMoreByte(n / 256, 2);
    OneMoreByte(n, 3);
  }

  lemma EightBytes(n: nat)
    ensures var m := n / 256 / 256 / 256 / 256;
      BigEndian(n, 8) == [m / 256 / 256 / 256 % 256, m / 256 / 256 % 256, m / 256 % 256, m % 256,
                          n / 256 / 256 / 256 % 256, n / 256 / 256 % 256, n / 256 % 256, n % 256]
  {
    hide BigEndian;
    FourBytes(n / 256 / 256 / 256 / 256);
    OneMoreByte(n / 256 / 256 / 256, 4);
    OneMoreByte(n / 256 / 256, 5);
    OneMoreByte(n / 256, 6);
    OneMoreByte(n, 7);
  }

  /** The head of a data item, in bytes: the initial byte holds the major type in its upper three bits, and
      below it the argument or the length of the argument that follows, most significant byte first; of
      the five forms the shortest is taken (sections 3 and 4.2.1 of RFC 8949). */
  lemma HeadIs(major: nat, n: nat)
    requires major < 8 && n < UINT64_LIMIT
    ensures var m := n / 256 / 256 / 256 / 256;
      Head(major, n) ==
        if n <= 23 then [32 * major + n]
        else if n <= 0xFF then [32 * major + 24, n]
        else if n <= 0xFFFF then [32 * major + 25, n / 256, n % 256]
        else if n <= 0xFFFF_FFFF then
          [32 * major + 26, n / 256 / 256 / 256, n / 256 / 256 % 256, n / 256 % 256, n % 256]
        else
          [32 * major + 27, m / 256 / 256 / 256, m / 256 / 256 % 256, m / 256 % 256, m % 256,
           n / 256 / 256 / 256 % 256, n / 256 / 256 % 256, n / 256 % 256, n % 256]
  {
    hide BigEndian;
    NoBytes(n);
    if n <= 0xFFFF {
      TwoBytes(n);
    } else if n <= 0xFFFF_FFFF {
      FourBytes(n);
    } else {
      EightBytes(n);
    }
  }

  /** Integers are major type 0 with their value, or major type 1 with how far they lie below -1 (section
      3.1 of RFC 8949), and lists are major type 4. */
  lemma TypesAre(n: int)
    ensures n >= 0 ==> Int(n) == Head(0, n)
    ensures n < 0 ==> Int(n) == Head(1, -1 - n)
    ensures ARRAY == 4
  {
  }

  /** Every message that is flushed: the outer list with a count of its own items in the second byte, the
      list of the four header numbers in this order, and the samples as lists of three, in order. */
  lemma MessageIs(m: Msg)
    requires 23 <= |m.xyz| <= 254
    ensures MsgBytes(m)
         == [0x98, 1 + |m.xyz|, 0x84]
            + (Int(m.header.timestamp) + Int(m.header.temp) + Int(m.header.press) + Int(m.header.hum))
            + TriplesBytes(m.xyz)
  {
    hide Int, Head, TriplesBytes;
    HeadIs(4, 1 + |m.xyz|);
    HeadIs(4, 4);
    var h := m.header;
    var a, b, c, d := Int(h.timestamp), Int(h.temp), Int(h.press), Int(h.hum);
    FourInARow(a, b, c, d);
    assert HeaderBytes(h) == [0x84] + (a + b + c + d);
    assert [0x98, 1 + |m.xyz|, 0x84] == [0x98, 1 + |m.xyz|] + [0x84];
    ThreeInARow([0x98, 1 + |m.xyz|], [0x84], a + b + c + d, TriplesBytes(m.xyz));
  }

  lemma FourInARow(a: seq<byte>, b: seq<byte>, c: seq<byte>, d: seq<byte>)
    ensures a + (b + (c + d)) == a + b + c + d
  {
  }

  lemma ThreeInARow(a: seq<byte>, b: seq<byte>, c: seq<byte>, d: seq<byte>)
    ensures a + ((b + c) + d) == (a + b) + c + d
  {
  }

  lemma {:induction false} SamplesAre(ts: seq<Triple>, k: nat)
    requires k < |ts|
    ensures var t, before := ts[k], TriplesBytes(ts[..k]);
      before + [0x83] + (Int(t.x) + Int(t.y) + Int(t.z)) + TriplesBytes(ts[k + 1..]) == TriplesBytes(ts)
  {
    hide TripleBytes, TriplesBytes, Int;
    var t := ts[k];
    TripleIs(t);
    TriplesBytesSnoc(ts[..k], t);
    TriplesBytesConcat(ts[..k] + [t], ts[k + 1..]);
    assert ts == (ts[..k] + [t]) + ts[k + 1..];
    assert TriplesBytes(ts[..k]) + ([0x83] + (Int(t.x) + Int(t.y) + Int(t.z)))
        == TriplesBytes(ts[..k]) + [0x83] + (Int(t.x) + Int(t.y) + Int(t.z));
  }

  lemma TripleIs(t: Triple)
    ensures TripleBytes(t) == [0x83] + (Int(t.x) + Int(t.y) + Int(t.z))
  {
    hide Int, Head;
    HeadIs(4, 3);
    FourInARow([0x83], Int(t.x), Int(t.y), Int(t.z));
  }

  // ----- compressed streams

  lemma {:induction false} AtLeast(k: nat, d: nat)
    requires k >= 1
    ensures k * d >= d
  {
    if k > 1 {
      AtLeast(k - 1, d);
      assert k * d == (k - 1) * d + d;
    }
  }

  lemma Distribute(a: int, b: int, d: int)
    ensures (a - b) * d == a * d - b * d
  {
  }

  lemma QuotientIs(v: nat, d: nat, q: nat, r: nat)
    requires r < d && v == q * d + r
    ensures v / d == q
  {
    var q', r' := v / d, v % d;
    assert v == q' * d + r' && r' < d;
    Distribute(q, q', d);
    Distribute(q', q, d);
    if q' < q {
      AtLeast(q - q', d);
    } else if q < q' {
      AtLeast(q' - q, d);
    }
  }

  lemma HalveFirst(v: nat, d: nat)
    requires d >= 1
    ensures v / 2 / d == v / (2 * d)
  {
    var a, r := v / 2, v % 2;
    var q, t := a / d, a % d;
    assert a == q * d + t;
    var e := 2 * d;
    assert q * e == 2 * (q * d);
    QuotientIs(v, e, q, 2 * t + r);
  }

  /** A field is written most significant bit first. */
  lemma {:induction false} FieldIs(v: nat, k: nat, i: nat)
    requires i < k
    ensures Field(v, k)[i] <==> v / Pow2(k - 1 - i) % 2 == 1
  {
    if i < k - 1 {
      FieldIs(v / 2, k - 1, i);
      HalveFirst(v, Pow2(k - 2 - i));
      assert Pow2(k - 1 - i) == 2 * Pow2(k - 2 - i);
    }
  }

  /** A literal is a one and the eight bits of the byte; a back-reference is a zero, the distance less one
      in as many bits as the window has, and the length less one in as many as the lookahead has. */
  lemma TokenIs(p: Params, t: Token, i: nat)
    requires t.Fits(p) && i < |TokenBits(p, t)|
    ensures match t
            case Literal(v) =>
              && |TokenBits(p, t)| == 9
              && (TokenBits(p, t)[i] <==> i == 0 || v / Pow2(8 - i) % 2 == 1)
            case Backref(dist, len) =>
              && |TokenBits(p, t)| == 1 + p.windowBits + p.lookaheadBits
              && (TokenBits(p, t)[i] <==>
                    if i == 0 then false
                    else if i <= p.windowBits then (dist - 1) / Pow2(p.windowBits - i) % 2 == 1
                    else (len - 1) / Pow2(p.windowBits + p.lookaheadBits - i) % 2 == 1)
  {
    hide Field, Pow2;
    match t
    case Literal(v) =>
      if i > 0 {
        FieldIs(v, 8, i - 1);
      }
    case Backref(dist, len) =>
      if 1 <= i <= p.windowBits {
        FieldIs(dist - 1, p.windowBits, i - 1);
      } else if i > p.windowBits {
        FieldIs(len - 1, p.lookaheadBits, i - 1 - p.windowBits);
      }
  }

  lemma {:induction false} UnpackIs(bytes: seq<byte>, i: nat, j: nat)
    requires i < |bytes| && j < 8
    ensures Unpack(bytes)[8 * i + j] <==> bytes[i] / Pow2(7 - j) % 2 == 1
  {
    hide Field, Pow2;
    var n := |bytes| - 1;
    if i == n {
      FieldIs(bytes[n], 8, j);
    } else {
      UnpackIs(bytes[..n], i, j);
    }
  }

  /** The encoding holds the bits of the parse in order, eight to a byte from the top, and zeros behind. */
  lemma EncodingIs(p: Params, input: seq<byte>, i: nat, j: nat)
    requires i < |Encode(p, input)| && j < 8
    ensures var bits, b := InputBits(p, input), 8 * i + j;
      Encode(p, input)[i] / Pow2(7 - j) % 2 == 1 <==> b < |bits| && bits[b]
  {
    hide Unpack, Pack, Pow2, InputBits;
    PackIsPacked(InputBits(p, input));
    UnpackIs(Encode(p, input), i, j);
  }
}
