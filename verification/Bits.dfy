/** Bytes, bit fields written most significant bit first, and their packing into bytes. */
module Bits {

  type byte = b: int | 0 <= b < 256

  const BYTE_BITS: nat := 8

  function Pow2(k: nat): (r: nat)
    ensures r >= 1
  {
    if k == 0 then 1 else 2 * Pow2(k - 1)
  }

  /** The C shift v >> k on an unsigned value. */
  function Shr(v: nat, k: nat): (r: nat)
    ensures r <= v
  {
    if k == 0 then v else Shr(v / 2, k - 1)
  }

  /** The C operator | on unsigned values. */
  function Or(a: nat, b: nat): nat {
    if a == 0 && b == 0 then 0
    else 2 * Or(a / 2, b / 2) + (if a % 2 == 1 || b % 2 == 1 then 1 else 0)
  }

  /** Bit k of v, the C test v & (1 << k). */
  predicate TestBit(v: nat, k: nat) {
    Shr(v, k) % 2 == 1
  }

  /** The k low bits of v, most significant bit first. */
  function Field(v: nat, k: nat): (r: seq<bool>)
    ensures |r| == k
  {
    if k == 0 then [] else Field(v / 2, k - 1) + [v % 2 == 1]
  }

  /** The number whose bits, most significant first, are given. */
  function Value(bits: seq<bool>): nat {
    if bits == [] then 0
    else 2 * Value(bits[..|bits| - 1]) + (if bits[|bits| - 1] then 1 else 0)
  }

  function Zeros(n: nat): (r: seq<bool>)
    ensures |r| == n && forall i :: 0 <= i < n ==> !r[i]
  {
    seq(n, _ => false)
  }

  /** The bit stream that a byte string stands for. */
  function Unpack(bytes: seq<byte>): (r: seq<bool>)
    ensures |r| == BYTE_BITS * |bytes|
  {
    if bytes == [] then []
    else Unpack(bytes[..|bytes| - 1]) + Field(bytes[|bytes| - 1], BYTE_BITS)
  }

  /** bytes hold the given bits followed by fewer than eight zero bits. */
  ghost predicate IsPacked(bytes: seq<byte>, bits: seq<bool>) {
    && |bits| <= BYTE_BITS * |bytes| < |bits| + BYTE_BITS
    && Unpack(bytes) == bits + Zeros(BYTE_BITS * |bytes| - |bits|)
  }

  /** The byte string for a bit stream, the last byte filled up with zero bits. */
  function Pack(bits: seq<bool>): (r: seq<byte>)
    ensures |bits| <= BYTE_BITS * |r| < |bits| + BYTE_BITS
    decreases |bits|
  {
    if bits == [] then []
    else
      var rest := (|bits| - 1) % BYTE_BITS + 1;
      var last := bits[|bits| - rest..] + Zeros(BYTE_BITS - rest);
      ValueBound(last);
      assert Pow2(8) == 256;
      Pack(bits[..|bits| - rest]) + [Value(last) as byte]
  }

  // ----- fields and values

  lemma {:induction false} ValueBound(bits: seq<bool>)
    ensures Value(bits) < Pow2(|bits|)
  {
    if bits != [] {
      ValueBound(bits[..|bits| - 1]);
    }
  }

  lemma {:induction false} ValueOfField(v: nat, k: nat)
    requires v < Pow2(k)
    ensures Value(Field(v, k)) == v
  {
    if k > 0 {
      ValueOfField(v / 2, k - 1);
      assert Field(v, k)[..k - 1] == Field(v / 2, k - 1);
    }
  }

  lemma {:induction false} FieldOfValue(bits: seq<bool>)
    ensures Field(Value(bits), |bits|) == bits
  {
    if bits != [] {
      var n := |bits| - 1;
      FieldOfValue(bits[..n]);
      assert Value(bits) / 2 == Value(bits[..n]);
      assert bits == bits[..n] + [bits[n]];
    }
  }

  /** A field can be cut in two: the high part is the field of the shifted value. */
  lemma {:induction false} FieldSplit(v: nat, a: nat, b: nat)
    ensures Field(v, a + b) == Field(Shr(v, b), a) + Field(v, b)
  {
    if b > 0 {
      FieldSplit(v / 2, a, b - 1);
    }
  }

  /** Bits above the field do not matter. */
  lemma {:induction false} FieldAbove(q: nat, r: nat, k: nat, m: nat)
    requires k <= m
    ensures Field(q * Pow2(m) + r, k) == Field(r, k)
  {
    if k > 0 {
      var p := Pow2(m - 1);
      var h := q * p;
      assert q * Pow2(m) == 2 * h;
      assert (2 * h + r) / 2 == h + r / 2;
      FieldAbove(q, r / 2, k - 1, m - 1);
    }
  }

  /** Cutting a value down to a byte keeps every field of at most eight bits. */
  lemma FieldOfByte(v: nat, k: nat)
    requires k <= BYTE_BITS
    ensures Field(v % 256, k) == Field(v, k)
  {
    assert Pow2(8) == 256;
    FieldAbove(v / 256, v % 256, k, 8);
  }

  /** The bit loop reads a field through TestBit from its top bit down. */
  lemma {:induction false} FieldStep(v: nat, i: nat, k: nat)
    requires i < k
    ensures Field(Shr(v, i), k - i) == Field(Shr(v, i + 1), k - i - 1) + [TestBit(v, i)]
  {
    ShrStep(v, i);
  }

  lemma {:induction false} ShrStep(v: nat, i: nat)
    ensures Shr(v, i + 1) == Shr(v, i) / 2
  {
    if i > 0 {
      ShrStep(v / 2, i - 1);
    }
  }

  lemma {:induction false} ShrBelow(v: nat, k: nat, m: nat)
    requires v < Pow2(k + m)
    ensures Shr(v, k) < Pow2(m)
  {
    if k > 0 {
      ShrBelow(v / 2, k - 1, m);
    }
  }

  lemma {:induction false} OrBound(a: nat, b: nat, k: nat)
    requires a < Pow2(k) && b < Pow2(k)
    ensures Or(a, b) < Pow2(k)
  {
    if k > 0 {
      OrBound(a / 2, b / 2, k - 1);
    }
  }

  /** Bit by bit, Or is the disjunction. */
  lemma {:induction false} FieldOfOr(a: nat, b: nat, k: nat)
    ensures forall j :: 0 <= j < k ==> Field(Or(a, b), k)[j] == (Field(a, k)[j] || Field(b, k)[j])
  {
    if k > 0 {
      FieldOfOr(a / 2, b / 2, k - 1);
      assert Or(a, b) / 2 == Or(a / 2, b / 2);
    }
  }

  // ----- packing

  lemma {:induction false} UnpackConcat(a: seq<byte>, b: seq<byte>)
    ensures Unpack(a + b) == Unpack(a) + Unpack(b)
  {
    if b == [] {
      assert a + b == a;
    } else {
      UnpackConcat(a, b[..|b| - 1]);
      assert (a + b)[..|a + b| - 1] == a + b[..|b| - 1];
    }
  }

  lemma UnpackNone()
    ensures Unpack([]) == []
  {
  }

  lemma UnpackOne(a: seq<byte>, b: byte)
    ensures Unpack(a + [b]) == Unpack(a) + Field(b, BYTE_BITS)
  {
    assert (a + [b])[..|a|] == a;
  }

  lemma {:induction false} UnpackInjective(a: seq<byte>, b: seq<byte>)
    requires Unpack(a) == Unpack(b)
    ensures a == b
  {
    if a != [] {
      var n := |a| - 1;
      assert Unpack(a)[8 * n..] == Field(a[n], 8);
      assert Unpack(b)[8 * n..] == Field(b[n], 8);
      assert Unpack(a)[..8 * n] == Unpack(a[..n]);
      assert Unpack(b)[..8 * n] == Unpack(b[..n]);
      UnpackInjective(a[..n], b[..n]);
      assert Pow2(8) == 256;
      ValueOfField(a[n], 8);
      ValueOfField(b[n], 8);
      assert a == a[..n] + [a[n]] && b == b[..n] + [b[n]];
    }
  }

  /** Pack is the only byte string that holds the bits with less than a byte of zero padding. */
  lemma {:induction false} PackedIsPack(bytes: seq<byte>, bits: seq<bool>)
    ensures IsPacked(bytes, bits) <==> bytes == Pack(bits)
  {
    PackIsPacked(bits);
    if IsPacked(bytes, bits) {
      assert |bytes| == |Pack(bits)|;
      UnpackInjective(bytes, Pack(bits));
    }
  }

  lemma NothingPacked()
    ensures IsPacked([], [])
  {
    UnpackNone();
  }

  lemma LastByte(bytes: seq<byte>, b: byte, init: seq<bool>, tail: seq<bool>)
    requires IsPacked(bytes, init) && |init| % 8 == 0 && 1 <= |tail| <= 8
    requires Field(b, 8) == tail + Zeros(8 - |tail|)
    ensures IsPacked(bytes + [b], init + tail)
  {
    hide Field, Unpack;
    UnpackOne(bytes, b);
    assert Unpack(bytes) == init;
  }

  lemma {:induction false} PackIsPacked(bits: seq<bool>)
    ensures IsPacked(Pack(bits), bits)
    decreases |bits|
  {
    hide Field, Value, Unpack, IsPacked;
    if bits == [] {
      NothingPacked();
    } else {
      var rest := (|bits| - 1) % 8 + 1;
      var init, tail := bits[..|bits| - rest], bits[|bits| - rest..];
      var last := tail + Zeros(8 - rest);
      PackIsPacked(init);
      ValueBound(last);
      assert Pow2(8) == 256;
      FieldOfValue(last);
      assert |init| % 8 == 0;
      LastByte(Pack(init), Value(last), init, tail);
      assert bits == init + tail;
    }
  }

  /** Whole bytes whose bits start a stream also start the packed stream. */
  lemma {:induction false} PrefixOfPack(bytes: seq<byte>, bits: seq<bool>)
    requires Unpack(bytes) <= bits
    ensures bytes <= Pack(bits)
  {
    hide Field, Unpack, Pack;
    PackIsPacked(bits);
    var all := Pack(bits);
    var n := |bytes|;
    UnpackConcat(all[..n], all[n..]);
    assert all == all[..n] + all[n..];
    assert Unpack(all)[..8 * n] == Unpack(all[..n]);
    assert Unpack(bytes) == (bits + Zeros(8 * |all| - |bits|))[..8 * n];
    UnpackInjective(bytes, all[..n]);
  }
}
