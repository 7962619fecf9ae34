/** The compressed format and the greedy parse that the heatshrink encoder has to produce,
    as functions of the whole input, with the decoder that inverts them. */
module Lzss {
  import opened Bits

  const MIN_WINDOW_BITS: nat := 4
  const MAX_WINDOW_BITS: nat := 15
  const MIN_LOOKAHEAD_BITS: nat := 3

  /** Window and lookahead sizes, as powers of two. */
  datatype Params = Params(windowBits: nat, lookaheadBits: nat) {
    predicate Valid() {
      && MIN_WINDOW_BITS <= windowBits <= MAX_WINDOW_BITS
      && MIN_LOOKAHEAD_BITS <= lookaheadBits < windowBits
    }

    function Window(): nat { Pow2(windowBits) }

    function Lookahead(): nat { Pow2(lookaheadBits) }

    /** The number of bits a back-reference costs. */
    function BreakEven(): nat { 1 + windowBits + lookaheadBits }
  }

  datatype Token =
    | Literal(value: byte)
    | Backref(dist: nat, len: nat)
  {
    /** How many bytes of input the token stands for. */
    function Covers(): nat {
      match this
      case Literal(_) => 1
      case Backref(_, len) => len
    }

    predicate Fits(p: Params) {
      match this
      case Literal(_) => true
      case Backref(dist, len) => 1 <= dist <= p.Window() && 1 <= len <= p.Lookahead()
    }
  }

  // ----- longest match

  /** A match found by looking back dist bytes; len is 0 when there is none. */
  datatype Match = Match(len: nat, dist: nat)

  /** How many bytes from position q on, up to max, equal the byte dist before them; the two
      stretches may overlap. */
  function MatchLen(data: seq<byte>, q: nat, dist: nat, max: nat): (r: nat)
    requires dist <= q && q + max <= |data|
    ensures r <= max
    decreases max
  {
    if max == 0 || data[q - dist] != data[q] then 0 else 1 + MatchLen(data, q + 1, dist, max - 1)
  }

  /** m is the longest match for data[q..q + max] among the distances 1..reach,
      and the nearest among the longest. */
  ghost predicate IsNearestLongest(data: seq<byte>, q: nat, reach: nat, max: nat, m: Match)
    requires reach <= q && q + max <= |data|
  {
    && (forall d :: 1 <= d <= reach ==> MatchLen(data, q, d, max) <= m.len)
    && (m.len == 0 ==> m.dist == 0)
    && (m.len > 0 ==>
          && 1 <= m.dist <= reach
          && MatchLen(data, q, m.dist, max) == m.len
          && forall d :: 1 <= d < m.dist ==> MatchLen(data, q, d, max) < m.len)
  }

  /** The nearest longest match, found by trying every distance. */
  function Best(data: seq<byte>, q: nat, reach: nat, max: nat): (m: Match)
    requires reach <= q && q + max <= |data|
    ensures m.len <= max
    ensures m.len > 0 ==> 1 <= m.dist <= reach && MatchLen(data, q, m.dist, max) == m.len
  {
    if reach == 0 then Match(0, 0)
    else
      var m := Best(data, q, reach - 1, max);
      var len := MatchLen(data, q, reach, max);
      if len > m.len then Match(len, reach) else m
  }

  lemma {:induction false} BestIsNearestLongest(data: seq<byte>, q: nat, reach: nat, max: nat)
    requires reach <= q && q + max <= |data|
    ensures IsNearestLongest(data, q, reach, max, Best(data, q, reach, max))
  {
    if reach > 0 {
      BestIsNearestLongest(data, q, reach - 1, max);
    }
  }

  /** The nearest longest match is unique, so every search that finds one agrees with Best. */
  lemma NearestLongestUnique(data: seq<byte>, q: nat, reach: nat, max: nat, m: Match)
    requires reach <= q && q + max <= |data|
    requires IsNearestLongest(data, q, reach, max, m)
    ensures m == Best(data, q, reach, max)
  {
    var n := Best(data, q, reach, max);
    BestIsNearestLongest(data, q, reach, max);
    if m.len > 0 {
      assert MatchLen(data, q, m.dist, max) <= n.len;
    }
    if n.len > 0 {
      assert MatchLen(data, q, n.dist, max) <= m.len;
    }
  }

  // ----- tokens and the greedy parse

  /** The longest match that may start at q: the lookahead, or what is left of the data. */
  function MaxMatch(p: Params, data: seq<byte>, q: nat): (r: nat)
    requires q <= |data|
    ensures q + r <= |data| && r <= p.Lookahead()
    ensures q < |data| ==> r >= 1
  {
    if |data| - q < p.Lookahead() then |data| - q else p.Lookahead()
  }

  /** The token the greedy parse takes at q: the best match if it is longer than a back-reference
      costs, counted in whole bytes, and otherwise a literal. */
  function TokenAt(p: Params, data: seq<byte>, q: nat): (t: Token)
    requires p.Window() <= q < |data|
    ensures t.Fits(p) && 1 <= t.Covers() && q + t.Covers() <= |data|
  {
    var m := Best(data, q, p.Window(), MaxMatch(p, data, q));
    if m.len > p.BreakEven() / 8 then Backref(m.dist, m.len) else Literal(data[q])
  }

  /** The bytes from q on repeat those dist before them for len bytes. */
  predicate Repeats(data: seq<byte>, q: nat, dist: nat, len: nat)
    requires dist <= q && q + len <= |data|
  {
    forall k :: q <= k < q + len ==> data[k] == data[k - dist]
  }

  lemma {:induction false} MatchLenIs(data: seq<byte>, q: nat, dist: nat, max: nat, len: nat)
    requires dist <= q && q + max <= |data| && len <= max
    ensures Repeats(data, q, dist, len) <==> len <= MatchLen(data, q, dist, max)
    decreases max
  {
    if len > 0 {
      if data[q] == data[q - dist] {
        MatchLenIs(data, q + 1, dist, max - 1, len - 1);
        if Repeats(data, q + 1, dist, len - 1) {
          assert Repeats(data, q, dist, len);
        }
        if Repeats(data, q, dist, len) {
          assert Repeats(data, q + 1, dist, len - 1);
        }
      }
    }
  }

  /** What the greedy parse takes, told from the bytes alone. A back-reference repeats the bytes it stands
      for, for more than an eighth of its own bits, from within the window; nothing longer repeats from
      anywhere in the window, as far as the lookahead and the data go, and nothing as long from nearer. A
      literal is the next byte, and nothing longer than that eighth repeats. */
  lemma TokenIsGreedy(p: Params, data: seq<byte>, q: nat)
    requires p.Window() <= q < |data|
    ensures var t := TokenAt(p, data, q);
      var max := if |data| - q < Pow2(p.lookaheadBits) then |data| - q else Pow2(p.lookaheadBits);
      match t
      case Backref(dist, len) =>
        && 1 <= dist <= Pow2(p.windowBits) && (1 + p.windowBits + p.lookaheadBits) / 8 < len <= max
        && Repeats(data, q, dist, len)
        && (forall d: nat, n: nat :: 1 <= d <= Pow2(p.windowBits) && len < n <= max ==> !Repeats(data, q, d, n))
        && (forall d: nat :: 1 <= d < dist ==> !Repeats(data, q, d, len))
      case Literal(value) =>
        && value == data[q]
        && forall d: nat, n: nat ::
             1 <= d <= Pow2(p.windowBits) && (1 + p.windowBits + p.lookaheadBits) / 8 < n <= max ==>
               !Repeats(data, q, d, n)
  {
    var max, w := MaxMatch(p, data, q), p.Window();
    BestIsNearestLongest(data, q, w, max);
    var m := Best(data, q, w, max);
    hide Best, MatchLen, Pow2, Repeats;
    forall d: nat, n: nat | 1 <= d <= w && n <= max ensures Repeats(data, q, d, n) <==> n <= MatchLen(data, q, d, max) {
      MatchLenIs(data, q, d, max, n);
    }
  }

  function TokenBits(p: Params, t: Token): (r: seq<bool>)
    ensures |r| >= 1
  {
    match t
    case Literal(value) => [true] + Field(value, BYTE_BITS)
    case Backref(dist, len) =>
      if dist >= 1 && len >= 1 then
        [false] + (Field(dist - 1, p.windowBits) + Field(len - 1, p.lookaheadBits))
      else [false]
  }

  /** The bits of the greedy parse of data from position q on. */
  function ParseBits(p: Params, data: seq<byte>, q: nat): seq<bool>
    requires p.Window() <= q <= |data|
    decreases |data| - q
  {
    if q == |data| then []
    else
      var t := TokenAt(p, data, q);
      TokenBits(p, t) + ParseBits(p, data, q + t.Covers())
  }

  function ZeroBytes(n: nat): (r: seq<byte>)
    ensures |r| == n && forall i :: 0 <= i < n ==> r[i] == 0
  {
    seq(n, _ => 0)
  }

  /** The input behind a window full of zero bytes, which matches may reach into. */
  function History(p: Params, input: seq<byte>): seq<byte> {
    ZeroBytes(p.Window()) + input
  }

  /** All the bits of the encoding of an input. */
  function InputBits(p: Params, input: seq<byte>): seq<bool> {
    ParseBits(p, History(p, input), p.Window())
  }

  /** The encoding of an input. */
  function Encode(p: Params, input: seq<byte>): seq<byte> {
    Pack(InputBits(p, input))
  }

  // ----- decoding

  datatype TokenRead = Incomplete | Complete(token: Token, size: nat)

  /** The token at the front of a bit stream, if all of it is there. */
  function ReadToken(p: Params, bits: seq<bool>): (r: TokenRead)
    ensures r.Complete? ==> 1 <= r.size <= |bits|
    ensures r.Complete? && r.token.Backref? ==> 1 <= r.token.dist <= p.Window()
  {
    if bits == [] then Incomplete
    else if bits[0] then
      if |bits| < 9 then Incomplete
      else
        ValueBound(bits[1..9]);
        assert Pow2(8) == 256;
        Complete(Literal(Value(bits[1..9])), 9)
    else if |bits| < p.BreakEven() then Incomplete
    else
      var split := 1 + p.windowBits;
      ValueBound(bits[1..split]);
      Complete(Backref(Value(bits[1..split]) + 1, Value(bits[split..p.BreakEven()]) + 1), p.BreakEven())
  }

  /** Append len bytes, each a copy of the one dist back, one at a time. */
  function CopyBack(out: seq<byte>, dist: nat, len: nat): (r: seq<byte>)
    requires 1 <= dist <= |out|
    ensures |r| == |out| + len
    decreases len
  {
    if len == 0 then out else CopyBack(out + [out[|out| - dist]], dist, len - 1)
  }

  function Expand(out: seq<byte>, t: Token): (r: seq<byte>)
    requires t.Backref? ==> 1 <= t.dist <= |out|
    ensures |r| == |out| + t.Covers()
  {
    match t
    case Literal(value) => out + [value]
    case Backref(dist, len) => CopyBack(out, dist, len)
  }

  /** Decode tokens behind what has been output until too few bits are left for a whole token. */
  function DecodeBits(p: Params, bits: seq<bool>, out: seq<byte>): (r: seq<byte>)
    requires p.Window() <= |out|
    ensures |out| <= |r|
    decreases |bits|
  {
    var t := ReadToken(p, bits);
    if t.Incomplete? then out else DecodeBits(p, bits[t.size..], Expand(out, t.token))
  }

  function Decode(p: Params, bytes: seq<byte>): seq<byte> {
    DecodeBits(p, Unpack(bytes), ZeroBytes(p.Window()))[p.Window()..]
  }

  // ----- one token

  lemma ReadWholeToken(p: Params, t: Token, rest: seq<bool>)
    requires t.Fits(p)
    ensures ReadToken(p, TokenBits(p, t) + rest) == Complete(t, |TokenBits(p, t)|)
  {
    hide Field, Value;
    var bits := TokenBits(p, t) + rest;
    match t
    case Literal(value) =>
      assert bits[1..9] == Field(value, 8);
      assert value < Pow2(8);
      ValueOfField(value, 8);
    case Backref(dist, len) =>
      var split := 1 + p.windowBits;
      assert bits[1..split] == Field(dist - 1, p.windowBits);
      assert bits[split..p.BreakEven()] == Field(len - 1, p.lookaheadBits);
      ValueOfField(dist - 1, p.windowBits);
      ValueOfField(len - 1, p.lookaheadBits);
  }

  lemma ReadCutToken(p: Params, t: Token, k: nat)
    requires t.Fits(p) && k < |TokenBits(p, t)|
    ensures ReadToken(p, TokenBits(p, t)[..k]).Incomplete?
  {
  }

  lemma ReadPadding(p: Params, pad: nat)
    requires p.Valid() && pad < 8
    ensures ReadToken(p, Zeros(pad)).Incomplete?
  {
  }

  lemma {:induction false} CopyBackAll(data: seq<byte>, q: nat, dist: nat, len: nat)
    requires 1 <= dist <= q && q + len <= |data|
    requires forall k :: q <= k < q + len ==> data[k] == data[k - dist]
    ensures CopyBack(data[..q], dist, len) == data[..q + len]
    decreases len
  {
    if len > 0 {
      assert data[..q] + [data[q]] == data[..q + 1];
      CopyBackAll(data, q + 1, dist, len - 1);
    }
  }

  /** Every byte that a match covers equals the byte dist before it. */
  lemma {:induction false} MatchAgrees(data: seq<byte>, q: nat, dist: nat, max: nat)
    requires dist <= q && q + max <= |data|
    ensures forall k :: q <= k < q + MatchLen(data, q, dist, max) ==> data[k] == data[k - dist]
    decreases max
  {
    if MatchLen(data, q, dist, max) > 0 {
      MatchAgrees(data, q + 1, dist, max - 1);
    }
  }

  /** Expanding the greedy token reproduces the input it covers, even where source and target overlap. */
  lemma ExpandGreedy(p: Params, data: seq<byte>, q: nat)
    requires p.Window() <= q < |data|
    ensures var t := TokenAt(p, data, q); Expand(data[..q], t) == data[..q + t.Covers()]
  {
    var t := TokenAt(p, data, q);
    if t.Backref? {
      MatchAgrees(data, q, t.dist, MaxMatch(p, data, q));
      CopyBackAll(data, q, t.dist, t.len);
    }
  }

  // ----- round trip, truncation and size

  /** Fewer than eight zero bits never read as a token, so the padding of the last byte is ignored. */
  lemma {:induction false} DecodeParse(p: Params, data: seq<byte>, q: nat, pad: nat)
    requires p.Valid() && p.Window() <= q <= |data| && pad < 8
    ensures DecodeBits(p, ParseBits(p, data, q) + Zeros(pad), data[..q]) == data
    decreases |data| - q
  {
    hide TokenAt, TokenBits, ReadToken, Expand;
    if q == |data| {
      assert data[..q] == data;
      ReadPadding(p, pad);
      assert ParseBits(p, data, q) + Zeros(pad) == Zeros(pad);
    } else {
      var t := TokenAt(p, data, q);
      var rest := ParseBits(p, data, q + t.Covers()) + Zeros(pad);
      var bits := TokenBits(p, t) + rest;
      assert ParseBits(p, data, q) + Zeros(pad) == bits;
      ReadWholeToken(p, t, rest);
      assert bits[|TokenBits(p, t)|..] == rest;
      ExpandGreedy(p, data, q);
      DecodeParse(p, data, q + t.Covers(), pad);
    }
  }

  /** The decoder inverts the encoding of every input. */
  lemma RoundTrip(p: Params, input: seq<byte>)
    requires p.Valid()
    ensures Decode(p, Encode(p, input)) == input
  {
    var data := History(p, input);
    var bits := InputBits(p, input);
    PackIsPacked(bits);
    DecodeParse(p, data, p.Window(), 8 * |Pack(bits)| - |bits|);
    assert data[..p.Window()] == ZeroBytes(p.Window());
  }

  /** A bit stream cut short anywhere decodes to less than the input. */
  lemma {:induction false} DecodeCutParse(p: Params, data: seq<byte>, q: nat, k: nat)
    requires p.Valid() && p.Window() <= q <= |data| && k < |ParseBits(p, data, q)|
    ensures DecodeBits(p, ParseBits(p, data, q)[..k], data[..q]) < data
    decreases |data| - q
  {
    hide TokenAt, TokenBits, ReadToken, Expand;
    var t := TokenAt(p, data, q);
    var head := TokenBits(p, t);
    var rest := ParseBits(p, data, q + t.Covers());
    var bits := ParseBits(p, data, q)[..k];
    if k < |head| {
      assert bits == head[..k];
      ReadCutToken(p, t, k);
    } else {
      assert bits == head + rest[..k - |head|];
      ReadWholeToken(p, t, rest[..k - |head|]);
      assert bits[|head|..] == rest[..k - |head|];
      ExpandGreedy(p, data, q);
      DecodeCutParse(p, data, q + t.Covers(), k - |head|);
    }
  }

  /** An encoding that misses even one byte at its end decodes to a proper prefix of the input. */
  lemma TruncationLoses(p: Params, input: seq<byte>, k: nat)
    requires p.Valid() && k < |Encode(p, input)|
    ensures Decode(p, Encode(p, input)[..k]) < input
  {
    hide ParseBits, DecodeBits;
    var data, w := History(p, input), p.Window();
    var bits, bytes := InputBits(p, input), Encode(p, input);
    PackIsPacked(bits);
    UnpackConcat(bytes[..k], bytes[k..]);
    assert bytes == bytes[..k] + bytes[k..];
    assert Unpack(bytes[..k]) == Unpack(bytes)[..8 * k] == bits[..8 * k];
    DecodeCutParse(p, data, w, 8 * k);
    assert data[..w] == ZeroBytes(w);
    var cut := DecodeBits(p, bits[..8 * k], data[..w]);
    assert cut < data && data[w..] == input;
    assert cut[w..] < data[w..];
  }

  /** A back-reference costs less than eight bits for each byte it covers, a literal nine. */
  lemma TokenCost(p: Params, data: seq<byte>, q: nat)
    requires p.Window() <= q < |data|
    ensures var t := TokenAt(p, data, q);
            && (t.Backref? ==> |TokenBits(p, t)| < 8 * t.Covers())
            && (t.Literal? ==> |TokenBits(p, t)| == 9 && t.value == data[q])
  {
  }

  lemma {:induction false} ParseCost(p: Params, data: seq<byte>, q: nat)
    requires p.Window() <= q <= |data|
    ensures |ParseBits(p, data, q)| <= 9 * (|data| - q)
    decreases |data| - q
  {
    hide TokenAt, TokenBits, Pow2;
    if q < |data| {
      var t := TokenAt(p, data, q);
      TokenCost(p, data, q);
      ParseCost(p, data, q + t.Covers());
      assert |ParseBits(p, data, q)| == |TokenBits(p, t)| + |ParseBits(p, data, q + t.Covers())|;
    }
  }

  /** An input of n bytes never encodes to more than 9n/8 bytes, rounded up. */
  lemma SizeBound(p: Params, input: seq<byte>)
    ensures |Encode(p, input)| <= (9 * |input| + 7) / 8
    ensures input != [] ==> |Encode(p, input)| >= 1
  {
    ParseCost(p, History(p, input), p.Window());
    if input != [] {
      assert |InputBits(p, input)| >= 1;
    }
  }

  lemma {:induction false} FieldWithTop(k: nat, v: nat)
    requires v < Pow2(k)
    ensures Field(Pow2(k) + v, k + 1) == [true] + Field(v, k)
  {
    if k == 0 {
      assert Field(1, 1) == Field(0, 0) + [true];
    } else {
      FieldWithTop(k - 1, v / 2);
      assert (Pow2(k) + v) / 2 == Pow2(k - 1) + v / 2;
    }
  }

  /** An input that does not start with a zero is encoded with a literal first, so the first byte of the
      encoding is the upper seven bits of that of the input behind a one. */
  lemma FirstByte(p: Params, input: seq<byte>)
    requires input != [] && input[0] != 0
    ensures Encode(p, input) != [] && Encode(p, input)[0] == 128 + input[0] / 2
  {
    hide Pack, Unpack, Field, Value, ParseBits;
    var bits, bytes := InputBits(p, input), Encode(p, input);
    StartsWithLiteral(p, input);
    PackIsPacked(bits);
    assert bytes != [];
    assert bytes == [bytes[0]] + bytes[1..];
    UnpackConcat([bytes[0]], bytes[1..]);
    UnpackOne([], bytes[0]);
    UnpackNone();
    assert Unpack([bytes[0]]) == Field(bytes[0], 8) by { assert [] + [bytes[0]] == [bytes[0]]; }
    assert Unpack(bytes)[..8] == Field(bytes[0], 8);
    assert bits[..8] == [true] + Field(input[0], 8)[..7];
    HighBits(input[0]);
    assert Field(bytes[0], 8) == Field(128 + input[0] / 2, 8);
    assert Pow2(8) == 256;
    ValueOfField(bytes[0], 8);
    ValueOfField(128 + input[0] / 2, 8);
  }

  lemma HighBits(v: byte)
    ensures [true] + Field(v, 8)[..7] == Field(128 + v / 2, 8)
  {
    assert Pow2(7) == 128;
    FieldWithTop(7, v / 2);
    assert Field(v, 8)[..7] == Field(v / 2, 7);
  }

  lemma StartsWithLiteral(p: Params, input: seq<byte>)
    requires input != [] && input[0] != 0
    ensures |InputBits(p, input)| >= 9 && InputBits(p, input)[..9] == [true] + Field(input[0], 8)
  {
    hide Best, Pow2, Field;
    var data, w := History(p, input), p.Window();
    var max := MaxMatch(p, data, w);
    assert data[w] == input[0];
    forall d | 1 <= d <= w ensures MatchLen(data, w, d, max) == 0 {
      assert data[w - d] == 0;
    }
    assert Best(data, w, w, max).len == 0;
    hide ParseBits, MatchLen;
    ParseUnfold(p, data, w);
  }

  lemma ParseUnfold(p: Params, data: seq<byte>, q: nat)
    requires p.Window() <= q < |data|
    ensures var t := TokenAt(p, data, q);
            ParseBits(p, data, q) == TokenBits(p, t) + ParseBits(p, data, q + t.Covers())
  {
    hide TokenAt, TokenBits, Pow2;
  }

  // ----- parsing a stream of which only the beginning is known

  lemma {:induction false} MatchLenExtend(data: seq<byte>, ext: seq<byte>, q: nat, dist: nat, max: nat)
    requires dist <= q && q + max <= |data|
    ensures MatchLen(data + ext, q, dist, max) == MatchLen(data, q, dist, max)
    decreases max
  {
    if max > 0 && data[q - dist] == data[q] {
      MatchLenExtend(data, ext, q + 1, dist, max - 1);
    }
  }

  lemma {:induction false} BestExtend(data: seq<byte>, ext: seq<byte>, q: nat, reach: nat, max: nat)
    requires reach <= q && q + max <= |data|
    ensures Best(data + ext, q, reach, max) == Best(data, q, reach, max)
  {
    if reach > 0 {
      BestExtend(data, ext, q, reach - 1, max);
      MatchLenExtend(data, ext, q, reach, max);
    }
  }

  /** With a full lookahead available the token is the same whatever follows. */
  lemma TokenStable(p: Params, data: seq<byte>, ext: seq<byte>, q: nat)
    requires p.Window() <= q && q + p.Lookahead() <= |data|
    requires q < |data|
    ensures TokenAt(p, data + ext, q) == TokenAt(p, data, q)
  {
    BestExtend(data, ext, q, p.Window(), p.Lookahead());
  }

  /** bits, followed by the parse from q on, are the whole parse. */
  ghost predicate Splits(p: Params, data: seq<byte>, q: nat, bits: seq<bool>)
    requires p.Window() <= q <= |data|
  {
    ParseBits(p, data, p.Window()) == bits + ParseBits(p, data, q)
  }

  lemma SplitsNext(p: Params, data: seq<byte>, q: nat, bits: seq<bool>)
    requires p.Window() <= q < |data| && Splits(p, data, q, bits)
    ensures var t := TokenAt(p, data, q); Splits(p, data, q + t.Covers(), bits + TokenBits(p, t))
  {
    hide TokenAt, TokenBits;
    var t := TokenAt(p, data, q);
    Regroup(ParseBits(p, data, p.Window()), bits, TokenBits(p, t), ParseBits(p, data, q + t.Covers()));
  }

  lemma Regroup(all: seq<bool>, a: seq<bool>, b: seq<bool>, c: seq<bool>)
    requires all == a + (b + c)
    ensures all == (a + b) + c
  {
  }

  /** bits, followed by the parse from q on, are the parse of data and of each of its extensions;
      once the input is final, of data itself. */
  ghost predicate Committed(p: Params, data: seq<byte>, q: nat, bits: seq<bool>, final: bool)
  {
    && p.Window() <= q <= |data|
    && forall ext: seq<byte> {:trigger data + ext} ::
         (final ==> ext == []) ==> Splits(p, data + ext, q, bits)
  }

  lemma CommitStart(p: Params)
    ensures Committed(p, History(p, []), p.Window(), [], false)
  {
  }

  lemma CommitMoreInput(p: Params, data: seq<byte>, more: seq<byte>, q: nat, bits: seq<bool>)
    requires Committed(p, data, q, bits, false)
    ensures Committed(p, data + more, q, bits, false)
  {
    hide Splits;
    forall ext: seq<byte> ensures Splits(p, data + more + ext, q, bits) {
      assert data + more + ext == data + (more + ext);
    }
  }

  lemma CommitFinal(p: Params, data: seq<byte>, q: nat, bits: seq<bool>, final: bool)
    requires Committed(p, data, q, bits, final)
    ensures Committed(p, data, q, bits, true)
  {
  }

  /** One more greedy token can be committed to when its lookahead is complete or the input is final. */
  lemma CommitToken(p: Params, data: seq<byte>, q: nat, bits: seq<bool>, final: bool)
    requires Committed(p, data, q, bits, final)
    requires q < |data| && (final || q + p.Lookahead() <= |data|)
    ensures var t := TokenAt(p, data, q);
            Committed(p, data, q + t.Covers(), bits + TokenBits(p, t), final)
  {
    hide Splits, TokenAt, TokenBits;
    var t := TokenAt(p, data, q);
    forall ext: seq<byte> | final ==> ext == []
      ensures Splits(p, data + ext, q + t.Covers(), bits + TokenBits(p, t))
    {
      if final {
        assert data + ext == data;
      } else {
        TokenStable(p, data, ext, q);
      }
      SplitsNext(p, data + ext, q, bits);
    }
  }

  /** When everything is parsed and final, the committed bits are all the bits of the parse. */
  lemma CommitAll(p: Params, data: seq<byte>, q: nat, bits: seq<bool>)
    requires Committed(p, data, q, bits, true) && q == |data|
    ensures bits == ParseBits(p, data, p.Window())
  {
    assert data + [] == data;
  }

  /** At any time, the committed bits begin the encoding of every input that may still come. */
  lemma CommitPrefix(p: Params, data: seq<byte>, q: nat, bits: seq<bool>, final: bool, ext: seq<byte>)
    requires Committed(p, data, q, bits, final) && (final ==> ext == [])
    ensures p.Window() <= |data + ext| && bits <= ParseBits(p, data + ext, p.Window())
  {
    assert data + ext == data + ext;
  }

  // ----- walking over the tokens

  /** A boundary between two tokens: its position, the bits before it, and whether the token that ends
      there is a back-reference. */
  datatype Mark = Mark(pos: nat, bits: nat, backref: bool)

  /** Where the parse begins. */
  function Origin(p: Params): Mark {
    Mark(p.Window(), 0, false)
  }

  /** The first boundary at or behind a position. */
  function Walk(p: Params, data: seq<byte>, m: Mark, until: nat): (r: Mark)
    requires p.Window() <= m.pos <= |data| && until <= |data|
    ensures m.pos <= r.pos <= |data| && until <= r.pos && m.bits <= r.bits
    decreases |data| - m.pos
  {
    if until <= m.pos then m
    else
      var t := TokenAt(p, data, m.pos);
      Walk(p, data, Mark(m.pos + t.Covers(), m.bits + |TokenBits(p, t)|, t.Backref?), until)
  }

  lemma {:induction false} WalkOn(p: Params, data: seq<byte>, m: Mark, u: nat, v: nat)
    requires p.Window() <= m.pos <= |data| && u <= v <= |data|
    ensures Walk(p, data, m, v) == Walk(p, data, Walk(p, data, m, u), v)
    decreases |data| - m.pos
  {
    hide TokenAt, TokenBits, Pow2;
    if m.pos < u {
      var t := TokenAt(p, data, m.pos);
      WalkOn(p, data, Mark(m.pos + t.Covers(), m.bits + |TokenBits(p, t)|, t.Backref?), u, v);
    }
  }

  /** A walk over at least one token gains at least eight bits, and at most nine for each byte. */
  lemma {:induction false} WalkCost(p: Params, data: seq<byte>, m: Mark, until: nat)
    requires p.Valid() && p.Window() <= m.pos <= |data| && until <= |data|
    ensures var r := Walk(p, data, m, until);
      && (m.pos < until ==> r.bits >= m.bits + 8)
      && r.bits <= m.bits + 9 * (r.pos - m.pos)
    decreases |data| - m.pos
  {
    hide TokenAt, TokenBits, Pow2;
    if m.pos < until {
      var t := TokenAt(p, data, m.pos);
      TokenCost(p, data, m.pos);
      TokenIsLong(p, t);
      WalkCost(p, data, Mark(m.pos + t.Covers(), m.bits + |TokenBits(p, t)|, t.Backref?), until);
    }
  }

  lemma TokenIsLong(p: Params, t: Token)
    requires p.Valid() && t.Fits(p)
    ensures 8 <= |TokenBits(p, t)|
    ensures t.Covers() <= p.Lookahead()
  {
  }

  /** A walk stops less than a lookahead behind the position. */
  lemma {:induction false} WalkStops(p: Params, data: seq<byte>, m: Mark, until: nat)
    requires p.Valid() && p.Window() <= m.pos <= until <= |data|
    ensures Walk(p, data, m, until).pos < until + p.Lookahead()
    decreases |data| - m.pos
  {
    hide TokenAt, TokenBits, Pow2;
    if m.pos < until {
      var t := TokenAt(p, data, m.pos);
      TokenIsLong(p, t);
      var m' := Mark(m.pos + t.Covers(), m.bits + |TokenBits(p, t)|, t.Backref?);
      if m'.pos < until {
        WalkStops(p, data, m', until);
      }
    }
  }

  /** A walk to the end counts the bits of the parse. */
  lemma {:induction false} WalkParse(p: Params, data: seq<byte>, m: Mark)
    requires p.Window() <= m.pos <= |data|
    ensures Walk(p, data, m, |data|).bits == m.bits + |ParseBits(p, data, m.pos)|
    ensures Walk(p, data, m, |data|).pos == |data|
    decreases |data| - m.pos
  {
    hide TokenAt, TokenBits, Pow2;
    if m.pos < |data| {
      var t := TokenAt(p, data, m.pos);
      WalkParse(p, data, Mark(m.pos + t.Covers(), m.bits + |TokenBits(p, t)|, t.Backref?));
    }
  }

  /** The end of the stretch in which tokens may begin while only the first known bytes are there: each
      needs its whole lookahead, unless everything is known. */
  function Bound(p: Params, known: nat, total: nat): nat {
    if known == total then total else if known < p.Lookahead() then 0 else known - p.Lookahead() + 1
  }

  /** The encoding of the input ends with a back-reference. */
  predicate EndsInBackref(p: Params, input: seq<byte>) {
    Walk(p, History(p, input), Origin(p), |History(p, input)|).backref
  }

  /** The boundary at q is the first one at or behind reached, on data and on each of its extensions;
      the token that ends there began with its whole lookahead known, or with the input final. */
  ghost predicate OnWalk(p: Params, data: seq<byte>, q: nat, bits: nat, reached: nat, backref: bool, final: bool) {
    && p.Window() <= reached <= q <= |data|
    && (final || reached == p.Window() || reached + p.Lookahead() <= |data| + 1)
    && forall ext: seq<byte> {:trigger data + ext} ::
         (final ==> ext == []) ==> Walk(p, data + ext, Origin(p), reached) == Mark(q, bits, backref)
  }

  lemma WalkStart(p: Params)
    ensures OnWalk(p, History(p, []), p.Window(), 0, p.Window(), false, false)
  {
  }

  lemma WalkMoreInput(p: Params, data: seq<byte>, more: seq<byte>, q: nat, bits: nat, reached: nat, backref: bool)
    requires OnWalk(p, data, q, bits, reached, backref, false)
    ensures OnWalk(p, data + more, q, bits, reached, backref, false)
  {
    hide Walk, Pow2;
    forall ext: seq<byte> ensures Walk(p, data + more + ext, Origin(p), reached) == Mark(q, bits, backref) {
      assert data + more + ext == data + (more + ext);
    }
  }

  lemma WalkFinal(p: Params, data: seq<byte>, q: nat, bits: nat, reached: nat, backref: bool, final: bool)
    requires OnWalk(p, data, q, bits, reached, backref, final)
    ensures OnWalk(p, data, q, bits, reached, backref, true)
  {
    hide Walk, Pow2;
  }

  lemma WalkOneToken(p: Params, data: seq<byte>, q: nat, bits: nat, backref: bool)
    requires p.Window() <= q < |data|
    ensures var t := TokenAt(p, data, q);
      Walk(p, data, Mark(q, bits, backref), q + 1) == Mark(q + t.Covers(), bits + |TokenBits(p, t)|, t.Backref?)
  {
    hide TokenAt, TokenBits, Pow2;
  }

  lemma WalkToken(p: Params, data: seq<byte>, q: nat, bits: nat, reached: nat, backref: bool, final: bool)
    requires OnWalk(p, data, q, bits, reached, backref, final)
    requires q < |data| && (final || q + p.Lookahead() <= |data|)
    ensures var t := TokenAt(p, data, q);
            OnWalk(p, data, q + t.Covers(), bits + |TokenBits(p, t)|, q + 1, t.Backref?, final)
  {
    hide Walk, TokenAt, TokenBits, Pow2;
    var t := TokenAt(p, data, q);
    forall ext: seq<byte> | final ==> ext == []
      ensures Walk(p, data + ext, Origin(p), q + 1) == Mark(q + t.Covers(), bits + |TokenBits(p, t)|, t.Backref?)
    {
      if final {
        assert data + ext == data;
      } else {
        TokenStable(p, data, ext, q);
      }
      WalkOn(p, data + ext, Origin(p), reached, q + 1);
      WalkOneToken(p, data + ext, q, bits, backref);
    }
  }

  /** From a boundary on the walk, any later position is reached as from the origin. */
  lemma WalkFrom(p: Params, data: seq<byte>, q: nat, bits: nat, reached: nat, backref: bool, final: bool,
                 ext: seq<byte>, until: nat)
    requires OnWalk(p, data, q, bits, reached, backref, final) && (final ==> ext == [])
    requires reached <= until <= |data + ext|
    ensures Walk(p, data + ext, Origin(p), until) == Walk(p, data + ext, Mark(q, bits, backref), until)
  {
    hide Walk, Pow2;
    assert Walk(p, data + ext, Origin(p), reached) == Mark(q, bits, backref);
    WalkOn(p, data + ext, Origin(p), reached, until);
  }
}
