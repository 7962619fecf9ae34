/** The CBOR message: one array holding the array of the four header numbers, followed by one array
    of three numbers for each acceleration sample. */
module MsgEncode {
  import opened Bits
  import opened Cbor

  const MAX_QTY: nat := 256

  predicate IsInt16(n: int) { -0x8000 <= n <= 0x7FFF }
  predicate IsInt32(n: int) { -0x8000_0000 <= n <= 0x7FFF_FFFF }
  predicate IsUint64(n: int) { 0 <= n < UINT64_LIMIT }

  /** msg_xyz: the fields are 32 bits wide. */
  datatype Triple = Triple(x: int, y: int, z: int) {
    predicate Valid() { IsInt32(x) && IsInt32(y) && IsInt32(z) }
    predicate InRange() { IsInt16(x) && IsInt16(y) && IsInt16(z) }
  }

  /** The tphg part of msg. */
  datatype Header = Header(timestamp: int, temp: int, press: int, hum: int) {
    predicate Valid() { IsUint64(timestamp) && IsInt32(temp) && IsInt32(press) && IsInt32(hum) }
  }

  datatype Msg = Msg(header: Header, xyz: seq<Triple>) {
    predicate Valid() { header.Valid() && forall t :: t in xyz ==> t.Valid() }

    /** What the encoder accepts: 1 to 256 samples, every coordinate in 16 bits. */
    predicate Encodable() { 1 <= |xyz| <= MAX_QTY && forall t :: t in xyz ==> t.InRange() }
  }

  // ----- the encoding as a function

  function HeaderBytes(h: Header): seq<byte> {
    Head(ARRAY, 4) + (Int(h.timestamp) + (Int(h.temp) + (Int(h.press) + Int(h.hum))))
  }

  function TripleBytes(t: Triple): seq<byte> {
    Head(ARRAY, 3) + (Int(t.x) + (Int(t.y) + Int(t.z)))
  }

  function TriplesBytes(ts: seq<Triple>): seq<byte> {
    if ts == [] then [] else TripleBytes(ts[0]) + TriplesBytes(ts[1..])
  }

  function MsgBytes(m: Msg): seq<byte> {
    Head(ARRAY, 1 + |m.xyz|) + (HeaderBytes(m.header) + TriplesBytes(m.xyz))
  }

  lemma Behind(a: seq<byte>, b: seq<byte>, c: seq<byte>)
    ensures (a + b) + c == a + (b + c) && (a + (b + c))[|a|..] == b + c
  {
  }

  lemma {:induction false} TriplesBytesConcat(a: seq<Triple>, b: seq<Triple>)
    ensures TriplesBytes(a + b) == TriplesBytes(a) + TriplesBytes(b)
  {
    hide TripleBytes;
    if a == [] {
      assert a + b == b;
    } else {
      assert (a + b)[1..] == a[1..] + b;
      TriplesBytesConcat(a[1..], b);
      Behind(TripleBytes(a[0]), TriplesBytes(a[1..]), TriplesBytes(b));
    }
  }

  lemma TriplesBytesSnoc(ts: seq<Triple>, t: Triple)
    ensures TriplesBytes(ts + [t]) == TriplesBytes(ts) + TripleBytes(t)
  {
    hide TripleBytes;
    TriplesBytesConcat(ts, [t]);
    assert TriplesBytes([t]) == TripleBytes(t) + TriplesBytes([]);
  }

  // ----- decoding

  /** An array head with the given number of items; 0 if there is none. */
  function ReadArray(bytes: seq<byte>, count: nat): (size: nat)
    ensures size <= |bytes|
  {
    var h := ReadHead(bytes);
    if h.HeadRead? && h.major == ARRAY && h.n == count then h.size else 0
  }

  datatype Read<T> = Failed | Read(value: T, rest: seq<byte>)

  function ReadInts(bytes: seq<byte>, count: nat): (r: Read<seq<int>>)
    ensures r.Read? ==> |r.value| == count && |r.rest| <= |bytes|
  {
    if count == 0 then Read([], bytes)
    else
      match ReadInt(bytes)
      case NoInt => Failed
      case IntRead(n, size) =>
        match ReadInts(bytes[size..], count - 1)
        case Failed => Failed
        case Read(more, rest) => Read([n] + more, rest)
  }

  /** An array of exactly count integers. */
  function ReadIntArray(bytes: seq<byte>, count: nat): (r: Read<seq<int>>)
    ensures r.Read? ==> |r.value| == count && |r.rest| < |bytes|
  {
    var size := ReadArray(bytes, count);
    if size == 0 then Failed else ReadInts(bytes[size..], count)
  }

  function ReadTriples(bytes: seq<byte>): (r: Read<seq<Triple>>)
    decreases |bytes|
  {
    if bytes == [] then Read([], [])
    else
      match ReadIntArray(bytes, 3)
      case Failed => Failed
      case Read(v, rest) =>
        match ReadTriples(rest)
        case Failed => Failed
        case Read(more, rest') => Read([Triple(v[0], v[1], v[2])] + more, rest')
  }

  /** The message that a byte string encodes. */
  function ReadMsg(bytes: seq<byte>): Read<Msg> {
    var head := ReadHead(bytes);
    if head.NoHead? || head.major != ARRAY then Failed
    else
      match ReadIntArray(bytes[head.size..], 4)
      case Failed => Failed
      case Read(h, rest) =>
        match ReadTriples(rest)
        case Failed => Failed
        case Read(xyz, rest') =>
          if head.n == 1 + |xyz| then Read(Msg(Header(h[0], h[1], h[2], h[3]), xyz), rest') else Failed
  }

  function IntsBytes(ns: seq<int>): seq<byte> {
    if ns == [] then [] else Int(ns[0]) + IntsBytes(ns[1..])
  }

  lemma {:induction false} ReadIntsOfBytes(ns: seq<int>, rest: seq<byte>)
    requires forall n :: n in ns ==> -UINT64_LIMIT <= n < UINT64_LIMIT
    ensures ReadInts(IntsBytes(ns) + rest, |ns|) == Read(ns, rest)
  {
    hide Int, ReadInt;
    if ns == [] {
      assert IntsBytes(ns) + rest == rest;
    } else {
      var first, tail := Int(ns[0]), IntsBytes(ns[1..]) + rest;
      assert ns[0] in ns && forall n :: n in ns[1..] ==> n in ns;
      assert [ns[0]] + ns[1..] == ns;
      ReadIntOfInt(ns[0], tail);
      ReadIntsOfBytes(ns[1..], rest);
      Behind(first, IntsBytes(ns[1..]), rest);
    }
  }

  lemma ReadIntArrayOfBytes(ns: seq<int>, rest: seq<byte>)
    requires forall n :: n in ns ==> -UINT64_LIMIT <= n < UINT64_LIMIT
    requires |ns| < UINT64_LIMIT
    ensures ReadIntArray(Head(ARRAY, |ns|) + (IntsBytes(ns) + rest), |ns|) == Read(ns, rest)
  {
    hide Head, ReadHead, IntsBytes, ReadInts;
    var tail := IntsBytes(ns) + rest;
    ReadHeadOfHead(ARRAY, |ns|, tail);
    assert (Head(ARRAY, |ns|) + tail)[|Head(ARRAY, |ns|)|..] == tail;
    ReadIntsOfBytes(ns, rest);
  }

  lemma TripleAsInts(t: Triple)
    ensures TripleBytes(t) == Head(ARRAY, 3) + IntsBytes([t.x, t.y, t.z])
  {
    hide Int, Head;
    assert IntsBytes([t.z]) == Int(t.z) + IntsBytes([]);
    assert [t.y, t.z][1..] == [t.z] && [t.x, t.y, t.z][1..] == [t.y, t.z];
  }

  lemma HeaderAsInts(h: Header)
    ensures HeaderBytes(h) == Head(ARRAY, 4) + IntsBytes([h.timestamp, h.temp, h.press, h.hum])
  {
    hide Int, Head;
    var a, b, c, d := [h.timestamp, h.temp, h.press, h.hum], [h.temp, h.press, h.hum], [h.press, h.hum], [h.hum];
    assert a[1..] == b && b[1..] == c && c[1..] == d && d[1..] == [];
    assert IntsBytes(d) == Int(h.hum) + IntsBytes([]);
    assert IntsBytes(c) == Int(h.press) + IntsBytes(d);
    assert IntsBytes(b) == Int(h.temp) + IntsBytes(c);
    assert IntsBytes(a) == Int(h.timestamp) + IntsBytes(b);
  }

  lemma TripleIsRead(t: Triple, tail: seq<byte>)
    requires t.Valid()
    ensures TripleBytes(t) + tail != []
    ensures ReadIntArray(TripleBytes(t) + tail, 3) == Read([t.x, t.y, t.z], tail)
  {
    hide TripleBytes, IntsBytes, ReadIntArray, Head;
    TripleAsInts(t);
    ReadIntArrayOfBytes([t.x, t.y, t.z], tail);
    Behind(Head(ARRAY, 3), IntsBytes([t.x, t.y, t.z]), tail);
  }

  lemma {:induction false} ReadTriplesOfBytes(ts: seq<Triple>)
    requires forall t :: t in ts ==> t.Valid()
    ensures ReadTriples(TriplesBytes(ts)) == Read(ts, [])
  {
    hide TripleBytes, IntsBytes, ReadIntArray, Head, Triple.Valid;
    if ts != [] {
      var t, tail := ts[0], TriplesBytes(ts[1..]);
      assert t in ts && forall u :: u in ts[1..] ==> u in ts;
      assert [t] + ts[1..] == ts;
      TripleIsRead(t, tail);
      ReadTriplesOfBytes(ts[1..]);
    }
  }

  /** Decoding inverts the encoding of every message. */
  lemma MsgRoundTrip(m: Msg)
    requires m.Valid() && |m.xyz| <= MAX_QTY
    ensures ReadMsg(MsgBytes(m)) == Read(m, [])
  {
    hide HeaderBytes, TriplesBytes, IntsBytes, ReadIntArray, ReadTriples, Head, ReadHead;
    var h, tail := m.header, TriplesBytes(m.xyz);
    var ints := [h.timestamp, h.temp, h.press, h.hum];
    HeaderAsInts(h);
    ReadHeadOfHead(ARRAY, 1 + |m.xyz|, HeaderBytes(h) + tail);
    var front := Head(ARRAY, 1 + |m.xyz|);
    assert (front + (HeaderBytes(h) + tail))[|front|..] == Head(ARRAY, 4) + (IntsBytes(ints) + tail);
    ReadIntArrayOfBytes(ints, tail);
    ReadTriplesOfBytes(m.xyz);
  }
}
