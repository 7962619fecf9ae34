/** The generated message encoder, which appends to a zcbor state and gives up at the first failure. */
module Zcbor {
  import opened Bits
  import opened Cbor
  import opened MsgEncode

  /** buf' is buf with bytes written over it from position at on. */
  ghost predicate Copied(buf: seq<byte>, at: nat, bytes: seq<byte>, buf': seq<byte>) {
    && |buf'| == |buf| && at + |bytes| <= |buf|
    && forall i :: 0 <= i < |buf| ==> buf'[i] == if at <= i < at + |bytes| then bytes[i - at] else buf[i]
  }

  lemma Appended(buf: seq<byte>, at: nat, bytes: seq<byte>, buf': seq<byte>)
    requires Copied(buf, at, bytes, buf')
    ensures buf'[..at + |bytes|] == buf[..at] + bytes
  {
  }

  /** Items moved up behind a shorter head, which is then written before them. */
  lemma Moved(buf0: seq<byte>, buf1: seq<byte>, buf2: seq<byte>, start: nat, room: nat, pos: nat, head: seq<byte>)
    requires |head| <= room && start + room <= pos <= |buf0|
    requires Copied(buf0, start + |head|, buf0[start + room..pos], buf1) && Copied(buf1, start, head, buf2)
    ensures var items := buf0[start + room..pos];
            buf2[..start + |head| + |items|] == buf0[..pos][..start] + head + buf0[..pos][start + room..]
  {
    Appended(buf0, start + |head|, buf0[start + room..pos], buf1);
  }

  /** Where a list began: the position of its head and the item count of the list around it. */
  datatype Backup = Backup(start: nat, outerCount: nat)

  class ZcborState {
    const buf: array<byte>
    const capacity: nat
    var pos: nat
    var elemCount: nat
    var backups: seq<Backup>

    ghost predicate Valid()
      reads this
    {
      pos <= capacity <= buf.Length
    }

    ghost function Written(): seq<byte>
      requires Valid()
      reads this, buf
    {
      buf[..pos]
    }

    constructor (buf: array<byte>, capacity: nat)
      requires capacity <= buf.Length
      ensures Valid() && this.buf == buf && this.capacity == capacity
      ensures pos == 0 && elemCount == 0 && backups == []
    {
      this.buf, this.capacity := buf, capacity;
      pos, elemCount, backups := 0, 0, [];
    }

    method CopyIn(at: nat, bytes: seq<byte>)
      requires at + |bytes| <= buf.Length
      modifies buf
      ensures Copied(old(buf[..]), at, bytes, buf[..])
    {
      forall i | 0 <= i < |bytes| {
        buf[at + i] := bytes[i];
      }
    }

    /** Append bytes if they fit. */
    method Put(bytes: seq<byte>) returns (ok: bool)
      requires Valid()
      modifies this`pos, buf
      ensures Valid() && (ok <==> old(pos) + |bytes| <= capacity)
      ensures Written() == old(Written()) + (if ok then bytes else [])
    {
      ok := pos + |bytes| <= capacity;
      if ok {
        ghost var before := buf[..];
        CopyIn(pos, bytes);
        Appended(before, pos, bytes, buf[..]);
        pos := pos + |bytes|;
      }
    }

    /** zcbor_int32_encode and zcbor_uint64_encode: one integer item. */
    method IntEncode(n: int) returns (ok: bool)
      requires Valid()
      modifies this`pos, this`elemCount, buf
      ensures Valid() && (ok <==> old(pos) + |Int(n)| <= capacity)
      ensures ok ==> Written() == old(Written()) + Int(n) && elemCount == old(elemCount) + 1
    {
      ok := Put(Int(n));
      if ok { elemCount := elemCount + 1; }
    }

    /** zcbor_list_start_encode, canonical: room for the head of the longest list that may come. */
    method ListStart(maxNum: nat) returns (ok: bool)
      requires Valid()
      modifies this`pos, this`elemCount, this`backups, buf
      ensures Valid() && (ok <==> old(pos) + |Head(ARRAY, maxNum)| <= capacity)
      ensures ok ==>
        && Written() == old(Written()) + Head(ARRAY, maxNum)
        && elemCount == 0 && backups == old(backups) + [Backup(old(pos), old(elemCount))]
    {
      var here := Backup(pos, elemCount);
      ok := Put(Head(ARRAY, maxNum));
      if ok {
        backups := backups + [here];
        elemCount := 0;
      }
    }

    /** Put head where room bytes were kept, and move what follows up to it. */
    method Overwrite(start: nat, room: nat, head: seq<byte>)
      requires Valid() && |head| <= room && start + room <= pos
      modifies this`pos, buf
      ensures Valid()
      ensures Written() == old(Written())[..start] + head + old(Written())[start + room..]
    {
      var items := buf[start + room..pos];
      ghost var bytes0 := buf[..];
      CopyIn(start + |head|, items);
      ghost var bytes1 := buf[..];
      CopyIn(start, head);
      Moved(bytes0, bytes1, buf[..], start, room, pos, head);
      pos := start + |head| + |items|;
    }

    /** zcbor_list_end_encode, canonical: the head is rewritten for the real number of items, and the
        items move up to it when it is shorter. */
    method ListEnd(maxNum: nat) returns (ok: bool)
      requires Valid() && backups != []
      requires backups[|backups| - 1].start + |Head(ARRAY, maxNum)| <= pos
      modifies this`pos, this`elemCount, this`backups, buf
      ensures Valid() && (ok <==> old(elemCount) <= maxNum)
      ensures ok ==> var b := old(backups[|backups| - 1]);
        && Written() == old(Written())[..b.start] + Head(ARRAY, old(elemCount))
                        + old(Written())[b.start + |Head(ARRAY, maxNum)|..]
        && elemCount == b.outerCount + 1 && backups == old(backups[..|backups| - 1])
    {
      hide Head;
      if elemCount > maxNum { return false; }
      var b := backups[|backups| - 1];
      Overwrite(b.start, |Head(ARRAY, maxNum)|, Head(ARRAY, elemCount));
      elemCount := b.outerCount + 1;
      backups := backups[..|backups| - 1];
      ok := true;
    }
  }

  // ----- the generated encoder

  lemma TripleParts(t: Triple)
    ensures TripleBytes(t) == Head(ARRAY, 3) + (Int(t.x) + (Int(t.y) + Int(t.z)))
  {
  }

  lemma ThreeItems(before: seq<byte>, head: seq<byte>, a: seq<byte>, b: seq<byte>, c: seq<byte>)
    ensures var all := before + head + a + b + c;
            all[..|before|] == before && all[|before| + |head|..] == a + (b + c)
    ensures before + head + (a + (b + c)) == before + (head + (a + (b + c)))
  {
  }

  /** One coordinate: refused when it does not fit in 16 bits. */
  method EncodeCoordinate(state: ZcborState, n: int) returns (ok: bool)
    requires state.Valid()
    modifies state`pos, state`elemCount, state.buf
    ensures state.Valid() && (ok <==> IsInt16(n) && old(state.pos) + |Int(n)| <= state.capacity)
    ensures ok ==> state.Written() == old(state.Written()) + Int(n) && state.elemCount == old(state.elemCount) + 1
  {
    ok := IsInt16(n);
    if ok { ok := state.IntEncode(n); }
  }

  /** encode_repeated_msg_xyz: one sample as an array of three 16-bit numbers. */
  method EncodeRepeatedMsgXyz(state: ZcborState, input: Triple) returns (ok: bool)
    requires state.Valid()
    modifies state, state.buf
    ensures state.Valid()
    ensures ok <==> input.InRange() && old(state.pos) + |TripleBytes(input)| <= state.capacity
    ensures ok ==>
      && state.Written() == old(state.Written()) + TripleBytes(input)
      && state.elemCount == old(state.elemCount) + 1 && state.backups == old(state.backups)
  {
    hide Head, Int, TripleBytes;
    ghost var before, start := state.Written(), state.pos;
    TripleParts(input);
    ok := state.ListStart(3);
    if !ok { return; }
    ok := EncodeCoordinate(state, input.x);
    if !ok { return; }
    ok := EncodeCoordinate(state, input.y);
    if !ok { return; }
    ok := EncodeCoordinate(state, input.z);
    if !ok { return; }
    ThreeItems(before, Head(ARRAY, 3), Int(input.x), Int(input.y), Int(input.z));
    ok := state.ListEnd(3);
  }

  lemma FourItems(before: seq<byte>, head: seq<byte>, a: seq<byte>, b: seq<byte>, c: seq<byte>, d: seq<byte>)
    ensures var all := before + head + a + b + c + d;
            all[..|before|] == before && all[|before| + |head|..] == a + (b + (c + d))
    ensures before + head + (a + (b + (c + d))) == before + (head + (a + (b + (c + d))))
  {
  }

  lemma HeaderParts(h: Header)
    ensures HeaderBytes(h) == Head(ARRAY, 4) + (Int(h.timestamp) + (Int(h.temp) + (Int(h.press) + Int(h.hum))))
  {
  }

  /** Four integers in a row, up to the first refusal. */
  method EncodeFour(state: ZcborState, a: int, b: int, c: int, d: int) returns (ok: bool)
    requires state.Valid()
    modifies state`pos, state`elemCount, state.buf
    ensures state.Valid()
    ensures ok <==> old(state.pos) + |Int(a)| + |Int(b)| + |Int(c)| + |Int(d)| <= state.capacity
    ensures ok ==> state.Written() == old(state.Written()) + Int(a) + Int(b) + Int(c) + Int(d)
    ensures ok ==> state.elemCount == old(state.elemCount) + 4
  {
    hide Int;
    ok := state.IntEncode(a);
    if !ok { return; }
    ok := state.IntEncode(b);
    if !ok { return; }
    ok := state.IntEncode(c);
    if !ok { return; }
    ok := state.IntEncode(d);
  }

  /** The tphg part of encode_msg: the four header numbers as an array. */
  method EncodeHeader(state: ZcborState, h: Header) returns (ok: bool)
    requires state.Valid()
    modifies state, state.buf
    ensures state.Valid()
    ensures ok <==> old(state.pos) + |HeaderBytes(h)| <= state.capacity
    ensures ok ==>
      && state.Written() == old(state.Written()) + HeaderBytes(h)
      && state.elemCount == old(state.elemCount) + 1 && state.backups == old(state.backups)
  {
    hide Head, Int, HeaderBytes;
    ghost var before, start := state.Written(), state.pos;
    HeaderParts(h);
    ok := state.ListStart(4);
    if !ok { return; }
    ok := EncodeFour(state, h.timestamp, h.temp, h.press, h.hum);
    if !ok { return; }
    FourItems(before, Head(ARRAY, 4), Int(h.timestamp), Int(h.temp), Int(h.press), Int(h.hum));
    ok := state.ListEnd(4);
  }

  lemma {:induction false} TriplesPrefix(ts: seq<Triple>, i: nat)
    requires i < |ts|
    ensures TriplesBytes(ts[..i + 1]) == TriplesBytes(ts[..i]) + TripleBytes(ts[i])
    ensures |TriplesBytes(ts[..i + 1])| <= |TriplesBytes(ts)|
  {
    hide TripleBytes, TriplesBytes;
    assert ts[..i + 1] == ts[..i] + [ts[i]];
    TriplesBytesSnoc(ts[..i], ts[i]);
    TriplesBytesConcat(ts[..i + 1], ts[i + 1..]);
    assert ts == ts[..i + 1] + ts[i + 1..];
  }

  /** zcbor_multi_encode_minmax(1, 256, ...): the samples one after the other, up to the first refusal. */
  method EncodeTriples(state: ZcborState, ts: seq<Triple>) returns (ok: bool)
    requires state.Valid()
    modifies state, state.buf
    ensures state.Valid()
    ensures ok <==>
      && 1 <= |ts| <= MAX_QTY && (forall t :: t in ts ==> t.InRange())
      && old(state.pos) + |TriplesBytes(ts)| <= state.capacity
    ensures ok ==>
      && state.Written() == old(state.Written()) + TriplesBytes(ts)
      && state.elemCount == old(state.elemCount) + |ts| && state.backups == old(state.backups)
  {
    hide TripleBytes, TriplesBytes, Triple.InRange;
    if |ts| < 1 || |ts| > MAX_QTY { return false; }
    ghost var before := state.Written();
    assert TriplesBytes(ts[..0]) == [] by { NoTriples(); assert ts[..0] == []; }
    for i := 0 to |ts|
      invariant state.Valid()
      invariant forall t :: t in ts[..i] ==> t.InRange()
      invariant state.Written() == before + TriplesBytes(ts[..i])
      invariant state.elemCount == old(state.elemCount) + i && state.backups == old(state.backups)
    {
      TriplesPrefix(ts, i);
      assert ts[i] in ts;
      ok := EncodeRepeatedMsgXyz(state, ts[i]);
      if !ok { return; }
    }
    assert ts[..|ts|] == ts;
    ok := true;
  }

  lemma NoTriples()
    ensures TriplesBytes([]) == []
  {
  }

  /** The room the encoder needs: its dummy outer head takes three bytes until it is rewritten. */
  function Needs(m: Msg): nat {
    |Head(ARRAY, MAX_QTY + 1)| + |HeaderBytes(m.header)| + |TriplesBytes(m.xyz)|
  }

  lemma TwoItems(head: seq<byte>, a: seq<byte>, b: seq<byte>)
    ensures var all := [] + head + a + b; all[..0] == [] && all[|head|..] == a + b
    ensures forall front: seq<byte> :: [] + front + (a + b) == front + (a + b)
  {
  }

  /** encode_msg: the whole message, with the head of the outer array fixed up at the end. */
  method EncodeMsg(state: ZcborState, input: Msg) returns (ok: bool)
    requires state.Valid() && state.pos == 0 && state.backups == []
    modifies state, state.buf
    ensures state.Valid()
    ensures ok <==> input.Encodable() && Needs(input) <= state.capacity
    ensures ok ==> state.Written() == MsgBytes(input)
  {
    hide Head, HeaderBytes, TriplesBytes, Msg.Valid, Triple.InRange;
    assert state.Written() == [];
    ghost var head, header, body := Head(ARRAY, MAX_QTY + 1), HeaderBytes(input.header), TriplesBytes(input.xyz);
    ok := state.ListStart(MAX_QTY + 1);
    if !ok { return; }
    ok := EncodeHeader(state, input.header);
    if !ok { return; }
    ok := EncodeTriples(state, input.xyz);
    if !ok { return; }
    TwoItems(head, header, body);
    ok := state.ListEnd(MAX_QTY + 1);
  }

  /** cbor_encode_msg: into the caller's buffer, with the length on success. */
  method CborEncodeMsg(payload: array<byte>, payloadLen: nat, input: Msg) returns (ok: bool, length: nat)
    requires payloadLen <= payload.Length
    modifies payload
    ensures ok <==> input.Encodable() && Needs(input) <= payloadLen
    ensures ok ==> length <= payloadLen && payload[..length] == MsgBytes(input)
  {
    var state := new ZcborState(payload, payloadLen);
    ok := EncodeMsg(state, input);
    length := state.pos;
  }
}
