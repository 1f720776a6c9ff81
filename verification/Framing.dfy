// Wire packets: a three-byte length, a sequence number and a payload. A logical packet of
// MAX_PACKET_LEN bytes or more is spread over several wire packets, all full but the last.
module Framing {
  import opened Binary

  const MAX_PACKET_LEN: nat := 0xFFFFFF

  datatype ReadError =
    | ConnectionLost
    | BadSequence(got: Byte, expected: Byte)
    | ServerError(payload: Bytes)
    | MalformedRow
    | MalformedEnd

  // What reading from a stream yields: a value, the bytes after it and the next sequence number.
  datatype Reading<+T> =
    | Done(value: T, rest: Bytes, seqId: Byte)
    | Failed(error: ReadError)

  function NextSeq(seqId: Byte): Byte {
    (seqId + 1) % 256
  }

  // ---- the sending side, as the protocol documents it ----

  datatype WirePacket = WirePacket(seqId: Byte, payload: Bytes)

  // The wire packets of one logical packet.
  function Wires(payload: Bytes, seqId: Byte): (ws: seq<WirePacket>)
    ensures |ws| >= 1
    decreases |payload|
  {
    if |payload| < MAX_PACKET_LEN then [WirePacket(seqId, payload)]
    else [WirePacket(seqId, payload[..MAX_PACKET_LEN])] + Wires(payload[MAX_PACKET_LEN..], NextSeq(seqId))
  }

  function Frame(w: WirePacket): Bytes {
    LittleEndian(|w.payload|, 3) + [w.seqId] + w.payload
  }

  function Frames(ws: seq<WirePacket>): Bytes {
    if ws == [] then [] else Frame(ws[0]) + Frames(ws[1..])
  }

  function Encode(payload: Bytes, seqId: Byte): Bytes {
    Frames(Wires(payload, seqId))
  }

  // The sequence number that follows a logical packet.
  function SeqAfter(payload: Bytes, seqId: Byte): Byte {
    (seqId + |Wires(payload, seqId)|) % 256
  }

  function Payloads(ws: seq<WirePacket>): Bytes {
    if ws == [] then [] else ws[0].payload + Payloads(ws[1..])
  }

  lemma SeqStep(seqId: Byte, i: nat)
    ensures (NextSeq(seqId) + i) % 256 == (seqId + (i + 1)) % 256
  {
  }

  // Wire packets are numbered consecutively modulo 256; every one is full except the last, which
  // is shorter and may be empty.
  lemma {:induction false} WireAt(payload: Bytes, seqId: Byte, i: nat)
    requires i < |Wires(payload, seqId)|
    ensures Wires(payload, seqId)[i].seqId == (seqId + i) % 256
    ensures i < |Wires(payload, seqId)| - 1 ==> |Wires(payload, seqId)[i].payload| == MAX_PACKET_LEN
    ensures i == |Wires(payload, seqId)| - 1 ==> |Wires(payload, seqId)[i].payload| < MAX_PACKET_LEN
    decreases |payload|
  {
    if |payload| >= MAX_PACKET_LEN && i > 0 {
      WireAt(payload[MAX_PACKET_LEN..], NextSeq(seqId), i - 1);
      SeqStep(seqId, i - 1);
    }
  }

  // Together the wire packets carry the payload, in order.
  lemma {:induction false} WiresCarryPayload(payload: Bytes, seqId: Byte)
    ensures Payloads(Wires(payload, seqId)) == payload
    decreases |payload|
  {
    var ws := Wires(payload, seqId);
    if |payload| < MAX_PACKET_LEN {
      assert ws[1..] == [];
    } else {
      assert ws[1..] == Wires(payload[MAX_PACKET_LEN..], NextSeq(seqId));
      WiresCarryPayload(payload[MAX_PACKET_LEN..], NextSeq(seqId));
    }
  }

  lemma {:induction false} WiresCount(payload: Bytes, seqId: Byte)
    ensures |Wires(payload, seqId)| == |payload| / MAX_PACKET_LEN + 1
    decreases |payload|
  {
    if |payload| >= MAX_PACKET_LEN {
      WiresCount(payload[MAX_PACKET_LEN..], NextSeq(seqId));
    }
  }

  // ---- the receiving side: the reassembly loop of read_packet ----

  function PayloadLength(s: Bytes): nat
    requires |s| >= 4
  {
    s[0] as int + 256 * s[1] as int + 65536 * s[2] as int
  }

  // One wire packet from the front of a stream that ends when the server closes it.
  function ReadWire(s: Bytes, seqId: Byte): Reading<Bytes> {
    if |s| < 4 then Failed(ConnectionLost)
    else if s[3] != seqId then Failed(if s[3] == 0 then ConnectionLost else BadSequence(s[3], seqId))
    else
      var n := PayloadLength(s);
      if |s| - 4 < n then Failed(ConnectionLost)
      else Done(s[4..4 + n], s[4 + n..], NextSeq(seqId))
  }

  function PrependPayload(front: Bytes, r: Reading<Bytes>): Reading<Bytes> {
    match r
    case Done(p, rest, next) => Done(front + p, rest, next)
    case Failed(e) => Failed(e)
  }

  // One logical packet: wire packets up to the first that is not full.
  function ReadLogical(s: Bytes, seqId: Byte): Reading<Bytes>
    decreases |s|
  {
    match ReadWire(s, seqId)
    case Failed(e) => Failed(e)
    case Done(p, rest, next) =>
      if |p| < MAX_PACKET_LEN then Done(p, rest, next)
      else PrependPayload(p, ReadLogical(rest, next))
  }

  predicate IsErrorPacket(p: Bytes) {
    |p| > 0 && p[0] == 0xFF
  }

  // A server error packet is raised instead of returned.
  function ReadPacket(s: Bytes, seqId: Byte): Reading<Bytes> {
    match ReadLogical(s, seqId)
    case Failed(e) => Failed(e)
    case Done(p, rest, next) => if IsErrorPacket(p) then Failed(ServerError(p)) else Done(p, rest, next)
  }

  lemma ReadConsumes(s: Bytes, seqId: Byte)
    ensures var r := ReadLogical(s, seqId); r.Done? ==> |r.rest| + 4 <= |s|
    decreases |s|
  {
    var w := ReadWire(s, seqId);
    if w.Done? {
      ReadConsumes(w.rest, w.seqId);
    }
  }

  lemma HeaderBytes(n: nat)
    requires n <= MAX_PACKET_LEN
    ensures LittleEndian(n, 3) == [n % 256, n / 256 % 256, n / 65536 % 256]
    ensures n % 256 + 256 * (n / 256 % 256) + 65536 * (n / 65536 % 256) == n
  {
    ThreeBytes(n);
  }

  lemma FourthByteZero(n: nat)
    requires n <= MAX_PACKET_LEN
    ensures LittleEndian(n, 4) == LittleEndian(n, 3) + [0]
  {
    ThreeBytes(n);
    ThreeBytes(n / 256);
    assert LittleEndian(n, 4) == [n % 256] + LittleEndian(n / 256, 3);
  }

  lemma ThreeBytes(n: nat)
    ensures LittleEndian(n, 3) == [n % 256, n / 256 % 256, n / 65536 % 256]
  {
    assert LittleEndian(n, 3) == [n % 256] + LittleEndian(n / 256, 2);
    assert LittleEndian(n / 256, 2) == [n / 256 % 256] + LittleEndian(n / 256 / 256, 1);
    assert LittleEndian(n / 65536, 1) == [n / 65536 % 256] + LittleEndian(n / 65536 / 256, 0);
  }

  // Reading the first frame of a stream.
  lemma FrameFields(w: WirePacket, rest: Bytes)
    requires |w.payload| <= MAX_PACKET_LEN
    ensures var s := Frame(w) + rest;
            ReadWire(s, w.seqId) == Done(w.payload, rest, NextSeq(w.seqId))
  {
    HeaderBytes(|w.payload|);
    var s := Frame(w) + rest;
    assert s == LittleEndian(|w.payload|, 3) + ([w.seqId] + w.payload + rest);
    assert s[4..4 + |w.payload|] == w.payload && s[4 + |w.payload|..] == rest;
  }

  lemma ReadFullWire(w: WirePacket, rest: Bytes)
    requires |w.payload| == MAX_PACKET_LEN
    ensures ReadLogical(Frame(w) + rest, w.seqId) == PrependPayload(w.payload, ReadLogical(rest, NextSeq(w.seqId)))
  {
    FrameFields(w, rest);
  }

  lemma ReadShortWire(w: WirePacket, rest: Bytes)
    requires |w.payload| < MAX_PACKET_LEN
    ensures ReadLogical(Frame(w) + rest, w.seqId) == Done(w.payload, rest, NextSeq(w.seqId))
  {
    FrameFields(w, rest);
  }

  lemma EncodeShort(payload: Bytes, seqId: Byte)
    requires |payload| < MAX_PACKET_LEN
    ensures Encode(payload, seqId) == Frame(WirePacket(seqId, payload))
    ensures SeqAfter(payload, seqId) == NextSeq(seqId)
  {
    var w := WirePacket(seqId, payload);
    assert Frames([w]) == Frame(w) + Frames([]);
    assert Frame(w) + [] == Frame(w);
  }

  lemma EncodeLong(payload: Bytes, seqId: Byte)
    requires |payload| >= MAX_PACKET_LEN
    ensures Encode(payload, seqId)
         == Frame(WirePacket(seqId, payload[..MAX_PACKET_LEN])) + Encode(payload[MAX_PACKET_LEN..], NextSeq(seqId))
    ensures SeqAfter(payload, seqId) == SeqAfter(payload[MAX_PACKET_LEN..], NextSeq(seqId))
  {
    hide Frame;
    var ws := Wires(payload, seqId);
    assert ws[1..] == Wires(payload[MAX_PACKET_LEN..], NextSeq(seqId));
    SeqStep(seqId, |ws| - 1);
  }

  // The reassembly loop undoes the splitting, leaving the stream and the sequence number just
  // past the packet, whatever follows it.
  lemma {:induction false} ReadEncoded(payload: Bytes, seqId: Byte, rest: Bytes)
    ensures ReadLogical(Encode(payload, seqId) + rest, seqId) == Done(payload, rest, SeqAfter(payload, seqId))
    decreases |payload|
  {
    hide ReadLogical, Frame, Encode, SeqAfter;
    if |payload| < MAX_PACKET_LEN {
      EncodeShort(payload, seqId);
      ReadShortWire(WirePacket(seqId, payload), rest);
    } else {
      var more := payload[MAX_PACKET_LEN..];
      var w := WirePacket(seqId, payload[..MAX_PACKET_LEN]);
      EncodeLong(payload, seqId);
      assert Frame(w) + Encode(more, NextSeq(seqId)) + rest == Frame(w) + (Encode(more, NextSeq(seqId)) + rest);
      ReadFullWire(w, Encode(more, NextSeq(seqId)) + rest);
      ReadEncoded(more, NextSeq(seqId), rest);
      assert payload[..MAX_PACKET_LEN] + more == payload;
    }
  }

  // A packet that begins with the byte 255 is the server's error and is raised; any other is returned.
  lemma ErrorsAreRaised(payload: Bytes, seqId: Byte, rest: Bytes)
    ensures ReadPacket(Encode(payload, seqId) + rest, seqId)
         == if payload != [] && payload[0] == 255 then Failed(ServerError(payload))
            else Done(payload, rest, SeqAfter(payload, seqId))
  {
    hide ReadLogical, Encode;
    ReadEncoded(payload, seqId, rest);
  }

  // A stream that ends inside a packet, however far into it, has lost the connection.
  lemma {:induction false} CutOff(payload: Bytes, seqId: Byte, k: nat)
    requires k < |Encode(payload, seqId)|
    ensures ReadLogical(Encode(payload, seqId)[..k], seqId) == Failed(ConnectionLost)
    decreases |payload|
  {
    hide ReadLogical, Frame, Encode, SeqAfter;
    var s := Encode(payload, seqId)[..k];
    if |payload| < MAX_PACKET_LEN {
      EncodeShort(payload, seqId);
      FrameCutOff(WirePacket(seqId, payload), k);
    } else {
      var more := payload[MAX_PACKET_LEN..];
      var w := WirePacket(seqId, payload[..MAX_PACKET_LEN]);
      EncodeLong(payload, seqId);
      if k < |Frame(w)| {
        assert s == Frame(w)[..k];
        FrameCutOff(w, k);
      } else {
        var tail := Encode(more, NextSeq(seqId))[..k - |Frame(w)|];
        assert s == Frame(w) + tail;
        ReadFullWire(w, tail);
        CutOff(more, NextSeq(seqId), k - |Frame(w)|);
      }
    }
  }

  lemma FrameCutOff(w: WirePacket, k: nat)
    requires |w.payload| <= MAX_PACKET_LEN && k < |Frame(w)|
    ensures ReadLogical(Frame(w)[..k], w.seqId) == Failed(ConnectionLost)
  {
    HeaderBytes(|w.payload|);
    assert k >= 4 ==> PayloadLength(Frame(w)[..k]) == |w.payload|;
  }

  // A packet with another sequence number than the expected one is not returned; number 0 means that
  // the server gave up the connection.
  lemma OutOfSequence(payload: Bytes, got: Byte, expected: Byte, rest: Bytes)
    requires got != expected
    ensures ReadLogical(Encode(payload, got) + rest, expected)
         == Failed(if got == 0 then ConnectionLost else BadSequence(got, expected))
  {
    var w := Wires(payload, got)[0];
    assert w.seqId == got && |w.payload| <= MAX_PACKET_LEN;
    HeaderBytes(|w.payload|);
    var s := Encode(payload, got) + rest;
    assert Encode(payload, got) == Frame(w) + Frames(Wires(payload, got)[1..]);
    assert s[3] == got;
  }

  // A command is sent as the logical packet made of its command byte and its body; the server's
  // reassembly returns exactly those.
  lemma CommandRoundTrip(command: Byte, body: Bytes, rest: Bytes)
    ensures ReadLogical(Encode([command] + body, 0) + rest, 0)
         == Done([command] + body, rest, ((|body| + 1) / MAX_PACKET_LEN + 1) % 256)
  {
    ReadEncoded([command] + body, 0, rest);
    WiresCount([command] + body, 0);
  }
}
