// The receive buffer, the connection that reads and writes packets through it, and the bulk loops.
module Receive {
  import opened Binary
  import opened Framing
  import opened ResultSets

  const READ_CHUNK_SIZE: nat := 0x4_0000
  const SLACK: nat := 4096

  datatype Outcome<+T> = Ok(value: T) | Raised(error: ReadError)

  function Max(a: nat, b: nat): nat {
    if a < b then b else a
  }

  // The receive side of the transport. `buffer[pos..length]` is what has arrived and is not yet
  // consumed; `incoming` is what the server is still going to deliver before it closes the stream.
  class Protocol {
    var buffer: array<Byte>
    var length: nat
    var pos: nat
    var incoming: Bytes
    // The largest amount of unconsumed bytes the buffer has held so far.
    ghost var peak: nat
    // Whether the event loop never hints at more than the buffer already holds.
    const hintsFit: bool

    // Twice what was needed at most: the buffer only grows when less than 4096 bytes are left in it.
    ghost predicate Bounded()
      reads this, buffer
    {
      buffer.Length <= 0x4_0000 || buffer.Length <= 2 * (peak + 4096)
    }

    ghost predicate Valid()
      reads this, buffer
    {
      && pos <= length <= buffer.Length
      && buffer.Length >= READ_CHUNK_SIZE
      && length - pos <= peak
      && (hintsFit ==> Bounded())
    }

    ghost function Unread(): Bytes
      requires Valid()
      reads this, buffer
    {
      buffer[pos..length]
    }

    // All bytes a reader will ever get, however they are cut into deliveries.
    ghost function Stream(): Bytes
      requires Valid()
      reads this, buffer
    {
      Unread() + incoming
    }

    constructor (incoming: Bytes, hintsFit: bool)
      ensures Valid() && Bounded() && fresh(buffer) && this.hintsFit == hintsFit
      ensures Stream() == incoming
    {
      this.hintsFit := hintsFit;
      buffer := new Byte[READ_CHUNK_SIZE](_ => 0);
      length, pos := 0, 0;
      this.incoming := incoming;
      peak := 0;
    }

    // Copies the next n unconsumed bytes and moves past them.
    method Take(n: nat) returns (data: Bytes)
      requires Valid() && n <= length - pos
      modifies this`pos
      ensures Valid()
      ensures data == old(Stream())[..n] && Stream() == old(Stream())[n..]
    {
      data := buffer[pos..pos + n];
      pos := pos + n;
    }

    // The consumed prefix goes.
    method Compact()
      requires Valid()
      modifies this`length, this`pos, buffer
      ensures Valid() && pos == 0 && Unread() == old(Unread()) && length == |Unread()|
      ensures old(pos) == 0 ==> buffer[..] == old(buffer[..])
    {
      if pos != 0 {
        if length > pos {
          forall i | 0 <= i < length - pos {
            buffer[i] := buffer[pos + i];
          }
        }
        length := length - pos;
        pos := 0;
      }
    }

    // Makes room for a delivery: compacts the consumed prefix, then shrinks an oversized empty
    // buffer or grows a nearly full one.
    method GetBuffer(sizehint: int) returns (offset: nat)
      requires Valid() && (hintsFit ==> sizehint <= buffer.Length)
      modifies this`buffer, this`length, this`pos, buffer
      ensures Valid()
      ensures buffer == old(buffer) || fresh(buffer)
      ensures Unread() == old(Unread())
      ensures pos == 0 || (old(pos) == 0 && length == old(length))
      ensures offset == length && buffer.Length - offset >= 4096
      ensures sizehint <= old(buffer.Length) && old(Bounded()) ==> Bounded()
      ensures buffer.Length
           == if Unread() == [] && old(buffer.Length) > 0x10_0000 then 0x4_0000
              else if old(buffer.Length) - |Unread()| >= 4096 then old(buffer.Length)
              else old(buffer.Length) + if sizehint > old(buffer.Length) then sizehint else old(buffer.Length)
    {
      ghost var unread := Unread();
      Compact();
      assert buffer[..length] == unread;
      if length == 0 && buffer.Length > 4 * READ_CHUNK_SIZE {
        buffer := new Byte[READ_CHUNK_SIZE](_ => 0);
      } else if buffer.Length - length < SLACK {
        var grow := buffer.Length;
        if sizehint > 0 && sizehint > grow {
          grow := sizehint;
        }
        var bigger := new Byte[buffer.Length + grow](_ => 0);
        forall i | 0 <= i < buffer.Length {
          bigger[i] := buffer[i];
        }
        buffer := bigger;
      }
      assert buffer[..length] == unread;
      offset := length;
    }

    // One delivery by the event loop: any hint, and any non-empty part of what is outstanding that
    // fits into the buffer offered.
    method Deliver()
      requires Valid() && incoming != []
      modifies this, buffer
      ensures Valid()
      ensures buffer == old(buffer) || fresh(buffer)
      ensures Stream() == old(Stream())
      ensures |incoming| < |old(incoming)|
    {
      var sizehint: int := *;
      if hintsFit && sizehint > buffer.Length {
        sizehint := -1;
      }
      var offset := GetBuffer(sizehint);
      var n :| 1 <= n <= |incoming| && n <= buffer.Length - offset;
      BufferUpdated(offset, n);
    }

    // n of the outstanding bytes have been written into the buffer from offset on.
    method BufferUpdated(offset: nat, n: nat)
      requires Valid() && offset == length && 1 <= n <= |incoming| && n <= buffer.Length - offset
      modifies this`length, this`peak, this`incoming, buffer
      ensures Valid() && Stream() == old(Stream()) && |incoming| < |old(incoming)|
    {
      ghost var unread := Unread();
      forall i | 0 <= i < n {
        buffer[offset + i] := incoming[i];
      }
      length := length + n;
      peak := Max(peak, length - pos);
      assert buffer[pos..offset] == unread && buffer[offset..offset + n] == incoming[..n];
      assert buffer[pos..length] == buffer[pos..offset] + buffer[offset..offset + n];
      assert unread + incoming == (unread + incoming[..n]) + incoming[n..];
      incoming := incoming[n..];
    }

    // Suspends until at least one delivery has happened; there may be more.
    method WaitForData()
      requires Valid() && incoming != []
      modifies this, buffer
      ensures Valid()
      ensures buffer == old(buffer) || fresh(buffer)
      ensures Stream() == old(Stream())
      ensures |incoming| < |old(incoming)|
    {
      Deliver();
      var more: nat := *;
      while more > 0 && incoming != []
        invariant Valid() && Stream() == old(Stream())
        invariant buffer == old(buffer) || fresh(buffer)
        invariant |incoming| < |old(incoming)|
      {
        Deliver();
        more := more - 1;
      }
    }
  }

  // ---- the bulk loops over the receive buffer ----

  // Of what a bulk loop yields in all, `taken` rows and n bytes are done and k is to come.
  ghost predicate Continues<R>(whole: Bulk<R>, taken: seq<R>, n: nat, k: Bulk<R>) {
    whole == Bulk(taken + k.rows, n + k.consumed, k.seqId, k.ok)
  }

  lemma ContinuesFromStart<R>(whole: Bulk<R>)
    ensures Continues(whole, [], 0, whole)
  {
    assert [] + whole.rows == whole.rows;
  }

  lemma ContinuesStep<R>(whole: Bulk<R>, taken: seq<R>, n: nat, row: R, m: nat, k: Bulk<R>)
    requires Continues(whole, taken, n, BulkAfter(row, m, k))
    ensures Continues(whole, taken + [row], n + m, k)
  {
    assert taken + ([row] + k.rows) == taken + [row] + k.rows;
  }

  lemma ContinuesEnd<R>(whole: Bulk<R>, taken: seq<R>, n: nat, k: Bulk<R>)
    requires Continues(whole, taken, n, k)
    ensures whole.ok == k.ok && whole.seqId == k.seqId && whole.consumed == n + k.consumed
    ensures k.rows == [] ==> whole.rows == taken
  {
    assert taken + [] == taken;
  }

  // Parses every complete row packet in buf[pos..bufLen], appending to rows; ok is false when a
  // row does not parse, in which case the caller gets an exception and nothing else.
  method ParseRowsFromBuffer<R>(buf: array<Byte>, pos: nat, bufLen: nat, parse: Bytes -> Option<R>, seqId: Byte,
                                rows: seq<R>, deprecateEof: bool)
    returns (newPos: nat, newSeqId: Byte, all: seq<R>, ok: bool)
    requires pos <= bufLen <= buf.Length
    ensures var k := BulkRows(buf[pos..bufLen], seqId, deprecateEof, parse);
            && ok == k.ok
            && (ok ==> newPos == pos + k.consumed && newSeqId == k.seqId && all == rows + k.rows)
    ensures pos <= newPos <= bufLen
  {
    hide BulkRows, PayloadLength, HeaderLength, Continues;
    newPos, newSeqId, all, ok := pos, seqId, rows, true;
    ghost var whole := BulkRows(buf[pos..bufLen], seqId, deprecateEof, parse);
    ghost var taken: seq<R> := [];
    assert rows + taken == rows;
    ContinuesFromStart(whole);
    while bufLen - newPos >= 4
      invariant pos <= newPos <= bufLen && all == rows + taken && ok
      invariant Continues(whole, taken, newPos - pos, BulkRows(buf[newPos..bufLen], newSeqId, deprecateEof, parse))
      decreases bufLen - newPos
    {
      ghost var b := buf[newPos..bufLen];
      var payloadLen := HeaderLength(buf, newPos);
      HeaderOf(buf, newPos, bufLen, []);
      assert b + [] == b;
      if buf[newPos + 3] != newSeqId {
        break;
      }
      if payloadLen == 0 || payloadLen == MAX_PACKET_LEN {
        break;
      }
      if bufLen - newPos - 4 < payloadLen {
        break;
      }
      var first := buf[newPos + 4];
      if first == 0xFF {
        break;
      }
      if first == 0xFE && (deprecateEof || payloadLen < 9) {
        break;
      }
      BulkStep(b, newSeqId, deprecateEof, parse);
      assert buf[newPos + 4..newPos + 4 + payloadLen] == FastPayload(b);
      var row := parse(buf[newPos + 4..newPos + 4 + payloadLen]);
      if row.None? {
        ok := false;
        ContinuesEnd(whole, taken, newPos - pos, BulkRows(b, newSeqId, deprecateEof, parse));
        return;
      }
      assert b[4 + payloadLen..] == buf[newPos + 4 + payloadLen..bufLen];
      ContinuesStep(whole, taken, newPos - pos, row.value, 4 + payloadLen,
                    BulkRows(b[4 + payloadLen..], NextSeq(newSeqId), deprecateEof, parse));
      all, taken := all + [row.value], taken + [row.value];
      newPos := newPos + 4 + payloadLen;
      newSeqId := (newSeqId + 1) % 256;
    }
    BulkStops(buf[newPos..bufLen], newSeqId, deprecateEof, parse);
    ContinuesEnd(whole, taken, newPos - pos, BulkRows(buf[newPos..bufLen], newSeqId, deprecateEof, parse));
  }

  // The length announced by the packet header at pos.
  function HeaderLength(buf: array<Byte>, pos: nat): nat
    requires pos + 4 <= buf.Length
    reads buf
  {
    buf[pos] as int + 256 * buf[pos + 1] as int + 65536 * buf[pos + 2] as int
  }

  // Skips up to count complete packets in buf[pos..bufLen].
  method SkipPacketsFromBuffer(buf: array<Byte>, pos: nat, bufLen: nat, seqId: Byte, count: nat)
    returns (newPos: nat, newSeqId: Byte, skipped: nat)
    requires pos <= bufLen <= buf.Length
    ensures var k := BulkSkip(buf[pos..bufLen], seqId, count);
            newPos == pos + k.consumed && newSeqId == k.seqId && skipped == k.count
  {
    hide BulkSkip, PayloadLength, HeaderLength;
    newPos, newSeqId, skipped := pos, seqId, 0;
    ghost var whole := BulkSkip(buf[pos..bufLen], seqId, count);
    while skipped < count && bufLen - newPos >= 4
      invariant pos <= newPos <= bufLen && skipped <= count
      invariant var k := BulkSkip(buf[newPos..bufLen], newSeqId, count - skipped);
                whole == Skipped(skipped + k.count, newPos - pos + k.consumed, k.seqId)
      decreases bufLen - newPos
    {
      ghost var b := buf[newPos..bufLen];
      var payloadLen := HeaderLength(buf, newPos);
      HeaderOf(buf, newPos, bufLen, []);
      assert b + [] == b;
      if buf[newPos + 3] != newSeqId {
        break;
      }
      if payloadLen == MAX_PACKET_LEN {
        break;
      }
      if bufLen - newPos - 4 < payloadLen {
        break;
      }
      if payloadLen != 0 && buf[newPos + 4] == 0xFF {
        break;
      }
      BulkSkipStep(b, newSeqId, count - skipped);
      assert b[4 + payloadLen..] == buf[newPos + 4 + payloadLen..bufLen];
      newPos := newPos + 4 + payloadLen;
      newSeqId := (newSeqId + 1) % 256;
      skipped := skipped + 1;
    }
    BulkSkipStops(buf[newPos..bufLen], newSeqId, count - skipped);
  }

  function Join(parts: seq<Bytes>): Bytes {
    if parts == [] then [] else Join(parts[..|parts| - 1]) + parts[|parts| - 1]
  }

  class Connection {
    const proto: Protocol
    var nextSeqId: Byte
    var connected: bool
    // Everything handed to the transport so far.
    var sent: Bytes

    ghost predicate Valid()
      reads this, proto, proto.buffer
    {
      proto.Valid()
    }

    ghost function Stream(): Bytes
      requires Valid()
      reads this, proto, proto.buffer
    {
      proto.Stream()
    }

    constructor (proto: Protocol)
      requires proto.Valid()
      ensures Valid() && this.proto == proto && nextSeqId == 0 && connected && sent == []
    {
      this.proto := proto;
      nextSeqId, connected, sent := 0, true, [];
    }

    // Suspends until `need` unconsumed bytes are buffered; false when the stream ends before.
    method FillBuffer(need: nat) returns (ok: bool)
      requires Valid()
      modifies proto, proto.buffer
      ensures Valid()
      ensures proto.buffer == old(proto.buffer) || fresh(proto.buffer)
      ensures Stream() == old(Stream())
      ensures ok <==> |Stream()| >= need
      ensures ok ==> proto.length - proto.pos >= need
    {
      while proto.length - proto.pos < need
        invariant Valid() && Stream() == old(Stream())
        invariant proto.buffer == old(proto.buffer) || fresh(proto.buffer)
        decreases |proto.incoming|
      {
        if proto.incoming == [] {
          return false;
        }
        proto.WaitForData();
      }
      return true;
    }

    // Waits only if there is less in the buffer.
    method Require(need: nat) returns (ok: bool)
      requires Valid()
      modifies proto, proto.buffer
      ensures Valid() && Stream() == old(Stream())
      ensures proto.buffer == old(proto.buffer) || fresh(proto.buffer)
      ensures ok <==> |Stream()| >= need
      ensures ok ==> proto.length - proto.pos >= need
    {
      ok := true;
      if proto.length - proto.pos < need {
        ok := FillBuffer(need);
      }
    }

    // One turn of the packet loop: a header, then the payload it announces.
    method ReadWirePacket() returns (result: Outcome<Bytes>)
      requires Valid()
      modifies this`nextSeqId, proto, proto.buffer
      ensures Valid()
      ensures proto.buffer == old(proto.buffer) || fresh(proto.buffer)
      ensures match ReadWire(old(Stream()), old(nextSeqId))
              case Done(p, rest, next) => result == Ok(p) && Stream() == rest && nextSeqId == next
              case Failed(e) => result == Raised(e)
    {
      hide PayloadLength, HeaderLength, ReadWire;
      ReadWireCases(Stream(), nextSeqId);
      var ok := Require(4);
      if !ok {
        return Raised(ConnectionLost);
      }
      ghost var s := Stream();
      var bytesToRead := HeaderLength(proto.buffer, proto.pos);
      var packetNumber := proto.buffer[proto.pos + 3];
      HeaderOf(proto.buffer, proto.pos, proto.length, proto.incoming);
      var header := proto.Take(4);
      if packetNumber != nextSeqId {
        return Raised(if packetNumber == 0 then ConnectionLost else BadSequence(packetNumber, nextSeqId));
      }
      nextSeqId := (nextSeqId + 1) % 256;
      ok := Require(bytesToRead);
      if !ok {
        return Raised(ConnectionLost);
      }
      var received := proto.Take(bytesToRead);
      return Ok(received);
    }

    // Reads one logical packet, whatever way its bytes arrive.
    method ReadPacket() returns (result: Outcome<Bytes>)
      requires Valid()
      modifies this`nextSeqId, proto, proto.buffer
      ensures Valid()
      ensures proto.buffer == old(proto.buffer) || fresh(proto.buffer)
      ensures match Framing.ReadPacket(old(Stream()), old(nextSeqId))
              case Done(p, rest, next) => result == Ok(p) && Stream() == rest && nextSeqId == next
              case Failed(e) => result == Raised(e)
    {
      hide ReadWire;
      var parts: seq<Bytes> := [];
      var received: Bytes := [];
      ghost var whole := ReadLogical(Stream(), nextSeqId);
      PrependEmpty(whole);
      while true
        invariant Valid()
        invariant proto.buffer == old(proto.buffer) || fresh(proto.buffer)
        invariant whole == PrependPayload(Join(parts), ReadLogical(Stream(), nextSeqId))
        decreases |Stream()|
      {
        WireConsumes(Stream(), nextSeqId);
        var wire := ReadWirePacket();
        if wire.Raised? {
          return wire;
        }
        received := wire.value;
        if |received| < MAX_PACKET_LEN && parts == [] {
          assert [] + received == received;
          break;
        }
        ghost var front := Join(parts);
        parts := parts + [received];
        assert parts[..|parts| - 1] + [received] == parts;
        if |received| < MAX_PACKET_LEN {
          received := Join(parts);
          break;
        }
        PrependPayloadTwice(front, received, ReadLogical(Stream(), nextSeqId));
      }
      if IsErrorPacket(received) {
        return Raised(ServerError(received));
      }
      return Ok(received);
    }

    method WritePacket(payload: Bytes)
      modifies this`sent, this`nextSeqId
      ensures sent == old(sent) + Frame(WirePacket(old(nextSeqId), payload))
      ensures nextSeqId == NextSeq(old(nextSeqId))
    {
      var header := LittleEndian(|payload|, 3) + [nextSeqId];
      if |payload| < 8192 {
        sent := sent + (header + payload);
      } else {
        sent := sent + header;
        sent := sent + payload;
      }
      assert sent == old(sent) + (header + payload);
      nextSeqId := (nextSeqId + 1) % 256;
    }

    // Sends a command as one logical packet numbered from 0; false when not connected.
    method ExecuteCommand(command: Byte, body: Bytes) returns (ok: bool)
      modifies this`sent, this`nextSeqId
      ensures ok == connected
      ensures !ok ==> sent == old(sent) && nextSeqId == old(nextSeqId)
      ensures ok ==> sent == old(sent) + Encode([command] + body, 0)
      ensures ok ==> nextSeqId == SeqAfter([command] + body, 0)
    {
      hide Encode, SeqAfter, Frame;
      if !connected {
        return false;
      }
      var packetSize := if MAX_PACKET_LEN < |body| + 1 then MAX_PACKET_LEN else |body| + 1;
      var prelude := LittleEndian(packetSize, 4) + [command];
      var chunk := body[..packetSize - 1];
      if packetSize < 8192 {
        sent := sent + (prelude + chunk);
      } else {
        sent := sent + prelude;
        sent := sent + chunk;
      }
      nextSeqId := 1;
      ghost var payload := [command] + body;
      assert payload[..packetSize] == [command] + chunk;
      FirstFrame(command, chunk);
      assert sent == old(sent) + (prelude + chunk);
      if packetSize < MAX_PACKET_LEN {
        assert payload[..packetSize] == payload;
        EncodeShort(payload, 0);
        return true;
      }
      EncodeLong(payload, 0);
      assert body[packetSize - 1..] == payload[MAX_PACKET_LEN..];
      WriteRemainder(body[packetSize - 1..]);
      return true;
    }

    // The packets that follow a full first one: full ones, then one that is not full.
    method WriteRemainder(body: Bytes)
      modifies this`sent, this`nextSeqId
      ensures sent == old(sent) + Encode(body, old(nextSeqId))
      ensures nextSeqId == SeqAfter(body, old(nextSeqId))
    {
      hide Encode, SeqAfter, Frame;
      var sql := body;
      while true
        invariant old(sent) + Encode(body, old(nextSeqId)) == sent + Encode(sql, nextSeqId)
        invariant SeqAfter(body, old(nextSeqId)) == SeqAfter(sql, nextSeqId)
        decreases |sql|
      {
        var packetSize := if MAX_PACKET_LEN < |sql| then MAX_PACKET_LEN else |sql|;
        ghost var seqId := nextSeqId;
        if packetSize < MAX_PACKET_LEN {
          assert sql[..packetSize] == sql;
          EncodeShort(sql, seqId);
        } else {
          EncodeLong(sql, seqId);
        }
        WritePacket(sql[..packetSize]);
        sql := sql[packetSize..];
        if sql == [] && packetSize < MAX_PACKET_LEN {
          break;
        }
      }
    }
  }

  lemma PrependEmpty(r: Reading<Bytes>)
    ensures PrependPayload([], r) == r
  {
    if r.Done? {
      assert [] + r.value == r.value;
    }
  }

  lemma PrependPayloadTwice(a: Bytes, b: Bytes, r: Reading<Bytes>)
    ensures PrependPayload(a, PrependPayload(b, r)) == PrependPayload(a + b, r)
  {
    if r.Done? {
      assert a + (b + r.value) == a + b + r.value;
    }
  }

  lemma HeaderOf(buf: array<Byte>, pos: nat, length: nat, incoming: Bytes)
    requires pos + 4 <= length <= buf.Length
    ensures var s := buf[pos..length] + incoming; s[3] == buf[pos + 3] && PayloadLength(s) == HeaderLength(buf, pos)
  {
  }

  // Reading a wire packet in two steps: its header, then its payload from what follows.
  lemma ReadWireCases(s: Bytes, seqId: Byte)
    ensures ReadWire(s, seqId)
         == if |s| < 4 then Failed(ConnectionLost)
            else if s[3] != seqId then Failed(if s[3] == 0 then ConnectionLost else BadSequence(s[3], seqId))
            else if |s[4..]| < PayloadLength(s) then Failed(ConnectionLost)
            else Done(s[4..][..PayloadLength(s)], s[4..][PayloadLength(s)..], NextSeq(seqId))
  {
    if |s| >= 4 && |s| - 4 >= PayloadLength(s) {
      var n := PayloadLength(s);
      assert s[4..][..n] == s[4..4 + n] && s[4..][n..] == s[4 + n..];
    }
  }

  lemma BulkStops<R>(b: Bytes, seqId: Byte, deprecateEof: bool, parse: Bytes -> Option<R>)
    requires !FastRow(b, seqId, deprecateEof)
    ensures BulkRows(b, seqId, deprecateEof, parse) == Bulk([], 0, seqId, true)
  {
  }

  lemma BulkSkipStops(b: Bytes, seqId: Byte, count: nat)
    requires count == 0 || !FastSkip(b, seqId)
    ensures BulkSkip(b, seqId, count) == Skipped(0, 0, seqId)
  {
  }

  lemma BulkSkipStep(b: Bytes, seqId: Byte, count: nat)
    requires count > 0 && FastSkip(b, seqId)
    ensures var n := 4 + PayloadLength(b);
            var k := BulkSkip(b[n..], NextSeq(seqId), count - 1);
            (BulkSkip(b, seqId, count) == Skipped(1 + k.count, n + k.consumed, k.seqId))
  {
  }

  lemma WireConsumes(s: Bytes, seqId: Byte)
    ensures var w := ReadWire(s, seqId); w.Done? ==> |w.rest| + 4 <= |s|
  {
  }

  // The first four bytes of the prelude are the length and sequence number 0.
  lemma FirstFrame(command: Byte, chunk: Bytes)
    requires |chunk| + 1 <= MAX_PACKET_LEN
    ensures LittleEndian(|chunk| + 1, 4) + [command] + chunk == Frame(WirePacket(0, [command] + chunk))
  {
    hide LittleEndian;
    var n, payload := |chunk| + 1, [command] + chunk;
    FourthByteZero(n);
    var h := LittleEndian(n, 3);
    assert h + [0] + [command] + chunk == h + [0] + payload;
  }
}
