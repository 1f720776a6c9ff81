// Result-set rows as a stream of logical packets ended by an EOF packet, or by an OK packet with
// header 0xFE when EOF packets are deprecated. Row payloads are parsed by a function `parse`: the
// text and the binary protocol share everything in this module.
module ResultSets {
  import opened Binary
  import opened Framing

  datatype End = End(warnings: nat, status: nat) {
    // SERVER_MORE_RESULTS_EXISTS
    predicate HasNext() {
      Bit(status, 3)
    }
  }

  // In the status word, that is the bit of value 8.
  lemma MoreResultsBit(end: End)
    ensures end.HasNext() <==> end.status / 8 % 2 == 1
  {
    var s := end.status;
    assert Bit(s, 3) == Bit(s / 2, 2) == Bit(s / 2 / 2, 1) == Bit(s / 2 / 2 / 2, 0);
    assert s / 2 / 2 / 2 == s / 8;
  }

  datatype RowSet<R> = RowSet(rows: seq<R>, end: End)

  predicate IsEnd(p: Bytes, deprecateEof: bool) {
    |p| > 0 && p[0] == 0xFE && (deprecateEof || |p| < 9)
  }

  // The position after the length-encoded integer at position i.
  function SkipLengthEncoded(p: Bytes, i: nat): Option<nat> {
    if i >= |p| then None
    else Some(i + match p[i] case 252 => 3 case 253 => 4 case 254 => 9 case _ => 1)
  }

  function UInt16At(p: Bytes, i: nat): nat
    requires i + 2 <= |p|
  {
    p[i] as int + 256 * p[i + 1] as int
  }

  // The terminating packet; a packet too short for its fields is malformed.
  function ParseEnd(p: Bytes, deprecateEof: bool): Option<End> {
    if deprecateEof then
      match SkipLengthEncoded(p, 1)
      case None => None
      case Some(i) =>
        match SkipLengthEncoded(p, i)
        case None => None
        case Some(j) => if j + 4 > |p| then None else Some(End(UInt16At(p, j + 2), UInt16At(p, j)))
    else if |p| < 5 then None
    else Some(End(UInt16At(p, 1), UInt16At(p, 3)))
  }

  function PrependRow<R>(row: R, r: Reading<RowSet<R>>): Reading<RowSet<R>> {
    match r
    case Done(rs, rest, next) => Done(RowSet([row] + rs.rows, rs.end), rest, next)
    case Failed(e) => Failed(e)
  }

  function PrependRows<R>(rows: seq<R>, r: Reading<RowSet<R>>): Reading<RowSet<R>> {
    match r
    case Done(rs, rest, next) => Done(RowSet(rows + rs.rows, rs.end), rest, next)
    case Failed(e) => Failed(e)
  }

  // Reading rows one packet at a time until the terminating packet.
  function ReadRows<R>(s: Bytes, seqId: Byte, deprecateEof: bool, parse: Bytes -> Option<R>): Reading<RowSet<R>>
    decreases |s|
  {
    match ReadPacket(s, seqId)
    case Failed(e) => Failed(e)
    case Done(p, rest, next) =>
      ReadConsumes(s, seqId);
      if IsEnd(p, deprecateEof) then
        match ParseEnd(p, deprecateEof)
        case None => Failed(MalformedEnd)
        case Some(end) => Done(RowSet([], end), rest, next)
      else
        match parse(p)
        case None => Failed(MalformedRow)
        case Some(row) => PrependRow(row, ReadRows(rest, next, deprecateEof, parse))
  }

  // ---- the server's side ----

  function EncodeAll(payloads: seq<Bytes>, seqId: Byte): Bytes {
    if payloads == [] then []
    else Encode(payloads[0], seqId) + EncodeAll(payloads[1..], SeqAfter(payloads[0], seqId))
  }

  function SeqAfterAll(payloads: seq<Bytes>, seqId: Byte): Byte {
    if payloads == [] then seqId else SeqAfterAll(payloads[1..], SeqAfter(payloads[0], seqId))
  }

  // The stream of a result set: its row packets, the terminating packet and whatever comes next.
  function ResultStream(payloads: seq<Bytes>, endPacket: Bytes, seqId: Byte, rest: Bytes): Bytes {
    EncodeAll(payloads, seqId) + (Encode(endPacket, SeqAfterAll(payloads, seqId)) + rest)
  }

  ghost predicate Parses<R>(payloads: seq<Bytes>, rows: seq<R>, parse: Bytes -> Option<R>) {
    && |payloads| == |rows|
    && forall i :: 0 <= i < |rows| ==> parse(payloads[i]) == Some(rows[i]) && !IsErrorPacket(payloads[i])
  }

  ghost predicate NoneEnds(payloads: seq<Bytes>, deprecateEof: bool) {
    forall p :: p in payloads ==> !IsEnd(p, deprecateEof)
  }

  lemma ReadRowsStep<R>(s: Bytes, seqId: Byte, p: Bytes, rest: Bytes, next: Byte, deprecateEof: bool,
                        parse: Bytes -> Option<R>)
    requires ReadLogical(s, seqId) == Done(p, rest, next)
    requires !IsErrorPacket(p) && !IsEnd(p, deprecateEof)
    ensures ReadRows(s, seqId, deprecateEof, parse)
         == match parse(p)
            case None => Failed(MalformedRow)
            case Some(row) => PrependRow(row, ReadRows(rest, next, deprecateEof, parse))
  {
  }

  // Reading returns exactly the server's rows and stops just past the terminating packet if, and
  // only if, no row packet looks like a terminating one.
  lemma {:induction false} ReadRowsEncoded<R>(payloads: seq<Bytes>, rows: seq<R>, endPacket: Bytes, end: End,
                                             seqId: Byte, rest: Bytes, deprecateEof: bool, parse: Bytes -> Option<R>)
    requires Parses(payloads, rows, parse)
    requires IsEnd(endPacket, deprecateEof) && ParseEnd(endPacket, deprecateEof) == Some(end)
    ensures ReadRows(ResultStream(payloads, endPacket, seqId, rest), seqId, deprecateEof, parse)
         == Done(RowSet(rows, end), rest, SeqAfterAll(payloads + [endPacket], seqId))
         <==> NoneEnds(payloads, deprecateEof)
    decreases |payloads|
  {
    hide ReadLogical, Encode;
    var s := ResultStream(payloads, endPacket, seqId, rest);
    if payloads == [] {
      assert s == Encode(endPacket, seqId) + rest;
      ReadEncoded(endPacket, seqId, rest);
      SeqAfterSnoc([], endPacket, seqId);
    } else {
      var p := payloads[0];
      var next := SeqAfter(p, seqId);
      var tail := ResultStream(payloads[1..], endPacket, next, rest);
      assert s == Encode(p, seqId) + tail;
      ReadEncoded(p, seqId, tail);
      assert payloads == [p] + payloads[1..];
      if !IsEnd(p, deprecateEof) {
        ReadRowsStep(s, seqId, p, tail, next, deprecateEof, parse);
        ReadRowsEncoded(payloads[1..], rows[1..], endPacket, end, next, rest, deprecateEof, parse);
        assert (payloads + [endPacket])[1..] == payloads[1..] + [endPacket];
        PrependRowInjective(rows, end, rest, SeqAfterAll(payloads + [endPacket], seqId),
                            ReadRows(tail, next, deprecateEof, parse));
      }
    }
  }

  // A row packet that does not parse makes the whole reading raise.
  lemma {:induction false} ReadRowsRaises<R>(payloads: seq<Bytes>, endPacket: Bytes, seqId: Byte, rest: Bytes,
                                            deprecateEof: bool, parse: Bytes -> Option<R>)
    requires forall p :: p in payloads ==> !IsErrorPacket(p) && !IsEnd(p, deprecateEof)
    requires exists p :: p in payloads && parse(p).None?
    ensures ReadRows(ResultStream(payloads, endPacket, seqId, rest), seqId, deprecateEof, parse) == Failed(MalformedRow)
    decreases |payloads|
  {
    hide ReadLogical, Encode, ReadRows;
    var p := payloads[0];
    var next := SeqAfter(p, seqId);
    var tail := ResultStream(payloads[1..], endPacket, next, rest);
    assert ResultStream(payloads, endPacket, seqId, rest) == Encode(p, seqId) + tail;
    ReadEncoded(p, seqId, tail);
    assert payloads == [p] + payloads[1..];
    ReadRowsStep(Encode(p, seqId) + tail, seqId, p, tail, next, deprecateEof, parse);
    if parse(p).Some? {
      ReadRowsRaises(payloads[1..], endPacket, next, rest, deprecateEof, parse);
    }
  }

  // With no row like a terminator, reading gives every row if all are well formed and raises otherwise.
  lemma ReadRowsAllOrNone<R>(payloads: seq<Bytes>, rows: seq<R>, good: seq<bool>, endPacket: Bytes, end: End, seqId: Byte,
                             rest: Bytes, deprecateEof: bool, parse: Bytes -> Option<R>)
    requires forall p :: p in payloads ==> !IsErrorPacket(p) && !IsEnd(p, deprecateEof)
    requires |payloads| == |rows| == |good|
    requires forall i :: 0 <= i < |rows| ==> parse(payloads[i]) == if good[i] then Some(rows[i]) else None
    requires IsEnd(endPacket, deprecateEof) && ParseEnd(endPacket, deprecateEof) == Some(end)
    ensures ReadRows(ResultStream(payloads, endPacket, seqId, rest), seqId, deprecateEof, parse)
         == if false !in good then Done(RowSet(rows, end), rest, SeqAfterAll(payloads + [endPacket], seqId))
            else Failed(MalformedRow)
  {
    hide ReadRows, ResultStream, IsEnd, ParseEnd, IsErrorPacket, SeqAfterAll;
    if false !in good {
      assert Parses(payloads, rows, parse);
      ReadRowsEncoded(payloads, rows, endPacket, end, seqId, rest, deprecateEof, parse);
    } else {
      var i :| 0 <= i < |good| && !good[i];
      assert payloads[i] in payloads && parse(payloads[i]).None?;
      ReadRowsRaises(payloads, endPacket, seqId, rest, deprecateEof, parse);
    }
  }

  // An error packet behind any rows is raised as that error.
  lemma {:induction false} ReadRowsFails<R>(payloads: seq<Bytes>, error: Bytes, seqId: Byte, rest: Bytes,
                                           deprecateEof: bool, parse: Bytes -> Option<R>)
    requires error != [] && error[0] == 255
    requires forall p :: p in payloads ==> !IsErrorPacket(p) && !IsEnd(p, deprecateEof) && parse(p).Some?
    ensures ReadRows(ResultStream(payloads, error, seqId, rest), seqId, deprecateEof, parse) == Failed(ServerError(error))
    decreases |payloads|
  {
    hide ReadPacket, Encode;
    var s := ResultStream(payloads, error, seqId, rest);
    if payloads == [] {
      assert s == Encode(error, seqId) + rest;
      ErrorsAreRaised(error, seqId, rest);
    } else {
      var p := payloads[0];
      var next := SeqAfter(p, seqId);
      var tail := ResultStream(payloads[1..], error, next, rest);
      assert s == Encode(p, seqId) + tail;
      ReadEncoded(p, seqId, tail);
      assert payloads == [p] + payloads[1..];
      ReadRowsStep(s, seqId, p, tail, next, deprecateEof, parse);
      ReadRowsFails(payloads[1..], error, next, rest, deprecateEof, parse);
    }
  }

  lemma SeqAfterSnoc(payloads: seq<Bytes>, p: Bytes, seqId: Byte)
    ensures SeqAfterAll(payloads + [p], seqId) == SeqAfter(p, SeqAfterAll(payloads, seqId))
    decreases |payloads|
  {
    if payloads == [] {
      assert (payloads + [p])[1..] == [];
    } else {
      SeqAfterSnoc(payloads[1..], p, SeqAfter(payloads[0], seqId));
      assert (payloads + [p])[1..] == payloads[1..] + [p];
    }
  }

  lemma PrependRowInjective<R>(rows: seq<R>, end: End, rest: Bytes, next: Byte, r: Reading<RowSet<R>>)
    requires rows != []
    ensures PrependRow(rows[0], r) == Done(RowSet(rows, end), rest, next) <==> r == Done(RowSet(rows[1..], end), rest, next)
  {
    assert rows == [rows[0]] + rows[1..];
    if r.Done? && [rows[0]] + r.value.rows == rows {
      assert r.value.rows == rows[1..];
    }
  }

  // ---- the bulk loop ----

  // Rows taken from the front of a buffer, the bytes they took and the next sequence number; ok is
  // false when a row could not be parsed.
  datatype Bulk<R> = Bulk(rows: seq<R>, consumed: nat, seqId: Byte, ok: bool)

  // A complete, single-wire row packet with the expected number at the front of the buffer.
  predicate FastPacket(b: Bytes, seqId: Byte) {
    && |b| >= 4
    && b[3] == seqId
    && PayloadLength(b) != MAX_PACKET_LEN
    && |b| - 4 >= PayloadLength(b)
  }

  predicate FastRow(b: Bytes, seqId: Byte, deprecateEof: bool) {
    && FastPacket(b, seqId)
    && PayloadLength(b) != 0
    && b[4] != 0xFF
    && !(b[4] == 0xFE && (deprecateEof || PayloadLength(b) < 9))
  }

  function FastPayload(b: Bytes): Bytes
    requires |b| >= 4 && |b| - 4 >= PayloadLength(b)
  {
    b[4..4 + PayloadLength(b)]
  }

  function BulkRows<R>(b: Bytes, seqId: Byte, deprecateEof: bool, parse: Bytes -> Option<R>): (k: Bulk<R>)
    ensures k.consumed <= |b|
    decreases |b|
  {
    if !FastRow(b, seqId, deprecateEof) then Bulk([], 0, seqId, true)
    else
      match parse(FastPayload(b))
      case None => Bulk([], 0, seqId, false)
      case Some(row) =>
        var n := 4 + PayloadLength(b);
        var k := BulkRows(b[n..], NextSeq(seqId), deprecateEof, parse);
        Bulk([row] + k.rows, n + k.consumed, k.seqId, k.ok)
  }

  lemma BulkStep<R>(b: Bytes, seqId: Byte, deprecateEof: bool, parse: Bytes -> Option<R>)
    requires FastRow(b, seqId, deprecateEof)
    ensures BulkRows(b, seqId, deprecateEof, parse)
         == match parse(FastPayload(b))
            case None => Bulk([], 0, seqId, false)
            case Some(row) =>
              BulkAfter(row, 4 + PayloadLength(b), BulkRows(b[4 + PayloadLength(b)..], NextSeq(seqId), deprecateEof, parse))
  {
  }

  function BulkAfter<R>(row: R, n: nat, k: Bulk<R>): Bulk<R> {
    Bulk([row] + k.rows, n + k.consumed, k.seqId, k.ok)
  }

  // The bulk loop over any prefix of a stream refines packet-at-a-time reading: its rows, position
  // and sequence number are those reading would reach, and reading goes on from there. If a row
  // does not parse, neither way returns rows.
  lemma {:induction false} BulkRefinesReading<R>(b: Bytes, tail: Bytes, seqId: Byte, deprecateEof: bool,
                                                 parse: Bytes -> Option<R>)
    ensures var k := BulkRows(b, seqId, deprecateEof, parse);
            (ReadRows(b + tail, seqId, deprecateEof, parse)
             == if k.ok then PrependRows(k.rows, ReadRows(b[k.consumed..] + tail, k.seqId, deprecateEof, parse))
                else Failed(MalformedRow))
    decreases |b|
  {
    var k := BulkRows(b, seqId, deprecateEof, parse);
    if !FastRow(b, seqId, deprecateEof) {
      assert b[0..] == b;
      PrependNothing(ReadRows(b + tail, seqId, deprecateEof, parse));
    } else {
      var n := 4 + PayloadLength(b);
      FastPacketReads(b, tail, seqId);
      ReadRowsStep(b + tail, seqId, FastPayload(b), b[n..] + tail, NextSeq(seqId), deprecateEof, parse);
      if parse(FastPayload(b)).Some? {
        BulkRefinesReading(b[n..], tail, NextSeq(seqId), deprecateEof, parse);
        assert b[n..][k.consumed - n..] == b[k.consumed..];
        var k' := BulkRows(b[n..], NextSeq(seqId), deprecateEof, parse);
        PrependRowThenRows(parse(FastPayload(b)).value, k'.rows,
                           ReadRows(b[k.consumed..] + tail, k.seqId, deprecateEof, parse));
      }
    }
  }

  lemma PrependNothing<R>(r: Reading<RowSet<R>>)
    ensures PrependRows([], r) == r
  {
    if r.Done? {
      assert [] + r.value.rows == r.value.rows;
    }
  }

  lemma PrependRowThenRows<R>(row: R, rows: seq<R>, r: Reading<RowSet<R>>)
    ensures PrependRow(row, PrependRows(rows, r)) == PrependRows([row] + rows, r)
  {
    if r.Done? {
      assert [row] + (rows + r.value.rows) == [row] + rows + r.value.rows;
    }
  }

  lemma FastPacketReads(b: Bytes, tail: Bytes, seqId: Byte)
    requires FastPacket(b, seqId)
    ensures ReadLogical(b + tail, seqId)
         == Done(FastPayload(b), b[4 + PayloadLength(b)..] + tail, NextSeq(seqId))
  {
    var n := 4 + PayloadLength(b);
    assert (b + tail)[4..n] == b[4..n];
    assert (b + tail)[n..] == b[n..] + tail;
  }

  // ---- discarding packets ----

  datatype Nothing = Nothing

  // Discarding n logical packets one at a time.
  function Discard(s: Bytes, seqId: Byte, n: nat): Reading<Nothing>
    decreases n
  {
    if n == 0 then Done(Nothing, s, seqId)
    else
      match ReadPacket(s, seqId)
      case Failed(e) => Failed(e)
      case Done(p, rest, next) => Discard(rest, next, n - 1)
  }

  predicate FastSkip(b: Bytes, seqId: Byte) {
    FastPacket(b, seqId) && !(PayloadLength(b) > 0 && b[4] == 0xFF)
  }

  datatype Skipped = Skipped(count: nat, consumed: nat, seqId: Byte)

  function BulkSkip(b: Bytes, seqId: Byte, count: nat): (k: Skipped)
    ensures k.consumed <= |b| && k.count <= count
    decreases count
  {
    if count == 0 || !FastSkip(b, seqId) then Skipped(0, 0, seqId)
    else
      var n := 4 + PayloadLength(b);
      var k := BulkSkip(b[n..], NextSeq(seqId), count - 1);
      Skipped(1 + k.count, n + k.consumed, k.seqId)
  }

  // Skipping inside any prefix of a stream equals discarding as many logical packets.
  lemma {:induction false} BulkSkipRefinesDiscard(b: Bytes, tail: Bytes, seqId: Byte, n: nat)
    ensures DiscardAfter(b, tail, seqId, n, BulkSkip(b, seqId, n))
    decreases n
  {
    hide Discard;
    if n == 0 || !FastSkip(b, seqId) {
      assert b[0..] == b;
    } else {
      var len := 4 + PayloadLength(b);
      BulkSkipRefinesDiscard(b[len..], tail, NextSeq(seqId), n - 1);
      FastSkipStep(b, tail, seqId, n, BulkSkip(b[len..], NextSeq(seqId), n - 1));
    }
  }

  // A skip over a prefix of a stream leaves as much to discard as there was.
  ghost predicate DiscardAfter(b: Bytes, tail: Bytes, seqId: Byte, n: nat, k: Skipped) {
    && k.consumed <= |b| && k.count <= n
    && Discard(b + tail, seqId, n) == Discard(b[k.consumed..] + tail, k.seqId, n - k.count)
  }

  lemma FastSkipStep(b: Bytes, tail: Bytes, seqId: Byte, n: nat, k: Skipped)
    requires n > 0 && FastSkip(b, seqId)
    requires DiscardAfter(b[4 + PayloadLength(b)..], tail, NextSeq(seqId), n - 1, k)
    ensures DiscardAfter(b, tail, seqId, n, Skipped(1 + k.count, 4 + PayloadLength(b) + k.consumed, k.seqId))
  {
    hide Discard;
    FastDiscard(b, tail, seqId, n);
    DropTwice(b, 4 + PayloadLength(b), k.consumed);
  }

  lemma FastDiscard(b: Bytes, tail: Bytes, seqId: Byte, n: nat)
    requires n > 0 && FastSkip(b, seqId)
    ensures Discard(b + tail, seqId, n) == Discard(b[4 + PayloadLength(b)..] + tail, NextSeq(seqId), n - 1)
  {
    FastPacketReads(b, tail, seqId);
    DiscardStep(b + tail, seqId, FastPayload(b), b[4 + PayloadLength(b)..] + tail, NextSeq(seqId), n);
  }

  lemma DropTwice<T>(s: seq<T>, i: nat, j: nat)
    requires i + j <= |s|
    ensures s[i..][j..] == s[i + j..]
  {
  }

  lemma DiscardStep(s: Bytes, seqId: Byte, p: Bytes, rest: Bytes, next: Byte, n: nat)
    requires n > 0 && ReadLogical(s, seqId) == Done(p, rest, next) && !IsErrorPacket(p)
    ensures Discard(s, seqId, n) == Discard(rest, next, n - 1)
  {
  }

  // Discarding as many packets as the server sent leaves the stream just past them.
  lemma {:induction false} DiscardEncoded(payloads: seq<Bytes>, seqId: Byte, rest: Bytes)
    requires forall p :: p in payloads ==> !IsErrorPacket(p)
    ensures Discard(EncodeAll(payloads, seqId) + rest, seqId, |payloads|) == Done(Nothing, rest, SeqAfterAll(payloads, seqId))
    decreases |payloads|
  {
    if payloads == [] {
      assert [] + rest == rest;
    } else {
      var next := SeqAfter(payloads[0], seqId);
      var tail := EncodeAll(payloads[1..], next) + rest;
      assert EncodeAll(payloads, seqId) + rest == Encode(payloads[0], seqId) + tail;
      ReadEncoded(payloads[0], seqId, tail);
      DiscardEncoded(payloads[1..], next, rest);
    }
  }

  // An error packet among those to discard is raised.
  lemma {:induction false} DiscardFails(payloads: seq<Bytes>, error: Bytes, seqId: Byte, rest: Bytes, n: nat)
    requires error != [] && error[0] == 255 && n > |payloads|
    requires forall p :: p in payloads ==> !IsErrorPacket(p)
    ensures Discard(EncodeAll(payloads, seqId) + (Encode(error, SeqAfterAll(payloads, seqId)) + rest), seqId, n)
         == Failed(ServerError(error))
    decreases |payloads|
  {
    hide ReadPacket, Encode;
    var last := Encode(error, SeqAfterAll(payloads, seqId)) + rest;
    if payloads == [] {
      assert [] + last == last;
      ErrorsAreRaised(error, seqId, rest);
    } else {
      var next := SeqAfter(payloads[0], seqId);
      var tail := EncodeAll(payloads[1..], next) + last;
      assert EncodeAll(payloads, seqId) + last == Encode(payloads[0], seqId) + tail;
      ReadEncoded(payloads[0], seqId, tail);
      DiscardStep(Encode(payloads[0], seqId) + tail, seqId, payloads[0], tail, next, n);
      DiscardFails(payloads[1..], error, next, rest, n - 1);
    }
  }
}
