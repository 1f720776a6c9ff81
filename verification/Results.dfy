// MySQLResult: reading a whole result set, reading it row by row, and the cursors on top of each.
module Results {
  import opened Binary
  import opened Framing
  import opened ResultSets
  import opened Receive
  import opened TextRows

  datatype NextRow<+R> = Row(row: R) | AtEnd(end: End) | Broken(error: ReadError)

  // `parse` is the row parser of the result's protocol, text or binary.
  class MySQLResult<R> {
    const connection: Connection
    const deprecateEof: bool
    const parse: Bytes -> Option<R>
    var rows: Option<seq<R>>
    var affectedRows: nat
    var warningCount: nat
    var serverStatus: nat
    var hasNext: bool
    var unbufferedActive: bool
    // Rows already taken from the receive buffer and not yet handed out.
    var pending: seq<R>
    var pendingIdx: nat

    ghost predicate Valid()
      reads this, connection, connection.proto, connection.proto.buffer
    {
      connection.Valid() && pendingIdx <= |pending|
    }

    ghost function Stream(): Bytes
      requires Valid()
      reads this, connection, connection.proto, connection.proto.buffer
    {
      connection.Stream()
    }

    // What packet-at-a-time reading would return from here on.
    ghost function Unread(): Reading<RowSet<R>>
      requires Valid()
      reads this, connection, connection.proto, connection.proto.buffer
    {
      ReadRows(Stream(), connection.nextSeqId, deprecateEof, parse)
    }

    // What an unbuffered reader still has to hand out.
    ghost function Remaining(): Reading<RowSet<R>>
      requires Valid()
      reads this, connection, connection.proto, connection.proto.buffer
    {
      PrependRows(pending[pendingIdx..], Unread())
    }

    ghost predicate Ended(end: End)
      reads this
    {
      && warningCount == end.warnings
      && hasNext == end.HasNext()
      && (deprecateEof ==> serverStatus == end.status)
    }

    constructor (connection: Connection, deprecateEof: bool, parse: Bytes -> Option<R>, unbuffered: bool)
      requires connection.Valid()
      ensures Valid() && this.connection == connection && this.deprecateEof == deprecateEof && this.parse == parse
      ensures unbufferedActive == unbuffered && pending == [] && rows == None
    {
      this.connection, this.deprecateEof, this.parse := connection, deprecateEof, parse;
      rows, affectedRows, warningCount, serverStatus, hasNext := None, 0, 0, 0, false;
      unbufferedActive, pending, pendingIdx := unbuffered, [], 0;
    }

    // Recognises the terminating packet and takes its fields; ok is false when it is too short.
    method CheckPacketIsEof(packet: Bytes) returns (isEnd: bool, ok: bool)
      modifies this`warningCount, this`serverStatus, this`hasNext
      ensures isEnd == IsEnd(packet, deprecateEof)
      ensures isEnd ==> ok == ParseEnd(packet, deprecateEof).Some?
      ensures isEnd && ok ==> Ended(ParseEnd(packet, deprecateEof).value)
      ensures !isEnd ==> ok
    {
      isEnd, ok := IsEnd(packet, deprecateEof), true;
      if isEnd {
        match ParseEnd(packet, deprecateEof) {
          case None =>
            ok := false;
          case Some(end) =>
            warningCount := end.warnings;
            hasNext := end.HasNext();
            if deprecateEof {
              serverStatus := end.status;
            }
        }
      }
    }

    // Bulk-parses what the receive buffer holds; None when a row does not parse.
    method TakeBufferedRows(rows: seq<R>) returns (all: Option<seq<R>>)
      requires Valid()
      modifies connection`nextSeqId, connection.proto`pos
      ensures Valid()
      ensures all.None? ==> old(Unread()) == Failed(MalformedRow)
      ensures all.Some? ==> rows <= all.value && old(Unread()) == PrependRows(all.value[|rows|..], Unread())
      ensures all.Some? ==> |Stream()| <= |old(Stream())|
    {
      hide ReadRows, BulkRows;
      var proto := connection.proto;
      ghost var b := proto.buffer[proto.pos..proto.length];
      var newPos, newSeqId, parsed, ok :=
        ParseRowsFromBuffer(proto.buffer, proto.pos, proto.length, parse, connection.nextSeqId, rows, deprecateEof);
      BulkRefinesReading(b, proto.incoming, connection.nextSeqId, deprecateEof, parse);
      if !ok {
        return None;
      }
      assert b[newPos - proto.pos..] == proto.buffer[newPos..proto.length];
      assert parsed[|rows|..] == BulkRows(b, connection.nextSeqId, deprecateEof, parse).rows;
      proto.pos := newPos;
      connection.nextSeqId := newSeqId;
      return Some(parsed);
    }

    // One packet, taken as a row or as the end of the rows.
    method ReadOneRow() returns (next: NextRow<R>)
      requires Valid()
      modifies this`warningCount, this`serverStatus, this`hasNext
      modifies connection`nextSeqId, connection.proto, connection.proto.buffer
      ensures Valid()
      ensures connection.proto.buffer == old(connection.proto.buffer) || fresh(connection.proto.buffer)
      ensures match next
              case Row(row) => old(Unread()) == PrependRow(row, Unread()) && |Stream()| < |old(Stream())|
              case AtEnd(end) =>
                Ended(end) && old(Unread()) == Done(RowSet([], end), Stream(), connection.nextSeqId)
              case Broken(e) => old(Unread()) == Failed(e)
    {
      hide ReadLogical;
      ReadConsumes(Stream(), connection.nextSeqId);
      var packet := connection.ReadPacket();
      if packet.Raised? {
        return Broken(packet.error);
      }
      var isEnd, ok := CheckPacketIsEof(packet.value);
      if !ok {
        return Broken(MalformedEnd);
      }
      if isEnd {
        return AtEnd(ParseEnd(packet.value, deprecateEof).value);
      }
      match parse(packet.value) {
        case None => return Broken(MalformedRow);
        case Some(row) => return Row(row);
      }
    }

    // Reads the whole result set.
    method ReadRowdataPacket() returns (error: Option<ReadError>)
      requires Valid()
      modifies this, connection`nextSeqId, connection.proto, connection.proto.buffer
      ensures Valid()
      ensures connection.proto.buffer == old(connection.proto.buffer) || fresh(connection.proto.buffer)
      ensures match old(Unread())
              case Failed(e) => error == Some(e)
              case Done(rs, rest, next) =>
                && error == None
                && rows == Some(rs.rows) && affectedRows == |rs.rows|
                && Ended(rs.end)
                && Stream() == rest && connection.nextSeqId == next
    {
      hide ReadRows, PrependRow, PrependRows;
      var taken: seq<R> := [];
      ghost var whole := Unread();
      PrependNothing(whole);
      while true
        invariant Valid()
        invariant connection.proto.buffer == old(connection.proto.buffer) || fresh(connection.proto.buffer)
        invariant whole == PrependRows(taken, Unread())
        decreases |Stream()|
      {
        ghost var before := taken;
        var all := TakeBufferedRows(taken);
        if all.None? {
          PrependToFailure(before, MalformedRow);
          return Some(MalformedRow);
        }
        taken := all.value;
        assert before + taken[|before|..] == taken;
        PrependTwice(before, taken[|before|..], Unread());
        var next := ReadOneRow();
        match next {
          case Broken(e) =>
            PrependToFailure(taken, e);
            return Some(e);
          case AtEnd(end) =>
            PrependToEnd(taken, end, Stream(), connection.nextSeqId);
            break;
          case Row(row) =>
            PrependRowsThenRow(taken, row, Unread());
            taken := taken + [row];
        }
      }
      affectedRows := |taken|;
      rows := Some(taken);
      return None;
    }

    // Skips up to n complete packets the receive buffer holds.
    method SkipBufferedPackets(n: nat) returns (skipped: nat)
      requires Valid()
      modifies connection`nextSeqId, connection.proto`pos
      ensures Valid() && skipped <= n
      ensures Discard(old(Stream()), old(connection.nextSeqId), n)
           == Discard(Stream(), connection.nextSeqId, n - skipped)
    {
      hide Discard, BulkSkip;
      var proto := connection.proto;
      ghost var b := proto.buffer[proto.pos..proto.length];
      BulkSkipRefinesDiscard(b, proto.incoming, connection.nextSeqId, n);
      var newPos, newSeqId;
      newPos, newSeqId, skipped :=
        SkipPacketsFromBuffer(proto.buffer, proto.pos, proto.length, connection.nextSeqId, n);
      assert b[newPos - proto.pos..] == proto.buffer[newPos..proto.length];
      proto.pos := newPos;
      connection.nextSeqId := newSeqId;
    }

    // Skips the packets of the column definitions (and their EOF packet), keeping known metadata.
    method ConsumeDescriptions(fieldCount: nat) returns (error: Option<ReadError>)
      requires Valid()
      modifies connection`nextSeqId, connection.proto, connection.proto.buffer
      ensures Valid()
      ensures connection.proto.buffer == old(connection.proto.buffer) || fresh(connection.proto.buffer)
      ensures var count := fieldCount + if deprecateEof then 0 else 1;
              match Discard(old(Stream()), old(connection.nextSeqId), count)
              case Failed(e) => error == Some(e)
              case Done(_, rest, next) => error == None && Stream() == rest && connection.nextSeqId == next
    {
      hide Discard, ReadLogical, IsErrorPacket;
      var remaining: nat := fieldCount + if deprecateEof then 0 else 1;
      ghost var whole := Discard(Stream(), connection.nextSeqId, remaining);
      while remaining > 0
        invariant Valid()
        invariant connection.proto.buffer == old(connection.proto.buffer) || fresh(connection.proto.buffer)
        invariant whole == Discard(Stream(), connection.nextSeqId, remaining)
      {
        var skipped := SkipBufferedPackets(remaining);
        remaining := remaining - skipped;
        if remaining > 0 {
          DiscardUnfold(Stream(), connection.nextSeqId, remaining);
          var packet := connection.ReadPacket();
          if packet.Raised? {
            return Some(packet.error);
          }
          remaining := remaining - 1;
        }
      }
      DiscardUnfold(Stream(), connection.nextSeqId, 0);
      return None;
    }

    // The next row of an unbuffered result; None at its end.
    method ReadRowUnbuffered() returns (row: Option<R>, error: Option<ReadError>)
      requires Valid()
      modifies this, connection`nextSeqId, connection.proto, connection.proto.buffer
      ensures Valid()
      ensures connection.proto.buffer == old(connection.proto.buffer) || fresh(connection.proto.buffer)
      ensures !old(unbufferedActive) ==>
                row == None && error == None && !unbufferedActive
                && Stream() == old(Stream()) && connection.nextSeqId == old(connection.nextSeqId)
      ensures old(unbufferedActive) && old(Remaining()).Done? ==> error == None && HandedOut(old(Remaining()), row)
    {
      hide ReadRows;
      if !unbufferedActive {
        return None, None;
      }
      if pendingIdx >= |pending| {
        var ok := RefillPending();
        if !ok {
          return None, Some(MalformedRow);
        }
      }
      if pendingIdx < |pending| {
        row := HandOutPending();
        return row, None;
      }
      assert pending[pendingIdx..] == [];
      PrependNothing(Unread());
      var next := ReadOneRow();
      match next {
        case Broken(e) =>
          return None, Some(e);
        case AtEnd(_) =>
          unbufferedActive := false;
          rows := None;
          return None, None;
        case Row(r) =>
          PrependNothing(Unread());
          affectedRows, rows := 1, Some([r]);
          return Some(r), None;
      }
    }

    // `row` is the first row of r, or None at its end, and the rest of r is what remains.
    ghost predicate HandedOut(r: Reading<RowSet<R>>, row: Option<R>)
      requires Valid() && r.Done?
      reads this, connection, connection.proto, connection.proto.buffer
    {
      if r.value.rows == [] then
        && row == None && !unbufferedActive && Ended(r.value.end)
        && Stream() == r.rest && connection.nextSeqId == r.seqId
      else
        && row == Some(r.value.rows[0]) && unbufferedActive
        && Remaining() == Done(RowSet(r.value.rows[1..], r.value.end), r.rest, r.seqId)
    }

    method HandOutPending() returns (row: Option<R>)
      requires Valid() && unbufferedActive && pendingIdx < |pending|
      modifies this`pendingIdx, this`affectedRows, this`rows
      ensures Valid()
      ensures old(Remaining()).Done? ==> HandedOut(old(Remaining()), row)
    {
      hide ReadRows;
      var head := pending[pendingIdx];
      assert pending[pendingIdx..] == [head] + pending[pendingIdx + 1..];
      PrependedHead(head, pending[pendingIdx + 1..], Unread());
      pendingIdx := pendingIdx + 1;
      affectedRows, rows := 1, Some([head]);
      return Some(head);
    }

    // Replaces the used-up pending rows by those the receive buffer holds.
    method RefillPending() returns (ok: bool)
      requires Valid() && pendingIdx == |pending|
      modifies this`pending, this`pendingIdx, connection`nextSeqId, connection.proto`pos
      ensures Valid() && pendingIdx == 0
      ensures ok ==> Remaining() == old(Remaining())
      ensures !ok ==> old(Remaining()) == Failed(MalformedRow)
    {
      hide ReadRows;
      PrependNothing(Unread());
      assert pending[pendingIdx..] == [];
      var buffered := TakeBufferedRows([]);
      if buffered.None? {
        pending, pendingIdx := [], 0;
        return false;
      }
      pending, pendingIdx := buffered.value, 0;
      assert buffered.value[0..] == buffered.value;
      return true;
    }

    // Reads and drops the rest of an unbuffered result.
    method FinishUnbufferedQuery() returns (error: Option<ReadError>)
      requires Valid()
      modifies this, connection`nextSeqId, connection.proto, connection.proto.buffer
      ensures Valid()
      ensures connection.proto.buffer == old(connection.proto.buffer) || fresh(connection.proto.buffer)
      ensures !old(unbufferedActive) ==>
                error == None && Stream() == old(Stream()) && connection.nextSeqId == old(connection.nextSeqId)
      ensures old(unbufferedActive) && old(Remaining()).Done? ==>
                var r := old(Remaining());
                && error == None && !unbufferedActive && Ended(r.value.end)
                && Stream() == r.rest && connection.nextSeqId == r.seqId
    {
      hide ReadRows;
      ghost var r := Unread();
      while unbufferedActive
        invariant Valid()
        invariant connection.proto.buffer == old(connection.proto.buffer) || fresh(connection.proto.buffer)
        invariant !old(unbufferedActive) ==>
                    !unbufferedActive && Stream() == old(Stream()) && connection.nextSeqId == old(connection.nextSeqId)
        invariant r.Done? && unbufferedActive ==> SameEnd(r, Unread())
        invariant r.Done? && old(unbufferedActive) && !unbufferedActive ==>
                    Ended(r.value.end) && Stream() == r.rest && connection.nextSeqId == r.seqId
        decreases unbufferedActive, |Stream()|
      {
        var isEnd, error := DropPacket();
        if error.Some? {
          return error;
        }
        if isEnd {
          unbufferedActive := false;
        }
      }
      return None;
    }

    // Reads one packet for its role only: the end of the rows, or a row nobody wants.
    method DropPacket() returns (isEnd: bool, error: Option<ReadError>)
      requires Valid()
      modifies this`warningCount, this`serverStatus, this`hasNext
      modifies connection`nextSeqId, connection.proto, connection.proto.buffer
      ensures Valid()
      ensures connection.proto.buffer == old(connection.proto.buffer) || fresh(connection.proto.buffer)
      ensures error == None ==> |Stream()| < |old(Stream())|
      ensures old(Unread()).Done? ==>
                var r := old(Unread());
                && error == None
                && if isEnd then Ended(r.value.end) && Stream() == r.rest && connection.nextSeqId == r.seqId
                   else SameEnd(r, Unread())
    {
      hide ReadLogical;
      ReadConsumes(Stream(), connection.nextSeqId);
      var packet := connection.ReadPacket();
      if packet.Raised? {
        return false, Some(packet.error);
      }
      var ok;
      isEnd, ok := CheckPacketIsEof(packet.value);
      return isEnd, if ok then None else Some(MalformedEnd);
    }
  }

  // A whole text result set, read however the network cuts its bytes and whatever happens to the
  // receive buffer meanwhile: the server's rows, with the connection just past the last packet.
  method ReadServedTable<V>(result: MySQLResult<seq<Option<V>>>, ghost table: seq<seq<Cell>>,
                            ghost converters: seq<Bytes -> V>, ghost endPacket: Bytes, ghost end: End, ghost rest: Bytes)
    returns (rows: seq<seq<Option<V>>>)
    requires result.Valid() && result.parse == TextRowParser(converters)
    requires forall cells :: cells in table ==> Encodable(cells) && |cells| == |converters|
    requires result.deprecateEof ==> forall cells :: cells in table ==> FirstCellShort(cells)
    requires IsEnd(endPacket, result.deprecateEof) && ParseEnd(endPacket, result.deprecateEof) == Some(end)
    requires result.Stream() == ResultStream(EncodeTextRows(table), endPacket, result.connection.nextSeqId, rest)
    modifies result, result.connection`nextSeqId, result.connection.proto, result.connection.proto.buffer
    ensures result.Valid() && result.Ended(end)
    ensures rows == ConvertRows(table, converters)
    ensures result.Stream() == rest
    ensures result.connection.nextSeqId == SeqAfterAll(EncodeTextRows(table) + [endPacket], old(result.connection.nextSeqId))
  {
    hide ReadRows, ParseEnd, ResultStream, SeqAfterAll;
    ReadTextResultSet(table, converters, endPacket, end, result.connection.nextSeqId, rest, result.deprecateEof);
    var error := result.ReadRowdataPacket();
    return result.rows.value;
  }

  // Two readings that stop at the same place with the same terminating packet.
  ghost predicate SameEnd<R>(a: Reading<RowSet<R>>, b: Reading<RowSet<R>>) {
    a.Done? && b.Done? && a.value.end == b.value.end && a.rest == b.rest && a.seqId == b.seqId
  }

  lemma DiscardUnfold(s: Bytes, seqId: Byte, n: nat)
    ensures Discard(s, seqId, n)
         == if n == 0 then Done(Nothing, s, seqId)
            else match ReadPacket(s, seqId)
                 case Failed(e) => Failed(e)
                 case Done(_, rest, next) => Discard(rest, next, n - 1)
  {
  }

  lemma PrependToFailure<R>(rows: seq<R>, e: ReadError)
    ensures PrependRows<R>(rows, Failed(e)) == Failed(e)
  {
  }

  lemma PrependToEnd<R>(rows: seq<R>, end: End, rest: Bytes, seqId: Byte)
    ensures PrependRows(rows, Done(RowSet([], end), rest, seqId)) == Done(RowSet(rows, end), rest, seqId)
  {
    assert rows + [] == rows;
  }

  lemma PrependTwice<R>(a: seq<R>, b: seq<R>, r: Reading<RowSet<R>>)
    ensures PrependRows(a, PrependRows(b, r)) == PrependRows(a + b, r)
  {
    if r.Done? {
      assert a + (b + r.value.rows) == a + b + r.value.rows;
    }
  }

  lemma PrependRowsThenRow<R>(rows: seq<R>, row: R, r: Reading<RowSet<R>>)
    ensures PrependRows(rows, PrependRow(row, r)) == PrependRows(rows + [row], r)
  {
    if r.Done? {
      assert rows + ([row] + r.value.rows) == rows + [row] + r.value.rows;
    }
  }

  lemma PrependedHead<R>(row: R, rows: seq<R>, r: Reading<RowSet<R>>)
    ensures var whole := PrependRows([row] + rows, r);
            whole.Done? ==> |whole.value.rows| > 0 && whole.value.rows[0] == row
                            && PrependRows(rows, r) == Done(RowSet(whole.value.rows[1..], whole.value.end), whole.rest, whole.seqId)
  {
    if r.Done? {
      assert ([row] + rows + r.value.rows)[1..] == rows + r.value.rows;
    }
  }
}
