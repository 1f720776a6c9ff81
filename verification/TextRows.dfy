// Length-encoded values and the rows of the text protocol.
module TextRows {
  import opened Binary
  import opened Framing
  import opened ResultSets

  const LENGTH_LIMIT: nat := 0x1_0000_0000_0000_0000

  // A length-encoded integer in its shortest form.
  function LengthEncoded(n: nat): (bs: Bytes)
    requires n < LENGTH_LIMIT
    ensures |bs| >= 1
  {
    if n < 251 then [n]
    else if n < 0x1_0000 then [252] + LittleEndian(n, 2)
    else if n < 0x100_0000 then [253] + LittleEndian(n, 3)
    else [254] + LittleEndian(n, 8)
  }

  // What stands at the start of a cell: a NULL marker, or a length and the position of its bytes.
  datatype CellHead = Null | Length(n: nat, start: nat) | Bad

  function LengthField(p: Bytes, pos: nat, width: nat): CellHead {
    if pos + 1 + width > |p| then Bad
    else Length(FromLittleEndian(p[pos + 1..pos + 1 + width]), pos + 1 + width)
  }

  function ReadCellHead(p: Bytes, pos: nat): CellHead
    requires pos < |p|
  {
    if p[pos] == 251 then Null
    else if p[pos] < 251 then Length(p[pos], pos + 1)
    else match p[pos]
         case 252 => LengthField(p, pos, 2)
         case 253 => LengthField(p, pos, 3)
         case 254 => LengthField(p, pos, 8)
         case _ => Bad
  }

  lemma LengthEncodedRoundTrip(before: Bytes, n: nat, after: Bytes)
    requires n < LENGTH_LIMIT
    ensures var p := before + LengthEncoded(n) + after;
            ReadCellHead(p, |before|) == Length(n, |before| + |LengthEncoded(n)|)
  {
    var p := before + LengthEncoded(n) + after;
    assert p[|before|] == LengthEncoded(n)[0];
    if n >= 251 {
      var width := if n < 0x1_0000 then 2 else if n < 0x100_0000 then 3 else 8;
      assert p[|before| + 1..|before| + 1 + width] == LittleEndian(n, width);
      LittleEndianRoundTrip(n, width);
    }
  }

  // ---- rows ----

  type Cell = Option<Bytes>

  ghost predicate Encodable(cells: seq<Cell>) {
    forall c :: c in cells && c.Some? ==> |c.value| < LENGTH_LIMIT
  }

  function EncodeCell(cell: Cell): (bs: Bytes)
    requires cell.Some? ==> |cell.value| < LENGTH_LIMIT
    ensures |bs| >= 1
  {
    match cell
    case None => [251]
    case Some(v) => LengthEncoded(|v|) + v
  }

  function EncodeTextRow(cells: seq<Cell>): Bytes
    requires Encodable(cells)
  {
    if cells == [] then [] else EncodeCell(cells[0]) + EncodeTextRow(cells[1..])
  }

  // The Python value of a cell: None for NULL, otherwise the column's converter on its bytes.
  function Convert<V>(cell: Cell, converter: Bytes -> V): Option<V> {
    match cell
    case None => None
    case Some(v) => Some(converter(v))
  }

  function ConvertRow<V>(cells: seq<Cell>, converters: seq<Bytes -> V>): seq<Option<V>>
    requires |cells| == |converters|
  {
    seq(|cells|, i requires 0 <= i < |cells| => Convert(cells[i], converters[i]))
  }

  // The cells from position pos on, one for each converter; None when the row is malformed.
  function ParseCells<V>(p: Bytes, pos: nat, converters: seq<Bytes -> V>): Option<seq<Option<V>>>
    decreases |converters|
  {
    if converters == [] then Some([])
    else if pos >= |p| then None
    else
      match ReadCellHead(p, pos)
      case Bad => None
      case Null =>
        Cons(None, ParseCells(p, pos + 1, converters[1..]))
      case Length(n, start) =>
        if start + n > |p| then None
        else Cons(Some(converters[0](p[start..start + n])), ParseCells(p, start + n, converters[1..]))
  }

  function Cons<V>(head: V, tail: Option<seq<V>>): Option<seq<V>> {
    match tail
    case None => None
    case Some(vs) => Some([head] + vs)
  }

  function Append<V>(front: seq<V>, tail: Option<seq<V>>): Option<seq<V>> {
    match tail
    case None => None
    case Some(vs) => Some(front + vs)
  }

  // _parse_row: fills the row from left to right.
  method ParseTextRow<V>(p: Bytes, converters: seq<Bytes -> V>) returns (result: Option<seq<Option<V>>>)
    ensures result == ParseCells(p, 0, converters)
  {
    var row: seq<Option<V>> := [];
    var pos := 0;
    assert converters[0..] == converters;
    AppendNothing(ParseCells(p, 0, converters));
    for i := 0 to |converters|
      invariant ParseCells(p, 0, converters) == Append(row, ParseCells(p, pos, converters[i..]))
    {
      assert converters[i..][1..] == converters[i + 1..];
      if pos >= |p| {
        return None;
      }
      match ReadCellHead(p, pos) {
        case Bad =>
          return None;
        case Null =>
          AppendCons(row, None, ParseCells(p, pos + 1, converters[i + 1..]));
          row := row + [None];
          pos := pos + 1;
        case Length(n, start) =>
          if start + n > |p| {
            return None;
          }
          var value := converters[i](p[start..start + n]);
          AppendCons(row, Some(value), ParseCells(p, start + n, converters[i + 1..]));
          row := row + [Some(value)];
          pos := start + n;
      }
    }
    assert row + [] == row;
    result := Some(row);
  }

  lemma AppendNothing<V>(r: Option<seq<V>>)
    ensures Append([], r) == r
  {
    if r.Some? {
      assert [] + r.value == r.value;
    }
  }

  lemma AppendCons<V>(front: seq<V>, x: V, r: Option<seq<V>>)
    ensures Append(front, Cons(x, r)) == Append(front + [x], r)
  {
    if r.Some? {
      assert front + ([x] + r.value) == front + [x] + r.value;
    }
  }

  // The head and the bytes of a non-NULL cell, wherever it stands.
  lemma EncodedValueAt(before: Bytes, v: Bytes, after: Bytes)
    requires |v| < LENGTH_LIMIT
    ensures var p, start := before + EncodeCell(Some(v)) + after, |before| + |LengthEncoded(|v|)|;
            && ReadCellHead(p, |before|) == Length(|v|, start)
            && start + |v| == |before| + |EncodeCell(Some(v))| <= |p|
            && p[start..start + |v|] == v
  {
    LengthEncodedRoundTrip(before, |v|, v + after);
    assert before + EncodeCell(Some(v)) + after == before + LengthEncoded(|v|) + (v + after);
  }

  lemma ParseValueCell<V>(p: Bytes, pos: nat, n: nat, start: nat, converters: seq<Bytes -> V>)
    requires converters != [] && pos < |p|
    requires ReadCellHead(p, pos) == Length(n, start) && start + n <= |p|
    ensures ParseCells(p, pos, converters)
         == Cons(Some(converters[0](p[start..start + n])), ParseCells(p, start + n, converters[1..]))
  {
  }

  lemma ParseNullCell<V>(p: Bytes, pos: nat, converters: seq<Bytes -> V>)
    requires converters != [] && pos < |p| && p[pos] == 251
    ensures ParseCells(p, pos, converters) == Cons(None, ParseCells(p, pos + 1, converters[1..]))
  {
  }

  lemma ParseEncodedCell<V>(before: Bytes, cell: Cell, after: Bytes, p: Bytes, converters: seq<Bytes -> V>)
    requires cell.Some? ==> |cell.value| < LENGTH_LIMIT
    requires converters != [] && p == before + EncodeCell(cell) + after
    ensures ParseCells(p, |before|, converters)
         == Cons(Convert(cell, converters[0]), ParseCells(p, |before| + |EncodeCell(cell)|, converters[1..]))
  {
    hide ParseCells;
    match cell
    case None =>
      ParseNullCell(p, |before|, converters);
    case Some(v) =>
      EncodedValueAt(before, v, after);
      ParseValueCell(p, |before|, |v|, |before| + |LengthEncoded(|v|)|, converters);
  }

  // Parsing returns the converted cells the server encoded.
  lemma {:induction false} ParseEncodedCells<V>(before: Bytes, cells: seq<Cell>, p: Bytes, converters: seq<Bytes -> V>)
    requires Encodable(cells) && |cells| == |converters| && p == before + EncodeTextRow(cells)
    ensures ParseCells(p, |before|, converters) == Some(ConvertRow(cells, converters))
    decreases |cells|
  {
    hide ReadCellHead, EncodeCell, Convert;
    if cells != [] {
      var after := EncodeTextRow(cells[1..]);
      assert p == before + EncodeCell(cells[0]) + after;
      ParseEncodedCell(before, cells[0], after, p, converters);
      ParseEncodedCells(before + EncodeCell(cells[0]), cells[1..], p, converters[1..]);
      ConvertRowStep(cells, converters);
    }
  }

  lemma ConvertRowStep<V>(cells: seq<Cell>, converters: seq<Bytes -> V>)
    requires |cells| == |converters| > 0
    ensures ConvertRow(cells, converters)
         == [Convert(cells[0], converters[0])] + ConvertRow(cells[1..], converters[1..])
  {
  }

  lemma ParseEncodedTextRow<V>(cells: seq<Cell>, converters: seq<Bytes -> V>)
    requires Encodable(cells) && |cells| == |converters|
    ensures ParseCells(EncodeTextRow(cells), 0, converters) == Some(ConvertRow(cells, converters))
  {
    assert [] + EncodeTextRow(cells) == EncodeTextRow(cells);
    ParseEncodedCells([], cells, EncodeTextRow(cells), converters);
  }

  // A row is never taken for an error packet, and it is taken for the end of the result set exactly
  // when EOF packets are deprecated and its first cell has 2^24 bytes or more.
  lemma TextRowLooks(cells: seq<Cell>, deprecateEof: bool)
    requires Encodable(cells)
    ensures !IsErrorPacket(EncodeTextRow(cells))
    ensures IsEnd(EncodeTextRow(cells), deprecateEof)
       <==> deprecateEof && |cells| > 0 && cells[0].Some? && |cells[0].value| >= 0x100_0000
  {
    if cells != [] {
      assert EncodeTextRow(cells)[0] == EncodeCell(cells[0])[0];
    }
  }

  ghost predicate FirstCellShort(cells: seq<Cell>) {
    |cells| > 0 && cells[0].Some? ==> |cells[0].value| < 0x100_0000
  }

  function EncodeTextRows(table: seq<seq<Cell>>): (ps: seq<Bytes>)
    requires forall cells :: cells in table ==> Encodable(cells)
    ensures |ps| == |table|
    ensures forall i :: 0 <= i < |table| ==> ps[i] == EncodeTextRow(table[i])
  {
    seq(|table|, i requires 0 <= i < |table| => EncodeTextRow(table[i]))
  }

  function TextRowParser<V>(converters: seq<Bytes -> V>): Bytes -> Option<seq<Option<V>>> {
    (p: Bytes) => ParseCells(p, 0, converters)
  }

  function ConvertRows<V>(table: seq<seq<Cell>>, converters: seq<Bytes -> V>): (rows: seq<seq<Option<V>>>)
    requires forall cells :: cells in table ==> |cells| == |converters|
    ensures |rows| == |table|
    ensures forall i :: 0 <= i < |table| ==> rows[i] == ConvertRow(table[i], converters)
  {
    seq(|table|, i requires 0 <= i < |table| => ConvertRow(table[i], converters))
  }

  // Reading a text result set returns the server's rows, and leaves the stream and the sequence
  // number just past its last packet, exactly when EOF packets are in use or no row starts with a
  // cell of 2^24 bytes or more.
  lemma ReadTextResultSet<V>(table: seq<seq<Cell>>, converters: seq<Bytes -> V>, endPacket: Bytes, end: End,
                             seqId: Byte, rest: Bytes, deprecateEof: bool)
    requires forall cells :: cells in table ==> Encodable(cells) && |cells| == |converters|
    requires IsEnd(endPacket, deprecateEof) && ParseEnd(endPacket, deprecateEof) == Some(end)
    ensures var payloads := EncodeTextRows(table);
            (ReadRows(ResultStream(payloads, endPacket, seqId, rest), seqId, deprecateEof, TextRowParser(converters))
             == Done(RowSet(ConvertRows(table, converters), end), rest, SeqAfterAll(payloads + [endPacket], seqId)))
            <==> (deprecateEof ==> forall cells :: cells in table ==> FirstCellShort(cells))
  {
    var payloads := EncodeTextRows(table);
    var rows := ConvertRows(table, converters);
    var parse := TextRowParser(converters);
    forall i | 0 <= i < |table|
      ensures parse(payloads[i]) == Some(rows[i]) && !IsErrorPacket(payloads[i])
      ensures IsEnd(payloads[i], deprecateEof) <==> deprecateEof && !FirstCellShort(table[i])
    {
      assert table[i] in table;
      ParseEncodedTextRow(table[i], converters);
      TextRowLooks(table[i], deprecateEof);
    }
    ReadRowsEncoded(payloads, rows, endPacket, end, seqId, rest, deprecateEof, parse);
    if NoneEnds(payloads, deprecateEof) && deprecateEof {
      forall cells | cells in table
        ensures FirstCellShort(cells)
      {
        var i :| 0 <= i < |table| && table[i] == cells;
        assert payloads[i] in payloads;
      }
    }
  }

  // ---- the terminating packets the server sends ----

  function EofPacket(end: End): Bytes {
    [0xFE] + LittleEndian(end.warnings, 2) + LittleEndian(end.status, 2)
  }

  function OkEndPacket(end: End, affected: nat, insertId: nat, info: Bytes): Bytes
    requires affected < LENGTH_LIMIT && insertId < LENGTH_LIMIT
  {
    [0xFE] + LengthEncoded(affected) + LengthEncoded(insertId)
    + LittleEndian(end.status, 2) + LittleEndian(end.warnings, 2) + info
  }

  lemma UInt16RoundTrip(before: Bytes, n: nat, after: Bytes)
    requires n < 0x1_0000
    ensures UInt16At(before + LittleEndian(n, 2) + after, |before|) == n
  {
    assert LittleEndian(n, 2) == [n % 256] + LittleEndian(n / 256, 1);
    assert LittleEndian(n / 256, 1) == [n / 256 % 256] + LittleEndian(n / 256 / 256, 0);
  }

  lemma SkipLengthEncodedSpec(before: Bytes, n: nat, after: Bytes)
    requires n < LENGTH_LIMIT
    ensures SkipLengthEncoded(before + LengthEncoded(n) + after, |before|) == Some(|before| + |LengthEncoded(n)|)
  {
    assert (before + LengthEncoded(n) + after)[|before|] == LengthEncoded(n)[0];
  }

  // Both kinds of terminating packet are recognised, and their warning count and status are read.
  lemma EofPacketParses(end: End)
    requires end.warnings < 0x1_0000 && end.status < 0x1_0000
    ensures IsEnd(EofPacket(end), false) && ParseEnd(EofPacket(end), false) == Some(end)
  {
    var p := EofPacket(end);
    UInt16RoundTrip([0xFE], end.warnings, LittleEndian(end.status, 2));
    UInt16RoundTrip([0xFE] + LittleEndian(end.warnings, 2), end.status, []);
    assert p == [0xFE] + LittleEndian(end.warnings, 2) + LittleEndian(end.status, 2) + [];
  }

  lemma OkEndPacketParses(end: End, affected: nat, insertId: nat, info: Bytes)
    requires end.warnings < 0x1_0000 && end.status < 0x1_0000
    requires affected < LENGTH_LIMIT && insertId < LENGTH_LIMIT
    ensures var p := OkEndPacket(end, affected, insertId, info);
            IsEnd(p, true) && ParseEnd(p, true) == Some(end)
  {
    var p := OkEndPacket(end, affected, insertId, info);
    var a, b := LengthEncoded(affected), LengthEncoded(insertId);
    var status, warnings := LittleEndian(end.status, 2), LittleEndian(end.warnings, 2);
    assert p == [0xFE] + a + (b + status + warnings + info);
    SkipLengthEncodedSpec([0xFE], affected, b + status + warnings + info);
    assert p == ([0xFE] + a) + b + (status + warnings + info);
    SkipLengthEncodedSpec([0xFE] + a, insertId, status + warnings + info);
    assert p == ([0xFE] + a + b) + status + (warnings + info);
    UInt16RoundTrip([0xFE] + a + b, end.status, warnings + info);
    UInt16RoundTrip([0xFE] + a + b + status, end.warnings, info);
  }
}
