// The methods of a rows event, moving one packet cursor.
module RowReader {
  import opened Binary
  import opened Bitmaps
  import opened DecimalText
  import opened Calendar
  import opened Readers
  import opened BinLogPacket
  import opened NewDecimal
  import opened BinaryJson
  import opened BinaryJsonProofs
  import opened BinaryJsonReader
  import opened ColumnValues
  import opened RowEvents

  // The low `end` bits of one byte, built from the least significant and turned around.
  method BitsOfByte(data: Byte, end: nat) returns (text: string)
    ensures text == BinaryText(data, end)
  {
    var currentByte, n: nat := "", data;
    for bit := 0 to end
      invariant BinaryText(data, end) == BinaryText(n, end - bit) + currentByte
    {
      var digit := if n % 2 == 1 then "1" else "0";
      assert BinaryText(n, end - bit) + currentByte == BinaryText(n / 2, end - bit - 1) + (digit + currentByte);
      currentByte, n := digit + currentByte, n / 2;
    }
    assert "" + currentByte == currentByte;
    text := currentByte;
  }

  // __read_bit
  method ReadBit(packet: Packet, bits: nat) returns (v: Value, ok: bool)
    requires packet.Valid()
    modifies packet
    ensures packet.Valid()
    ensures ok == ReadBits(bits, old(packet.Remaining())).Ok?
    ensures ok ==> ReadBits(bits, old(packet.Remaining())) == Ok(v, packet.Remaining())
    ensures ok ==> packet.Moved(old(packet.Remaining()), old(packet.readBytes), |old(packet.dataBuffer)|)
  {
    hide BinaryText;
    ghost var s := packet.Remaining();
    var count, resp := (bits + 7) / 8, "";
    v, ok := Null, true;
    for byte := 0 to count
      invariant packet.Valid() && packet.Moved(s, old(packet.readBytes), |old(packet.dataBuffer)|)
      invariant byte <= |s| && packet.Remaining() == s[byte..] && resp == BitText(s[..byte], FirstBits(bits))
    {
      ghost var before := packet.Remaining();
      var data, text;
      data, ok := packet.ReadUInt(1);
      if !ok {
        return;
      }
      FirstByte(before);
      var end := 8;
      if byte == 0 {
        if count == 1 {
          end := bits;
        } else {
          end := bits % 8;
          if end == 0 {
            end := 8;
          }
        }
      }
      text := BitsOfByte(data, end);
      BitTextSnoc(s[..byte], data, FirstBits(bits));
      assert s[..byte + 1] == s[..byte] + [data];
      resp := resp + text;
    }
    v, ok := Bits(resp), true;
  }

  // __read_fsp
  method ReadFraction(packet: Packet, fsp: nat) returns (micros: int, ok: bool)
    requires packet.Valid()
    modifies packet
    ensures packet.Valid()
    ensures ok == ReadFsp(fsp, old(packet.Remaining())).Ok?
    ensures ok ==> ReadFsp(fsp, old(packet.Remaining())) == Ok(micros, packet.Remaining())
    ensures ok ==> packet.Moved(old(packet.Remaining()), old(packet.readBytes), |old(packet.dataBuffer)|)
  {
    hide IntBE;
    var read := 0;
    if fsp == 1 || fsp == 2 {
      read := 1;
    } else if fsp == 3 || fsp == 4 {
      read := 2;
    } else if fsp == 5 || fsp == 6 {
      read := 3;
    }
    micros, ok := 0, true;
    if read > 0 {
      micros, ok := packet.ReadIntBE(read);
      if ok {
        if fsp % 2 != 0 {
          micros := if micros < 0 then -(-micros / 10) else micros / 10;
        }
        micros := micros * Pow10(6 - fsp);
      }
    }
  }

  // __add_fsp_to_time
  method AddFraction(packet: Packet, fsp: nat, t: Value) returns (v: Value, ok: bool)
    requires packet.Valid()
    modifies packet
    ensures packet.Valid()
    ensures ok == WithFraction(ReadFsp(fsp, old(packet.Remaining())), t).Ok?
    ensures ok ==> WithFraction(ReadFsp(fsp, old(packet.Remaining())), t) == Ok(v, packet.Remaining())
    ensures ok ==> packet.Moved(old(packet.Remaining()), old(packet.readBytes), |old(packet.dataBuffer)|)
  {
    hide ReadFsp;
    var micros;
    v := t;
    micros, ok := ReadFraction(packet, fsp);
    if ok && micros > 0 {
      if micros > 999999 {
        return t, false;
      }
      if t.Instant? || t.Moment? {
        v := t.(micros := micros);
      }
    }
  }

  // __read_datetime2
  method ReadMoment(packet: Packet, fsp: nat) returns (v: Value, ok: bool)
    requires packet.Valid()
    modifies packet
    ensures packet.Valid()
    ensures ok == ReadDatetime2(fsp, old(packet.Remaining())).Ok?
    ensures ok ==> ReadDatetime2(fsp, old(packet.Remaining())) == Ok(v, packet.Remaining())
    ensures ok ==> packet.Moved(old(packet.Remaining()), old(packet.readBytes), |old(packet.dataBuffer)|)
  {
    hide ReadFsp, WithFraction, Slice, FromBigEndian, IsDate, IsTime;
    var bytes;
    v := Null;
    bytes, ok := packet.Read(5);
    if !ok {
      return;
    }
    var data := FromBigEndian(bytes);
    var yearMonth := Slice(data, 1, 17, 40);
    var year, month, day := yearMonth / 13, yearMonth % 13, Slice(data, 18, 5, 40);
    var hour, minute, second := Slice(data, 23, 5, 40), Slice(data, 28, 6, 40), Slice(data, 34, 6, 40);
    if IsDate(year, month, day) && IsTime(hour, minute, second) {
      v, ok := AddFraction(packet, fsp, Moment(year, month, day, hour, minute, second, 0));
    } else {
      var micros;
      micros, ok := ReadFraction(packet, fsp);
    }
  }

  // The branches of _read_column_data that put nothing back.
  method ReadPlainCell(packet: Packet, kind: Kind) returns (v: Value, ok: bool)
    requires packet.Valid() && !kind.Packed? && !kind.Document?
    modifies packet
    ensures packet.Valid()
    ensures ok == ReadPlain(kind, old(packet.Remaining())).Ok?
    ensures ok ==> ReadPlain(kind, old(packet.Remaining())) == Ok(v, packet.Remaining())
    ensures ok ==> packet.Moved(old(packet.Remaining()), old(packet.readBytes), |old(packet.dataBuffer)|)
  {
    hide FromLittleEndian, Signed, IntBE, ReadFsp, ReadDatetime2, ReadBits, Take, UInt, UIntBySize, PascalString, Selected,
         IsDate;
    var n, i: nat, bytes;
    v, ok := Null, false;
    match kind {
      case Integer(size, unsigned) =>
        if unsigned {
          i, ok := packet.ReadUInt(size);
          n := i;
        } else {
          n, ok := packet.ReadInt(size);
        }
        v := Value.Int(n);
      case Floating(size) =>
        bytes, ok := packet.Read(size);
        v := Real(bytes);
      case Characters(maxLength) =>
        bytes, ok := packet.ReadPascalString(if maxLength > 255 then 2 else 1);
        v := Text(bytes);
      case Blob(lengthSize) =>
        bytes, ok := packet.ReadPascalString(lengthSize);
        v := Text(bytes);
      case Year =>
        i, ok := packet.ReadUInt(1);
        v := Value.Int(i + 1900);
      case Enumeration(size, values) =>
        i, ok := packet.ReadUIntBySize(size);
        if ok && i < |values| {
          v := Item(values[i]);
        } else {
          ok := false;
        }
      case Choice(size, values) =>
        i, ok := packet.ReadUIntBySize(size);
        if ok && Selected(values, i) != {} {
          v := Items(Selected(values, i));
        }
      case BitField(bits) =>
        v, ok := ReadBit(packet, bits);
      case Date =>
        i, ok := packet.ReadUInt(3);
        if ok {
          var year, month, day := i / 512 % 32768, i / 32 % 16, i % 32;
          if year != 0 && month != 0 && day != 0 {
            ok := IsDate(year, month, day);
            v := Day(year, month, day);
          }
        }
      case Timestamp =>
        i, ok := packet.ReadUInt(4);
        v := Instant(i, 0);
      case Timestamp2(fsp) =>
        n, ok := packet.ReadIntBE(4);
        if ok {
          v, ok := AddFraction(packet, fsp, Instant(n, 0));
        }
      case Datetime2(fsp) =>
        v, ok := ReadMoment(packet, fsp);
      case _ =>
    }
  }

  method ReadCellValue(packet: Packet, kind: Kind) returns (v: Value, ok: bool)
    requires packet.Valid()
    modifies packet
    ensures packet.Valid()
    ensures ok == ReadCell(kind, old(packet.State())).Done?
    ensures ok ==> ReadCell(kind, old(packet.State())) == Done(v, packet.State())
    ensures ok ==> packet.Total() == old(packet.Total())
  {
    hide ReadPlain, ReadDecimal, ReadJson;
    v, ok := Null, false;
    match kind {
      case Packed(precision, decimals) =>
        if decimals <= precision {
          var d;
          d, ok := ReadNewDecimal(packet, precision, decimals);
          v := Dec(d);
        }
      case Document(lengthSize) =>
        var json;
        json, ok := ReadBinaryJson(packet, lengthSize);
        v := Value.Doc(json);
      case _ =>
        v, ok := ReadPlainCell(packet, kind);
    }
  }

  // _read_column_data
  method ReadColumnData(packet: Packet, columns: seq<Column>, present: Bytes) returns (values: Values, ok: bool)
    requires packet.Valid()
    modifies packet
    ensures packet.Valid()
    ensures ok == ReadImage(columns, present, old(packet.State())).Done?
    ensures ok ==> ReadImage(columns, present, old(packet.State())) == Done(values, packet.State())
    ensures ok ==> packet.Total() == old(packet.Total())
  {
    hide ReadCell, BitCount, BitGet;
    values := map[];
    var n := CountBits(present);
    var nulls;
    nulls, ok := packet.Read((n + 7) / 8);
    if !ok {
      return;
    }
    ghost var start := packet.State();
    ghost var whole := ReadColumns(columns, present, nulls, 0, 0, map[], start);
    var nullBitmapIndex: nat := 0;
    for i := 0 to |columns|
      invariant packet.Valid() && packet.Total() == old(packet.Total())
      invariant whole == ReadColumns(columns, present, nulls, i, nullBitmapIndex, values, packet.State())
    {
      var name, v := columns[i].name, Null;
      if i / 8 >= |present| {
        return values, false;
      }
      if !BitGet(present, i) {
        values := values[name := Null];
        continue;
      }
      if nullBitmapIndex / 8 >= |nulls| {
        return values, false;
      }
      if BitGet(nulls, nullBitmapIndex) {
        values := values[name := Null];
      } else {
        v, ok := ReadCellValue(packet, columns[i].kind);
        if !ok {
          return;
        }
        values := values[name := v];
      }
      nullBitmapIndex := nullBitmapIndex + 1;
    }
    ok := true;
  }

  method ReadOneRow(packet: Packet, columns: seq<Column>, shape: Shape<Bytes>) returns (row: Row, ok: bool)
    requires packet.Valid()
    modifies packet
    ensures packet.Valid()
    ensures ok == FetchOneRow(columns, shape, old(packet.State())).Done?
    ensures ok ==> FetchOneRow(columns, shape, old(packet.State())) == Done(row, packet.State())
    ensures ok ==> packet.Total() == old(packet.Total())
  {
    hide ReadImage;
    row := Whole(map[]);
    match shape {
      case Single(present) =>
        var values;
        values, ok := ReadColumnData(packet, columns, present);
        row := Whole(values);
      case Pair(before, after) =>
        var values, values';
        values, ok := ReadColumnData(packet, columns, before);
        if ok {
          values', ok := ReadColumnData(packet, columns, after);
          row := Change(values, values');
        }
    }
  }

  function Prepended(rows: seq<Row>, r: Step<seq<Row>>): Step<seq<Row>> {
    match r
    case Failed => Failed
    case Done(more, next) => Done(rows + more, next)
  }

  // _fetch_rows, for an event whose table metadata is complete.
  method FetchAllRows(packet: Packet, columns: seq<Column>, shape: Shape<Bytes>, eventSize: int)
    returns (rows: seq<Row>, ok: bool)
    requires packet.Valid() && Advances(shape)
    modifies packet
    ensures packet.Valid()
    ensures ok == FetchRows(columns, shape, old(packet.State()), old(packet.readBytes), eventSize).Done?
    ensures ok ==> FetchRows(columns, shape, old(packet.State()), old(packet.readBytes), eventSize)
                   == Done(rows, packet.State())
    ensures ok ==> packet.Total() == old(packet.Total())
  {
    hide FetchOneRow, Advances;
    ghost var whole := FetchRows(columns, shape, packet.State(), packet.readBytes, eventSize);
    rows, ok := [], true;
    PrependNothing(whole);
    while packet.readBytes < eventSize
      invariant packet.Valid() && packet.Total() == old(packet.Total()) && ok
      invariant whole == Prepended(rows, FetchRows(columns, shape, packet.State(), packet.readBytes, eventSize))
      decreases |packet.Remaining()|
    {
      var row;
      RowShrinks(columns, shape, packet.State());
      row, ok := ReadOneRow(packet, columns, shape);
      if !ok {
        return;
      }
      PrependOne(rows, row, FetchRows(columns, shape, packet.State(), packet.readBytes, eventSize));
      rows := rows + [row];
    }
    assert rows + [] == rows;
  }

  lemma PrependNothing(r: Step<seq<Row>>)
    ensures Prepended([], r) == r
  {
    if r.Done? {
      assert [] + r.value == r.value;
    }
  }

  lemma PrependOne(rows: seq<Row>, row: Row, r: Step<seq<Row>>)
    ensures Prepended(rows + [row], r) == Prepended(rows, Prepended([row], r))
  {
    if r.Done? {
      assert rows + [row] + r.value == rows + ([row] + r.value);
    }
  }

  // A served event, read from its rows on: with only readable cells the reader has every row and stops
  // at the event's end, and with others it never has the rows that were served.
  method ReadServedEvent(columns: seq<Column>, shape: Shape<Flags>, bytes: Bytes, ghost stored: seq<StoredRow>,
                         eventSize: nat, ghost checksum: Bytes) returns (rows: seq<Row>, readBytes: int, ok: bool)
    requires RowsFit(columns, shape, stored) && SomeColumn(shape)
    requires bytes == EncodeRows(columns, shape, stored) + checksum && eventSize + |checksum| == |bytes|
    ensures RowsReadable(columns, shape, stored) ==>
              ok && rows == ClientRows(columns, shape, stored) && readBytes == eventSize
    ensures DistinctNames(columns) && RowsDecided(columns, shape, stored) && !RowsReadable(columns, shape, stored) ==>
              !ok || rows != ClientRows(columns, shape, stored)
  {
    hide FetchRows, EncodeRows, ClientRows, BitmapsOf, SomeColumn, Advances, RowsFit, RowsReadable, RowsDecided,
         DistinctNames;
    SomeColumnAdvances(shape);
    RowsRoundTrip(columns, shape, stored, checksum, 0);
    var packet := new Packet(bytes);
    rows, ok := FetchAllRows(packet, columns, BitmapsOf(shape), eventSize);
    readBytes := packet.readBytes;
  }
}
