// Rows of the binary protocol.
module BinaryRows {
  import opened Binary
  import opened Bitmaps
  import opened Calendar
  import opened Readers
  import opened Framing
  import opened ResultSets
  import opened TextRows
  import opened BinaryValues

  // A column: its type code, its unsigned flag, and how text-like values are decoded and converted.
  datatype Spec<!V> = Spec(code: nat, unsigned: bool, converter: Bytes -> V)

  datatype RowValue<V> =
    | RNone
    | RInt(n: int)
    | RReal(bits: Bytes)                 // a float or a double
    | RText(v: V)
    | RMoment(year: nat, month: nat, day: nat, hour: nat, minute: nat, second: nat, micros: nat)
    | RDay(year: nat, month: nat, day: nat)
    | RDelta(total: int)                 // a timedelta by its microseconds

  // How many bytes an integer of this type takes; none for the other types.
  function IntWidth(code: nat): nat {
    if code == 3 || code == 9 then 4
    else if code == 8 then 8
    else if code == 1 then 1
    else if code == 2 || code == 13 then 2
    else 0
  }

  function ParseInt<V>(spec: Spec<V>, s: Bytes): Parsed<RowValue<V>> {
    match UInt(s, IntWidth(spec.code))
    case Error => Error
    case Ok(u, rest) =>
      Ok(RInt(if spec.unsigned || spec.code == 13 then u else Signed(u, IntWidth(spec.code))), rest)
  }

  function ParseReal<V>(s: Bytes, k: nat): Parsed<RowValue<V>> {
    match Take(s, k)
    case Error => Error
    case Ok(bits, rest) => Ok(RReal(bits), rest)
  }

  // TIMESTAMP and DATETIME: None for a length of zero and for dates with a part out of range; dates that
  // pass the check and do not exist raise.
  function ParseMoment<V>(s: Bytes): Parsed<RowValue<V>> {
    match Fields(s)
    case Error => Error
    case Ok(f, rest) =>
      if |f| == 0 then Ok(RNone, rest)
      else if |f| < 4 then Error
      else
        var year, month, day := Field(f, 0, 2), Field(f, 2, 1), Field(f, 3, 1);
        var hour, minute, second := if |f| >= 7 then Field(f, 4, 1) else 0, if |f| >= 7 then Field(f, 5, 1) else 0,
                                    if |f| >= 7 then Field(f, 6, 1) else 0;
        var micros := if |f| >= 11 then Field(f, 7, 4) else 0;
        if year >= 1 && 1 <= month <= 12 && 1 <= day <= 31 then
          if IsDate(year, month, day) && IsTime(hour, minute, second) && micros < 1000000 then
            Ok(RMoment(year, month, day, hour, minute, second, micros), rest)
          else Error
        else Ok(RNone, rest)
  }

  function ParseDay<V>(s: Bytes): Parsed<RowValue<V>> {
    match Fields(s)
    case Error => Error
    case Ok(f, rest) =>
      if |f| == 0 then Ok(RNone, rest)
      else if |f| < 4 then Error
      else
        var year, month, day := Field(f, 0, 2), Field(f, 2, 1), Field(f, 3, 1);
        if year >= 1 && 1 <= month <= 12 && 1 <= day <= 31 then
          if IsDate(year, month, day) then Ok(RDay(year, month, day), rest) else Error
        else Ok(RNone, rest)
  }

  const MAX_DAYS := 999999999

  // datetime.timedelta normalises its arguments and raises for more than MAX_DAYS days.
  function DeltaOf<V>(negative: bool, days: nat, seconds: nat, micros: nat, rest: Bytes): Parsed<RowValue<V>> {
    var total := (if negative then -1 else 1) * TotalMicros(days, seconds, micros);
    if -MAX_DAYS * 86400000000 <= total < (MAX_DAYS + 1) * 86400000000 then Ok(RDelta(total), rest) else Error
  }

  function ParseDelta<V>(s: Bytes): Parsed<RowValue<V>> {
    match Fields(s)
    case Error => Error
    case Ok(f, rest) =>
      if |f| == 0 then Ok(RDelta(0), rest)
      else if |f| < 8 then Error
      else
        var seconds := Field(f, 5, 1) * 3600 + Field(f, 6, 1) * 60 + Field(f, 7, 1);
        DeltaOf(Field(f, 0, 1) != 0, Field(f, 1, 4), seconds, if |f| >= 12 then Field(f, 8, 4) else 0, rest)
  }

  function ParseText<V>(spec: Spec<V>, s: Bytes): Parsed<RowValue<V>> {
    match StringOf(s)
    case Error => Error
    case Ok(bytes, rest) => Ok(RText(spec.converter(bytes)), rest)
  }

  predicate IsText(code: nat) {
    code !in {1, 2, 3, 4, 5, 7, 8, 9, 10, 11, 12, 13, 14}
  }

  function ParseValue<V>(spec: Spec<V>, s: Bytes): Parsed<RowValue<V>> {
    if IntWidth(spec.code) > 0 then ParseInt(spec, s)
    else if spec.code == 5 then ParseReal(s, 8)
    else if spec.code == 4 then ParseReal(s, 4)
    else if spec.code == 7 || spec.code == 12 then ParseMoment(s)
    else if spec.code == 10 || spec.code == 14 then ParseDay(s)
    else if spec.code == 11 then ParseDelta(s)
    else ParseText(spec, s)
  }

  // The columns from the i-th on; the bitmap's first two bits are not used.
  function ParseFrom<V>(bitmap: Bytes, specs: seq<Spec<V>>, i: nat, s: Bytes): Option<seq<RowValue<V>>>
    requires |bitmap| == (|specs| + 9) / 8 && i <= |specs|
    decreases |specs| - i
  {
    if i == |specs| then Some([])
    else if BitGet(bitmap, i + 2) then Cons(RNone, ParseFrom(bitmap, specs, i + 1, s))
    else
      match ParseValue(specs[i], s)
      case Error => None
      case Ok(v, rest) => Cons(v, ParseFrom(bitmap, specs, i + 1, rest))
  }

  // _parse_binary_row: a header byte, the null bitmap, the values.
  function ParseBinaryRow<V>(p: Bytes, specs: seq<Spec<V>>): Option<seq<RowValue<V>>> {
    var k := (|specs| + 9) / 8;
    if |p| < 1 + k then None else ParseFrom(p[1..1 + k], specs, 0, p[1 + k..])
  }

  // ---- the server's side ----

  datatype Cell =
    | CNull
    | CInt(n: int)
    | CFloat(bits: Bytes)
    | CMoment(year: nat, month: nat, day: nat, hour: nat, minute: nat, second: nat, micros: nat)
    | CDay(year: nat, month: nat, day: nat)
    | CTime(negative: bool, days: nat, hour: nat, minute: nat, second: nat, micros: nat)
    | CParam(v: Param)  // in the form the client itself uses for parameters

  // The server leaves out the parts of a date or time that are zero from the right.
  function MomentBody(year: nat, month: Byte, day: Byte, hour: Byte, minute: Byte, second: Byte, micros: nat): (f: Bytes)
    ensures |f| in {0, 4, 7, 11}
  {
    if micros > 0 then LittleEndian(year, 2) + [month, day, hour, minute, second] + LittleEndian(micros, 4)
    else if hour > 0 || minute > 0 || second > 0 then LittleEndian(year, 2) + [month, day, hour, minute, second]
    else if year > 0 || month > 0 || day > 0 then LittleEndian(year, 2) + [month, day]
    else []
  }

  function TimeBody(negative: bool, days: nat, hour: Byte, minute: Byte, second: Byte, micros: nat): (f: Bytes)
    ensures |f| in {0, 8, 12}
  {
    var sign := if negative then 1 else 0;
    if micros > 0 then [sign] + LittleEndian(days, 4) + [hour, minute, second] + LittleEndian(micros, 4)
    else if days > 0 || hour > 0 || minute > 0 || second > 0 then
      [sign] + LittleEndian(days, 4) + [hour, minute, second]
    else []
  }

  // The protocol's integer types: TINY; SHORT and YEAR; LONG and INT24; LONGLONG.
  function StoredWidth(code: nat): nat {
    match code
    case 1 => 1
    case 2 => 2
    case 13 => 2
    case 3 => 4
    case 9 => 4
    case 8 => 8
    case _ => 0
  }

  // TIME stops at 838:59:59.
  const MAX_HOURS := 838

  ghost predicate CellFits<V>(spec: Spec<V>, cell: Cell) {
    match cell
    case CNull => true
    case CInt(n) =>
      var k := StoredWidth(spec.code);
      k > 0 && if spec.unsigned || spec.code == 13 then 0 <= n < Pow256(k) else FitsSigned(n, k)
    case CFloat(bits) => spec.code == 4 && |bits| == 4
    case CMoment(year, month, day, hour, minute, second, micros) =>
      (spec.code == 7 || spec.code == 12) && Storable(year, month, day) && IsTime(hour, minute, second) && micros < 1000000
    case CDay(year, month, day) => (spec.code == 10 || spec.code == 14) && Storable(year, month, day)
    case CTime(_, days, hour, minute, second, micros) =>
      spec.code == 11 && IsTime(hour, minute, second) && days * 24 + hour <= MAX_HOURS && micros < 1000000
    case CParam(v) =>
      && !v.PNone? && IsPython(v) && ValueBytes(v).Some?
      && if v.PText? || v.PBytes? || v.PDecimal? then IsText(spec.code)
         else spec.code == TypeCode(v) && (v.PInt? ==> spec.unsigned == (TypeFlag(v) >= 128))
  }

  ghost predicate RowFits<V>(specs: seq<Spec<V>>, row: seq<Cell>) {
    |specs| == |row| && forall i :: 0 <= i < |row| ==> CellFits(specs[i], row[i])
  }

  ghost function CellBytes<V>(spec: Spec<V>, cell: Cell): Bytes
    requires CellFits(spec, cell)
  {
    match cell
    case CNull => []
    case CInt(n) =>
      var k := StoredWidth(spec.code);
      LittleEndian(if spec.unsigned || spec.code == 13 then n else Unsigned(n, k), k)
    case CFloat(bits) => bits
    case CMoment(year, month, day, hour, minute, second, micros) =>
      var f := MomentBody(year, month, day, hour, minute, second, micros);
      [|f|] + f
    case CDay(year, month, day) =>
      var f := MomentBody(year, month, day, 0, 0, 0, 0);
      [|f|] + f
    case CTime(negative, days, hour, minute, second, micros) =>
      var f := TimeBody(negative, days, hour, minute, second, micros);
      [|f|] + f
    case CParam(v) => ValueBytes(v).value
  }

  // No date has all its parts and yet is none, like the 30th of February.
  predicate CellReadable(cell: Cell) {
    match cell
    case CMoment(year, month, day, _, _, _, _) => ZeroPart(year, month, day) || IsDate(year, month, day)
    case CDay(year, month, day) => ZeroPart(year, month, day) || IsDate(year, month, day)
    case _ => true
  }

  predicate RowReadable(row: seq<Cell>) {
    forall cell :: cell in row ==> CellReadable(cell)
  }

  // The Python value of a cell: a bool comes back as an int and a time as a timedelta.
  function CellValue<V>(spec: Spec<V>, cell: Cell): RowValue<V> {
    match cell
    case CNull => RNone
    case CInt(n) => RInt(n)
    case CFloat(bits) => RReal(bits)
    case CMoment(year, month, day, hour, minute, second, micros) =>
      if IsDate(year, month, day) then RMoment(year, month, day, hour, minute, second, micros) else RNone
    case CDay(year, month, day) => if IsDate(year, month, day) then RDay(year, month, day) else RNone
    case CTime(negative, days, hour, minute, second, micros) =>
      var total := TotalMicros(days, hour * 3600 + minute * 60 + second, micros);
      RDelta(if negative then -total else total)
    case CParam(v) =>
      match v
      case PNone => RNone
      case PBool(b) => RInt(if b then 1 else 0)
      case PInt(n) => RInt(n)
      case PFloat(bits) => RReal(bits)
      case PText(bytes) => RText(spec.converter(bytes))
      case PBytes(bytes) => RText(spec.converter(bytes))
      case PDecimal(bytes) => RText(spec.converter(bytes))
      case PDateTime(year, month, day, hour, minute, second, micros) => RMoment(year, month, day, hour, minute, second, micros)
      case PDate(year, month, day) => RDay(year, month, day)
      case PDelta(days, seconds, micros) => RDelta(TotalMicros(days, seconds, micros))
      case PTime(hour, minute, second, micros) => RDelta(TotalMicros(0, hour * 3600 + minute * 60 + second, micros))
  }

  function NullBits(row: seq<Cell>): (flags: Flags)
    ensures |flags| == |row| + 2
  {
    [false, false] + seq(|row|, i requires 0 <= i < |row| => row[i].CNull?)
  }

  ghost function CellsFrom<V>(specs: seq<Spec<V>>, row: seq<Cell>, i: nat): Bytes
    requires RowFits(specs, row) && i <= |row|
    decreases |row| - i
  {
    if i == |row| then [] else CellBytes(specs[i], row[i]) + CellsFrom(specs, row, i + 1)
  }

  ghost function EncodeBinaryRow<V>(specs: seq<Spec<V>>, row: seq<Cell>): Bytes
    requires RowFits(specs, row)
  {
    [0] + Bitmap(NullBits(row)) + CellsFrom(specs, row, 0)
  }

  function RowValues<V>(specs: seq<Spec<V>>, row: seq<Cell>): (vs: seq<RowValue<V>>)
    requires |specs| == |row|
    ensures |vs| == |row|
  {
    seq(|row|, i requires 0 <= i < |row| => CellValue(specs[i], row[i]))
  }

  // ---- every value is recovered ----

  lemma IntRecovered<V>(spec: Spec<V>, n: int, rest: Bytes)
    requires CellFits(spec, CInt(n))
    ensures ParseValue(spec, CellBytes(spec, CInt(n)) + rest) == Ok(RInt(n), rest)
  {
    hide LittleEndian, FromLittleEndian, Pow256;
    var k := IntWidth(spec.code);
    UIntRoundTrip(if spec.unsigned || spec.code == 13 then n else Unsigned(n, k), k, rest);
  }

  lemma MomentRecovered<V>(v: Param, rest: Bytes)
    requires IsPython(v) && v.PDateTime?
    ensures ParseMoment<V>(ValueBytes(v).value + rest)
         == Ok(RMoment(v.year, v.month, v.day, v.hour, v.minute, v.second, v.micros), rest)
  {
    assert v.year < 0x1_0000 && v.month < 256 && v.day < 256;
    assert v.year >= 1 && 1 <= v.month <= 12 && 1 <= v.day <= 31;
    hide LittleEndian, FromLittleEndian, Field, IsDate;
    var middle: Bytes := [v.month, v.day, v.hour, v.minute, v.second];
    var f := LittleEndian(v.year, 2) + middle + LittleEndian(v.micros, 4);
    MomentFields(v.year, middle, v.micros);
    assert Field(f, 2 + 0, 1) == v.month && Field(f, 2 + 1, 1) == v.day;
    assert Field(f, 2 + 2, 1) == v.hour && Field(f, 2 + 3, 1) == v.minute && Field(f, 2 + 4, 1) == v.second;
    assert ValueBytes(v).value == [11] + f;
    FieldsAt(f, rest);
  }

  lemma DayRecovered<V>(v: Param, rest: Bytes)
    requires IsPython(v) && v.PDate?
    ensures ParseDay<V>(ValueBytes(v).value + rest) == Ok(RDay(v.year, v.month, v.day), rest)
  {
    assert v.year >= 1 && 1 <= v.month <= 12 && 1 <= v.day <= 31;
    hide FromLittleEndian, Field;
    var a := LittleEndian(v.year, 2);
    var f := a + [v.month, v.day];
    Widths();
    assert f == [] + a + [v.month, v.day];
    FieldAt([], v.year, 2, [v.month, v.day]);
    ByteField(f, 2);
    ByteField(f, 3);
    assert ValueBytes(v).value == [4] + f;
    FieldsAt(f, rest);
  }

  lemma ClockRecovered<V>(sign: Byte, days: nat, hour: Byte, minute: Byte, second: Byte, micros: nat, rest: Bytes)
    requires days < 0x1_0000_0000 && micros < 0x1_0000_0000
    ensures ParseDelta<V>([12, sign] + LittleEndian(days, 4) + [hour, minute, second] + LittleEndian(micros, 4) + rest)
         == DeltaOf<V>(sign != 0, days, hour * 3600 + minute * 60 + second, micros, rest)
  {
    hide LittleEndian, FromLittleEndian, Field, DeltaOf;
    var f := [sign] + LittleEndian(days, 4) + [hour, minute, second] + LittleEndian(micros, 4);
    ClockFields(sign, days, hour, minute, second, micros);
    assert [12, sign] + LittleEndian(days, 4) + [hour, minute, second] + LittleEndian(micros, 4) == [12] + f;
    FieldsAt(f, rest);
  }

  lemma DeltaRecovered<V>(v: Param, rest: Bytes)
    requires IsPython(v) && v.PDelta?
    ensures ParseDelta<V>(ValueBytes(v).value + rest) == Ok(RDelta(TotalMicros(v.days, v.seconds, v.micros)), rest)
  {
    hide LittleEndian, ParseDelta;
    SplitTotal(v.days, v.seconds, v.micros);
    var c := Split(v.days, v.seconds, v.micros);
    SecondsSplit(c.seconds);
    ClockRecovered<V>(if c.negative then 1 else 0, c.days, c.seconds / 3600, c.seconds % 3600 / 60, c.seconds % 60, c.micros, rest);
  }

  lemma TimeRecovered<V>(v: Param, rest: Bytes)
    requires IsPython(v) && v.PTime?
    ensures ParseDelta<V>(ValueBytes(v).value + rest)
         == Ok(RDelta(TotalMicros(0, v.hour * 3600 + v.minute * 60 + v.second, v.micros)), rest)
  {
    hide LittleEndian, ParseDelta;
    ClockRecovered<V>(0, 0, v.hour, v.minute, v.second, v.micros, rest);
  }

  // The fields of a body that starts with a year.
  lemma YearThen(f: Bytes, year: nat, tail: Bytes)
    requires year < 0x1_0000 && f == LittleEndian(year, 2) + tail
    ensures |f| == 2 + |tail| && Field(f, 0, 2) == year
    ensures forall i {:trigger tail[i]} :: 0 <= i < |tail| ==> Field(f, 2 + i, 1) == tail[i]
  {
    hide LittleEndian, FromLittleEndian, Field;
    Widths();
    assert f == [] + LittleEndian(year, 2) + tail;
    FieldAt([], year, 2, tail);
    forall i | 0 <= i < |tail|
      ensures Field(f, 2 + i, 1) == tail[i]
    {
      ByteField(f, 2 + i);
    }
  }

  // Whatever of a date and time is left out reads as zero.
  lemma MomentBodyFields(year: nat, month: Byte, day: Byte, hour: Byte, minute: Byte, second: Byte, micros: nat)
    requires year <= 9999 && micros < 1000000
    ensures var f := MomentBody(year, month, day, hour, minute, second, micros);
            && (f == [] ==> year == 0 && month == 0 && day == 0 && hour == 0 && minute == 0 && second == 0 && micros == 0)
            && (|f| >= 4 ==> Field(f, 0, 2) == year && Field(f, 2, 1) == month && Field(f, 3, 1) == day)
            && (if |f| >= 7 then Field(f, 4, 1) == hour && Field(f, 5, 1) == minute && Field(f, 6, 1) == second
                else hour == 0 && minute == 0 && second == 0)
            && if |f| >= 11 then Field(f, 7, 4) == micros else micros == 0
  {
    hide LittleEndian, FromLittleEndian, Field;
    var f := MomentBody(year, month, day, hour, minute, second, micros);
    var a, b, date, time: Bytes := LittleEndian(year, 2), LittleEndian(micros, 4), [month, day], [hour, minute, second];
    Widths();
    if micros > 0 {
      var tail := date + time + b;
      assert f == a + tail;
      YearThen(f, year, tail);
      assert tail[0] == month && tail[1] == day && tail[2] == hour && tail[3] == minute && tail[4] == second;
      assert f == (a + date + time) + b + [];
      FieldAt(a + date + time, micros, 4, []);
    } else if hour > 0 || minute > 0 || second > 0 {
      var tail := date + time;
      assert f == a + tail;
      YearThen(f, year, tail);
      assert tail[0] == month && tail[1] == day && tail[2] == hour && tail[3] == minute && tail[4] == second;
    } else if year > 0 || month > 0 || day > 0 {
      YearThen(f, year, date);
      assert date[0] == month && date[1] == day;
    }
  }

  // A served DATETIME or TIMESTAMP: a date with a zero part is None, a real one comes back whole, and
  // anything else raises.
  lemma MomentServed<V>(spec: Spec<V>, cell: Cell, rest: Bytes)
    requires CellFits(spec, cell) && cell.CMoment?
    ensures ParseValue(spec, CellBytes(spec, cell) + rest)
         == if CellReadable(cell) then Ok(CellValue(spec, cell), rest) else Error
  {
    assert Storable(cell.year, cell.month, cell.day);
    hide MomentBody, Field, IsDate, FromLittleEndian, LittleEndian;
    var f := MomentBody(cell.year, cell.month, cell.day, cell.hour, cell.minute, cell.second, cell.micros);
    MomentBodyFields(cell.year, cell.month, cell.day, cell.hour, cell.minute, cell.second, cell.micros);
    FieldsAt(f, rest);
    RealDate(cell.year, cell.month, cell.day);
  }

  lemma DayServed<V>(spec: Spec<V>, cell: Cell, rest: Bytes)
    requires CellFits(spec, cell) && cell.CDay?
    ensures ParseValue(spec, CellBytes(spec, cell) + rest)
         == if CellReadable(cell) then Ok(CellValue(spec, cell), rest) else Error
  {
    assert Storable(cell.year, cell.month, cell.day);
    hide MomentBody, Field, IsDate, FromLittleEndian, LittleEndian;
    var f := MomentBody(cell.year, cell.month, cell.day, 0, 0, 0, 0);
    MomentBodyFields(cell.year, cell.month, cell.day, 0, 0, 0, 0);
    FieldsAt(f, rest);
    RealDate(cell.year, cell.month, cell.day);
  }

  lemma RealDate(year: nat, month: nat, day: nat)
    ensures IsDate(year, month, day) ==> !ZeroPart(year, month, day)
  {
  }

  lemma TimeBodyFields(negative: bool, days: nat, hour: Byte, minute: Byte, second: Byte, micros: nat)
    requires days < 0x1_0000_0000 && micros < 1000000
    ensures var f := TimeBody(negative, days, hour, minute, second, micros);
            && (f == [] ==> days == 0 && hour == 0 && minute == 0 && second == 0 && micros == 0)
            && (|f| >= 8 ==>
                  && (Field(f, 0, 1) != 0 <==> negative) && Field(f, 1, 4) == days
                  && Field(f, 5, 1) == hour && Field(f, 6, 1) == minute && Field(f, 7, 1) == second)
            && if |f| >= 12 then Field(f, 8, 4) == micros else micros == 0
  {
    hide LittleEndian, FromLittleEndian, Field;
    var f := TimeBody(negative, days, hour, minute, second, micros);
    var sign := if negative then 1 else 0;
    if micros > 0 {
      ClockFields(sign, days, hour, minute, second, micros);
    } else if days > 0 || hour > 0 || minute > 0 || second > 0 {
      var a, middle: Bytes := LittleEndian(days, 4), [hour, minute, second];
      Widths();
      assert f == [sign] + a + middle;
      FieldAt([sign], days, 4, middle);
      ByteField(f, 0);
      ByteField(f, 5);
      ByteField(f, 6);
      ByteField(f, 7);
    }
  }

  lemma TimeServed<V>(spec: Spec<V>, cell: Cell, rest: Bytes)
    requires CellFits(spec, cell) && cell.CTime?
    ensures ParseValue(spec, CellBytes(spec, cell) + rest) == Ok(CellValue(spec, cell), rest)
  {
    hide TimeBody, Field, FromLittleEndian, LittleEndian;
    var f := TimeBody(cell.negative, cell.days, cell.hour, cell.minute, cell.second, cell.micros);
    TimeBodyFields(cell.negative, cell.days, cell.hour, cell.minute, cell.second, cell.micros);
    FieldsAt(f, rest);
  }

  // The 30th of February 2023, stored with ALLOW_INVALID_DATES: reading it raises.
  lemma FebruaryThirtieth<V>(spec: Spec<V>, rest: Bytes)
    requires spec.code == 7 || spec.code == 12 || spec.code == 10 || spec.code == 14
    ensures var cell := if spec.code == 7 || spec.code == 12 then CMoment(2023, 2, 30, 0, 0, 0, 0) else CDay(2023, 2, 30);
            && CellFits(spec, cell) && CellBytes(spec, cell) == [4, 231, 7, 2, 30]
            && ParseValue(spec, [4, 231, 7, 2, 30] + rest) == Error
  {
    assert LittleEndian(2023, 2) == [231, 7];
    if spec.code == 7 || spec.code == 12 {
      MomentServed(spec, CMoment(2023, 2, 30, 0, 0, 0, 0), rest);
    } else {
      DayServed(spec, CDay(2023, 2, 30), rest);
    }
  }

  // ---- any bytes in place of a date or a time ----

  function TwoBytes(a: int, b: int): int {
    a + 256 * b
  }

  function FourBytes(a: int, b: int, c: int, d: int): int {
    a + 256 * b + 0x1_0000 * c + 0x100_0000 * d
  }

  lemma WideField(f: Bytes, i: nat, k: nat)
    requires i + k <= |f| && k in {2, 4}
    ensures k == 2 ==> Field(f, i, 2) == TwoBytes(f[i], f[i + 1])
    ensures k == 4 ==> Field(f, i, 4) == FourBytes(f[i], f[i + 1], f[i + 2], f[i + 3])
  {
    var bs := f[i..i + k];
    assert FromLittleEndian(bs) == bs[0] + 256 * FromLittleEndian(bs[1..]);
    assert FromLittleEndian(bs[1..]) == bs[1] + 256 * FromLittleEndian(bs[1..][1..]);
    if k == 2 {
      assert bs[1..][1..] == [];
    } else {
      var cs := bs[1..][1..];
      assert cs == f[i + 2..i + 4];
      assert FromLittleEndian(cs) == cs[0] + 256 * FromLittleEndian(cs[1..]);
      assert FromLittleEndian(cs[1..]) == cs[1] + 256 * FromLittleEndian(cs[1..][1..]);
      assert cs[1..][1..] == [];
    }
  }

  // Where the parts of a DATETIME or TIMESTAMP stand, and what they do: a date with a part out of range is
  // None, a moment that exists is itself, and any other raises.
  lemma AnyMoment<V>(spec: Spec<V>, f: Bytes, rest: Bytes)
    requires (spec.code == 7 || spec.code == 12) && |f| in {4, 7, 11}
    ensures var year, month, day := TwoBytes(f[0], f[1]), f[2], f[3];
            var hour, minute, second := if |f| > 4 then f[4] else 0, if |f| > 4 then f[5] else 0, if |f| > 4 then f[6] else 0;
            var micros := if |f| > 7 then FourBytes(f[7], f[8], f[9], f[10]) else 0;
            ParseValue(spec, [|f|] + f + rest)
            == (if year == 0 || month == 0 || month > 12 || day == 0 || day > 31 then Ok(RNone, rest)
                else if IsDate(year, month, day) && IsTime(hour, minute, second) && micros <= 999999 then
                  Ok(RMoment(year, month, day, hour, minute, second, micros), rest)
                else Error)
  {
    hide Field, IsDate, IsTime;
    FieldsAt(f, rest);
    WideField(f, 0, 2);
    ByteField(f, 2);
    ByteField(f, 3);
    if |f| > 4 {
      ByteField(f, 4);
      ByteField(f, 5);
      ByteField(f, 6);
    }
    if |f| > 7 {
      WideField(f, 7, 4);
    }
  }

  lemma AnyDay<V>(spec: Spec<V>, f: Bytes, rest: Bytes)
    requires (spec.code == 10 || spec.code == 14) && |f| == 4
    ensures var year, month, day := TwoBytes(f[0], f[1]), f[2], f[3];
            ParseValue(spec, [|f|] + f + rest)
            == (if year == 0 || month == 0 || month > 12 || day == 0 || day > 31 then Ok(RNone, rest)
                else if IsDate(year, month, day) then Ok(RDay(year, month, day), rest)
                else Error)
  {
    hide Field, IsDate;
    FieldsAt(f, rest);
    WideField(f, 0, 2);
    ByteField(f, 2);
    ByteField(f, 3);
  }

  // A TIME is negative when its first byte is not zero; a timedelta has at most 999999999 days.
  lemma AnyTime<V>(spec: Spec<V>, f: Bytes, rest: Bytes)
    requires spec.code == 11 && |f| in {8, 12}
    ensures var days := FourBytes(f[1], f[2], f[3], f[4]);
            var micros := if |f| > 8 then FourBytes(f[8], f[9], f[10], f[11]) else 0;
            var total := (((days * 24 + f[5] as int) * 60 + f[6] as int) * 60 + f[7] as int) * 1000000 + micros;
            ParseValue(spec, [|f|] + f + rest)
            == (if f[0] == 0 then if total < 1000000000 * 86400000000 then Ok(RDelta(total), rest) else Error
                else if total <= 999999999 * 86400000000 then Ok(RDelta(-total), rest) else Error)
  {
    hide Field;
    FieldsAt(f, rest);
    ByteField(f, 0);
    WideField(f, 1, 4);
    ByteField(f, 5);
    ByteField(f, 6);
    ByteField(f, 7);
    if |f| > 8 {
      WideField(f, 8, 4);
    }
  }

  lemma ParamIntRecovered<V>(spec: Spec<V>, n: int, rest: Bytes)
    requires CellFits(spec, CParam(PInt(n)))
    ensures ParseValue(spec, ValueBytes(PInt(n)).value + rest) == Ok(RInt(n), rest)
  {
    Signed64(n);
    Widths();
    hide LittleEndian, Pow256, ParseValue;
    assert CellFits(spec, CInt(n)) && CellBytes(spec, CInt(n)) == ValueBytes(PInt(n)).value;
    IntRecovered(spec, n, rest);
  }

  lemma BoolRecovered<V>(spec: Spec<V>, b: bool, rest: Bytes)
    requires spec.code == 1
    ensures ParseValue(spec, [if b then 1 else 0] + rest) == Ok(RInt(if b then 1 else 0), rest)
  {
    var n: Byte := if b then 1 else 0;
    Widths();
    assert n % 256 == n && LittleEndian(n, 1) == [n] + LittleEndian(0, 0) == [n];
    IntRecovered(spec, n, rest);
  }

  lemma ParamRecovered<V>(spec: Spec<V>, v: Param, rest: Bytes)
    requires CellFits(spec, CParam(v))
    ensures ParseValue(spec, ValueBytes(v).value + rest) == Ok(CellValue(spec, CParam(v)), rest)
  {
    hide ParseMoment, ParseDay, ParseDelta, ParseInt, StringOf, LittleEndian, FromLittleEndian;
    match v
    case PBool(b) => BoolRecovered(spec, b, rest);
    case PInt(n) => ParamIntRecovered(spec, n, rest);
    case PFloat(bits) => TakeFront(bits, rest);
    case PText(bytes) => StringRoundTrip(bytes, rest);
    case PBytes(bytes) => StringRoundTrip(bytes, rest);
    case PDecimal(bytes) => StringRoundTrip(bytes, rest);
    case PDateTime(_, _, _, _, _, _, _) => MomentRecovered<V>(v, rest);
    case PDate(_, _, _) => DayRecovered<V>(v, rest);
    case PDelta(_, _, _) => DeltaRecovered<V>(v, rest);
    case PTime(_, _, _, _) => TimeRecovered<V>(v, rest);
  }

  // A value comes back exactly when it is no impossible date, which raises.
  lemma CellRecovered<V>(spec: Spec<V>, cell: Cell, rest: Bytes)
    requires CellFits(spec, cell) && !cell.CNull?
    ensures ParseValue(spec, CellBytes(spec, cell) + rest)
         == if CellReadable(cell) then Ok(CellValue(spec, cell), rest) else Error
  {
    match cell
    case CInt(n) => IntRecovered(spec, n, rest);
    case CFloat(bits) => TakeFront(bits, rest);
    case CMoment(_, _, _, _, _, _, _) => MomentServed(spec, cell, rest);
    case CDay(_, _, _) => DayServed(spec, cell, rest);
    case CTime(_, _, _, _, _, _) => TimeServed(spec, cell, rest);
    case CParam(v) => ParamRecovered(spec, v, rest);
  }

  lemma {:induction false} ParseFromRoundTrip<V>(specs: seq<Spec<V>>, row: seq<Cell>, i: nat)
    requires RowFits(specs, row) && i <= |row|
    ensures |Bitmap(NullBits(row))| == (|specs| + 9) / 8
    ensures ParseFrom(Bitmap(NullBits(row)), specs, i, CellsFrom(specs, row, i))
         == if RowReadable(row[i..]) then Some(RowValues(specs, row)[i..]) else None
    decreases |row| - i
  {
    hide ParseValue, CellBytes, CellFits, CellValue, CellReadable, Bitmap, BitGet;
    if i < |row| {
      BitmapGet(NullBits(row), i + 2);
      var tail := CellsFrom(specs, row, i + 1);
      if row[i].CNull? {
        NullCell(specs[i], row[i], tail);
      } else {
        CellRecovered(specs[i], row[i], tail);
      }
      ParseFromRoundTrip(specs, row, i + 1);
      assert row[i..] == [row[i]] + row[i + 1..];
      assert RowValues(specs, row)[i..] == [CellValue(specs[i], row[i])] + RowValues(specs, row)[i + 1..];
    } else {
      assert RowValues(specs, row)[i..] == [];
    }
  }

  lemma NullCell<V>(spec: Spec<V>, cell: Cell, tail: Bytes)
    requires cell.CNull?
    ensures CellFits(spec, cell) && CellBytes(spec, cell) + tail == tail && CellValue(spec, cell) == RNone
    ensures CellReadable(cell)
  {
  }

  // The parser gives back a row exactly when it holds no impossible date, and otherwise raises.
  lemma BinaryRowRoundTrip<V>(specs: seq<Spec<V>>, row: seq<Cell>)
    requires RowFits(specs, row)
    ensures ParseBinaryRow(EncodeBinaryRow(specs, row), specs)
         == if RowReadable(row) then Some(RowValues(specs, row)) else None
  {
    var p, k := EncodeBinaryRow(specs, row), (|specs| + 9) / 8;
    ParseFromRoundTrip(specs, row, 0);
    hide ParseFrom, Bitmap, CellsFrom, RowValues, RowReadable;
    assert p[1..1 + k] == Bitmap(NullBits(row)) && p[1 + k..] == CellsFrom(specs, row, 0);
    assert RowValues(specs, row)[0..] == RowValues(specs, row) && row[0..] == row;
  }

  // The method: the row is filled from left to right.
  method ParseRow<V>(p: Bytes, specs: seq<Spec<V>>) returns (result: Option<seq<RowValue<V>>>)
    ensures result == ParseBinaryRow(p, specs)
  {
    hide ParseValue, BitGet;
    var n := |specs|;
    var bitmapLen := (n + 9) / 8;
    var pos: nat := 1 + bitmapLen;
    if |p| < pos {
      return None;
    }
    var bitmap := p[1..pos];
    var row: seq<RowValue<V>> := [];
    ghost var whole := ParseFrom(bitmap, specs, 0, p[pos..]);
    AppendNothing(whole);
    for i := 0 to n
      invariant pos <= |p| && whole == Append(row, ParseFrom(bitmap, specs, i, p[pos..]))
    {
      if BitGet(bitmap, i + 2) {
        AppendCons(row, RNone, ParseFrom(bitmap, specs, i + 1, p[pos..]));
        row := row + [RNone];
      } else {
        match ParseValue(specs[i], p[pos..]) {
          case Error => return None;
          case Ok(v, rest) =>
            ValueConsumes(specs[i], p, pos);
            AppendCons(row, v, ParseFrom(bitmap, specs, i + 1, rest));
            row := row + [v];
            pos := |p| - |rest|;
        }
      }
    }
    assert row + [] == row;
    return Some(row);
  }

  // A value takes bytes from the front.
  ghost predicate Suffix(rest: Bytes, s: Bytes) {
    |rest| <= |s| && rest == s[|s| - |rest|..]
  }

  lemma ValueConsumes<V>(spec: Spec<V>, p: Bytes, pos: nat)
    requires pos <= |p| && ParseValue(spec, p[pos..]).Ok?
    ensures Suffix(ParseValue(spec, p[pos..]).rest, p)
  {
    ValueSuffix(spec, p[pos..]);
    hide ParseValue;
    var rest := ParseValue(spec, p[pos..]).rest;
    assert p[pos..][|p| - pos - |rest|..] == p[|p| - |rest|..];
  }

  lemma ValueSuffix<V>(spec: Spec<V>, s: Bytes)
    ensures var r := ParseValue(spec, s); r.Ok? ==> Suffix(r.rest, s)
  {
    hide FromLittleEndian, Signed, Field, IsDate, IsTime, TotalMicros, StringOf;
    StringSuffix(s);
  }

  lemma StringSuffix(s: Bytes)
    ensures var r := StringOf(s); r.Ok? ==> Suffix(r.rest, s)
  {
    hide FromLittleEndian;
  }

  // ---- result sets of binary rows ----

  ghost predicate TableFits<V>(specs: seq<Spec<V>>, table: seq<seq<Cell>>) {
    forall i :: 0 <= i < |table| ==> RowFits(specs, table[i])
  }

  ghost function EncodeBinaryRows<V>(specs: seq<Spec<V>>, table: seq<seq<Cell>>): (ps: seq<Bytes>)
    requires TableFits(specs, table)
    ensures |ps| == |table|
    ensures forall i :: 0 <= i < |table| ==> ps[i] == EncodeBinaryRow(specs, table[i])
  {
    seq(|table|, i requires 0 <= i < |table| => EncodeBinaryRow(specs, table[i]))
  }

  ghost function TableValues<V>(specs: seq<Spec<V>>, table: seq<seq<Cell>>): (rows: seq<seq<RowValue<V>>>)
    requires TableFits(specs, table)
    ensures |rows| == |table|
    ensures forall i :: 0 <= i < |table| ==> rows[i] == RowValues(specs, table[i])
  {
    seq(|table|, i requires 0 <= i < |table| => RowValues(specs, table[i]))
  }

  function BinaryRowParser<V>(specs: seq<Spec<V>>): Bytes -> Option<seq<RowValue<V>>> {
    (p: Bytes) => ParseBinaryRow(p, specs)
  }

  // The header byte keeps a binary row from looking like a terminating packet, so reading returns the
  // server's rows, whether EOF packets are in use or not, if and only if there is no impossible date
  // among them; otherwise it raises.
  lemma ReadBinaryResultSet<V>(specs: seq<Spec<V>>, table: seq<seq<Cell>>, endPacket: Bytes, end: End, seqId: Byte,
                               rest: Bytes, deprecateEof: bool)
    requires TableFits(specs, table)
    requires IsEnd(endPacket, deprecateEof) && ParseEnd(endPacket, deprecateEof) == Some(end)
    ensures var payloads := EncodeBinaryRows(specs, table);
            (ReadRows(ResultStream(payloads, endPacket, seqId, rest), seqId, deprecateEof, BinaryRowParser(specs))
             == if forall row :: row in table ==> RowReadable(row) then
                  Done(RowSet(TableValues(specs, table), end), rest, SeqAfterAll(payloads + [endPacket], seqId))
                else Failed(MalformedRow))
  {
    hide RowReadable, ReadRows, ResultStream, IsEnd, ParseEnd, SeqAfterAll, TableFits, BinaryRowParser;
    var good := seq(|table|, i requires 0 <= i < |table| => RowReadable(table[i]));
    RowsParse(specs, table, deprecateEof);
    ReadRowsAllOrNone(EncodeBinaryRows(specs, table), TableValues(specs, table), good, endPacket, end, seqId, rest,
                      deprecateEof, BinaryRowParser(specs));
    AllGood(table, good);
  }

  lemma AllGood(table: seq<seq<Cell>>, good: seq<bool>)
    requires |good| == |table| && forall i :: 0 <= i < |table| ==> good[i] == RowReadable(table[i])
    ensures false !in good <==> forall row :: row in table ==> RowReadable(row)
  {
    hide RowReadable;
    if false in good {
      var i :| 0 <= i < |good| && !good[i];
      assert table[i] in table;
    }
  }

  lemma RowsParse<V>(specs: seq<Spec<V>>, table: seq<seq<Cell>>, deprecateEof: bool)
    requires TableFits(specs, table)
    ensures forall p :: p in EncodeBinaryRows(specs, table) ==> !IsErrorPacket(p) && !IsEnd(p, deprecateEof)
    ensures forall i :: 0 <= i < |table| ==>
              BinaryRowParser(specs)(EncodeBinaryRows(specs, table)[i])
              == if RowReadable(table[i]) then Some(TableValues(specs, table)[i]) else None
  {
    hide ParseBinaryRow, RowValues, RowReadable;
    forall i | 0 <= i < |table|
      ensures BinaryRowParser(specs)(EncodeBinaryRows(specs, table)[i])
           == if RowReadable(table[i]) then Some(TableValues(specs, table)[i]) else None
      ensures EncodeBinaryRows(specs, table)[i] != [] && EncodeBinaryRows(specs, table)[i][0] == 0
    {
      BinaryRowRoundTrip(specs, table[i]);
    }
  }
}
