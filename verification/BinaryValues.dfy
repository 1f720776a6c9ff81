// Parameters in the binary protocol: what the client sends and what the server makes of it.
module BinaryValues {
  import opened Binary
  import opened Bitmaps
  import opened Calendar
  import opened Readers
  import opened TextRows

  // A Python argument. Texts are in the connection's encoding; objects of any other class are sent as
  // the text of their str().
  datatype Param =
    | PNone
    | PBool(b: bool)
    | PInt(n: int)
    | PFloat(bits: Bytes)
    | PText(bytes: Bytes)
    | PBytes(bytes: Bytes)
    | PDateTime(year: nat, month: nat, day: nat, hour: nat, minute: nat, second: nat, micros: nat)
    | PDate(year: nat, month: nat, day: nat)
    | PDelta(days: int, seconds: nat, micros: nat)
    | PTime(hour: nat, minute: nat, second: nat, micros: nat)
    | PDecimal(bytes: Bytes)

  // What Python guarantees of its objects.
  predicate IsPython(v: Param) {
    match v
    case PFloat(bits) => |bits| == 8
    case PText(bytes) => |bytes| < LENGTH_LIMIT
    case PBytes(bytes) => |bytes| < LENGTH_LIMIT
    case PDecimal(bytes) => |bytes| < LENGTH_LIMIT
    case PDateTime(year, month, day, hour, minute, second, micros) =>
      IsDate(year, month, day) && IsTime(hour, minute, second) && micros < 1000000
    case PDate(year, month, day) => IsDate(year, month, day)
    case PDelta(days, seconds, micros) => -999999999 <= days <= 999999999 && seconds < 86400 && micros < 1000000
    case PTime(hour, minute, second, micros) => IsTime(hour, minute, second) && micros < 1000000
    case _ => true
  }

  predicate AllPython(args: seq<Param>) {
    forall v :: v in args ==> IsPython(v)
  }

  // ---- sending ----

  function TypeCode(v: Param): Byte {
    match v
    case PNone => 6
    case PBool(_) => 1
    case PInt(_) => 8
    case PFloat(_) => 5
    case PText(_) => 253
    case PBytes(_) => 252
    case PDateTime(_, _, _, _, _, _, _) => 12
    case PDate(_, _, _) => 10
    case PDelta(_, _, _) => 11
    case PTime(_, _, _, _) => 11
    case PDecimal(_) => 246
  }

  predicate Fits64(n: int) {
    -0x8000_0000_0000_0000 <= n < 0x8000_0000_0000_0000
  }

  // The flag byte is 0x80 for an integer that only fits without a sign.
  function TypeFlag(v: Param): Byte {
    if v.PInt? && !Fits64(v.n) then 0x80 else 0
  }

  // A duration as a sign and components that are not negative.
  datatype Clock = Clock(negative: bool, days: nat, seconds: nat, micros: nat)

  // Python's timedelta has a negative day count and seconds that count up from it.
  function Split(days: int, seconds: nat, micros: nat): Clock
    requires seconds < 86400 && micros < 1000000
  {
    if days >= 0 then Clock(false, days, seconds, micros)
    else if seconds == 0 && micros == 0 then Clock(true, -days, 0, 0)
    else if micros == 0 then Clock(true, -days - 1, 86400 - seconds, 0)
    else Clock(true, -days - 1, 86400 - seconds - 1, 1000000 - micros)
  }

  // Borrowing keeps the duration.
  lemma SplitTotal(days: int, seconds: nat, micros: nat)
    requires -999999999 <= days <= 999999999 && seconds < 86400 && micros < 1000000
    ensures var c := Split(days, seconds, micros);
            && TotalMicros(days, seconds, micros)
               == (if c.negative then -1 else 1) * TotalMicros(c.days, c.seconds, c.micros)
            && c.days <= 999999999 && c.seconds < 86400 && c.micros < 1000000
  {
  }

  function ClockBytes(c: Clock): Bytes
    requires c.seconds < 86400
  {
    [12, if c.negative then 1 else 0] + LittleEndian(c.days, 4)
    + [c.seconds / 3600, c.seconds % 3600 / 60, c.seconds % 60] + LittleEndian(c.micros, 4)
  }

  function LengthString(bytes: Bytes): Bytes
    requires |bytes| < LENGTH_LIMIT
  {
    LengthEncoded(|bytes|) + bytes
  }

  // _append_binary_value appends this; None stands for its ValueError.
  function ValueBytes(v: Param): Option<Bytes>
    requires IsPython(v)
  {
    match v
    case PNone => Some([])
    case PBool(b) => Some([if b then 1 else 0])
    case PInt(n) =>
      if Fits64(n) then Some(LittleEndian(Unsigned(n, 8), 8))
      else if 0 < n < LENGTH_LIMIT then Some(LittleEndian(n, 8))
      else None
    case PFloat(bits) => Some(bits)
    case PText(bytes) => Some(LengthString(bytes))
    case PBytes(bytes) => Some(LengthString(bytes))
    case PDateTime(year, month, day, hour, minute, second, micros) =>
      Some([11] + LittleEndian(year, 2) + [month, day, hour, minute, second] + LittleEndian(micros, 4))
    case PDate(year, month, day) => Some([4] + LittleEndian(year, 2) + [month, day])
    case PDelta(days, seconds, micros) =>
      SplitTotal(days, seconds, micros);
      Some(ClockBytes(Split(days, seconds, micros)))
    case PTime(hour, minute, second, micros) =>
      Some([12, 0] + LittleEndian(0, 4) + [hour, minute, second] + LittleEndian(micros, 4))
    case PDecimal(bytes) => Some(LengthString(bytes))
  }

  // ---- what the server makes of one value ----

  datatype ServerValue =
    | SNull
    | SInt(n: int)
    | SDouble(bits: Bytes)
    | SString(code: Byte, bytes: Bytes)
    | SMoment(year: nat, month: nat, day: nat, hour: nat, minute: nat, second: nat, micros: nat)
    | SDay(year: nat, month: nat, day: nat)
    | SDuration(total: int)

  function LengthOf(s: Bytes): Parsed<nat> {
    if s == [] then Error
    else if s[0] < 251 then Ok(s[0], s[1..])
    else
      match s[0]
      case 252 => UInt(s[1..], 2)
      case 253 => UInt(s[1..], 3)
      case 254 => UInt(s[1..], 8)
      case _ => Error
  }

  function StringOf(s: Bytes): Parsed<Bytes> {
    match LengthOf(s)
    case Error => Error
    case Ok(n, rest) => Take(rest, n)
  }

  // A length byte and that many bytes.
  function Fields(s: Bytes): Parsed<Bytes> {
    if s == [] then Error else Take(s[1..], s[0])
  }

  function Field(f: Bytes, i: nat, k: nat): nat {
    if i + k <= |f| then FromLittleEndian(f[i..i + k]) else 0
  }

  function DecodeMoment(s: Bytes): Parsed<ServerValue> {
    match Fields(s)
    case Error => Error
    case Ok(f, rest) =>
      if |f| !in {0, 4, 7, 11} then Error
      else Ok(SMoment(Field(f, 0, 2), Field(f, 2, 1), Field(f, 3, 1), Field(f, 4, 1), Field(f, 5, 1), Field(f, 6, 1),
                      Field(f, 7, 4)), rest)
  }

  function DecodeDay(s: Bytes): Parsed<ServerValue> {
    match Fields(s)
    case Error => Error
    case Ok(f, rest) => if |f| !in {0, 4} then Error else Ok(SDay(Field(f, 0, 2), Field(f, 2, 1), Field(f, 3, 1)), rest)
  }

  function DecodeDuration(s: Bytes): Parsed<ServerValue> {
    match Fields(s)
    case Error => Error
    case Ok(f, rest) =>
      if |f| !in {0, 8, 12} then Error
      else
        var total := TotalMicros(Field(f, 1, 4), Field(f, 5, 1) * 3600 + Field(f, 6, 1) * 60 + Field(f, 7, 1), Field(f, 8, 4));
        Ok(SDuration(if Field(f, 0, 1) == 1 then -total else total), rest)
  }

  function AsServerInt(r: Parsed<int>): Parsed<ServerValue> {
    match r
    case Error => Error
    case Ok(n, rest) => Ok(SInt(n), rest)
  }

  // One value, read by its type code and flag.
  function DecodeValue(code: Byte, unsigned: bool, s: Bytes): Parsed<ServerValue> {
    match code
    case 1 => AsServerInt(if unsigned then UInt(s, 1) else Int(s, 1))
    case 8 => AsServerInt(if unsigned then UInt(s, 8) else Int(s, 8))
    case 5 =>
      (match Take(s, 8)
       case Error => Error
       case Ok(bits, rest) => Ok(SDouble(bits), rest))
    case 10 => DecodeDay(s)
    case 11 => DecodeDuration(s)
    case 12 => DecodeMoment(s)
    case _ =>
      if code !in {246, 252, 253} then Error
      else
        match StringOf(s)
        case Error => Error
        case Ok(bytes, rest) => Ok(SString(code, bytes), rest)
  }

  // The value an argument stands for.
  function Meaning(v: Param): ServerValue {
    match v
    case PNone => SNull
    case PBool(b) => SInt(if b then 1 else 0)
    case PInt(n) => SInt(n)
    case PFloat(bits) => SDouble(bits)
    case PText(bytes) => SString(253, bytes)
    case PBytes(bytes) => SString(252, bytes)
    case PDateTime(year, month, day, hour, minute, second, micros) => SMoment(year, month, day, hour, minute, second, micros)
    case PDate(year, month, day) => SDay(year, month, day)
    case PDelta(days, seconds, micros) => SDuration(TotalMicros(days, seconds, micros))
    case PTime(hour, minute, second, micros) => SDuration(TotalMicros(0, hour * 3600 + minute * 60 + second, micros))
    case PDecimal(bytes) => SString(246, bytes)
  }

  lemma LengthRoundTrip(n: nat, rest: Bytes)
    requires n < LENGTH_LIMIT
    ensures LengthOf(LengthEncoded(n) + rest) == Ok(n, rest)
  {
    hide LittleEndian, FromLittleEndian, UInt;
    var s := LengthEncoded(n) + rest;
    Widths();
    if n < 251 {
      assert s[1..] == rest;
    } else {
      var k := if n < 0x1_0000 then 2 else if n < 0x100_0000 then 3 else 8;
      assert s[1..] == LittleEndian(n, k) + rest;
      UIntRoundTrip(n, k, rest);
    }
  }

  lemma Widths()
    ensures Pow256(1) == 256 && Pow256(2) == 0x1_0000 && Pow256(3) == 0x100_0000 && Pow256(4) == 0x1_0000_0000
    ensures Pow256(8) == LENGTH_LIMIT
  {
  }

  lemma StringRoundTrip(bytes: Bytes, rest: Bytes)
    requires |bytes| < LENGTH_LIMIT
    ensures StringOf(LengthString(bytes) + rest) == Ok(bytes, rest)
  {
    hide LengthEncoded, LengthOf;
    assert LengthString(bytes) + rest == LengthEncoded(|bytes|) + (bytes + rest);
    LengthRoundTrip(|bytes|, bytes + rest);
    TakeFront(bytes, rest);
  }

  lemma FieldsAt(f: Bytes, rest: Bytes)
    requires |f| < 256
    ensures Fields([|f|] + f + rest) == Ok(f, rest)
  {
    assert ([|f|] + f + rest)[1..] == f + rest;
    TakeFront(f, rest);
  }

  lemma FieldAt(before: Bytes, n: nat, k: nat, after: Bytes)
    requires n < Pow256(k)
    ensures Field(before + LittleEndian(n, k) + after, |before|, k) == n
  {
    var f := before + LittleEndian(n, k) + after;
    assert f[|before|..|before| + k] == LittleEndian(n, k);
    LittleEndianRoundTrip(n, k);
  }

  lemma ByteField(f: Bytes, i: nat)
    requires i < |f|
    ensures Field(f, i, 1) == f[i]
  {
    var b: Bytes := [f[i]];
    assert f[i..i + 1] == b && b[1..] == [];
    assert FromLittleEndian(b) == b[0];
  }

  // year, then bytes, then microseconds
  lemma MomentFields(year: nat, middle: Bytes, micros: nat)
    requires year < 0x1_0000 && micros < 0x1_0000_0000 && |middle| == 5
    ensures var f := LittleEndian(year, 2) + middle + LittleEndian(micros, 4);
            && |f| == 11 && Field(f, 0, 2) == year && Field(f, 7, 4) == micros
            && forall i :: 0 <= i < 5 ==> Field(f, 2 + i, 1) == middle[i]
  {
    var a, b := LittleEndian(year, 2), LittleEndian(micros, 4);
    var f := a + middle + b;
    Widths();
    assert f == [] + a + (middle + b);
    FieldAt([], year, 2, middle + b);
    assert f == (a + middle) + b + [];
    FieldAt(a + middle, micros, 4, []);
    forall i | 0 <= i < 5
      ensures Field(f, 2 + i, 1) == middle[i]
    {
      ByteField(f, 2 + i);
    }
  }

  lemma MomentRoundTrip(v: Param, rest: Bytes)
    requires IsPython(v) && v.PDateTime?
    ensures DecodeMoment(ValueBytes(v).value + rest) == Ok(Meaning(v), rest)
  {
    assert v.year < 0x1_0000 && v.month < 256 && v.day < 256;
    hide LittleEndian, FromLittleEndian, Field, IsDate;
    var middle: Bytes := [v.month, v.day, v.hour, v.minute, v.second];
    var f := LittleEndian(v.year, 2) + middle + LittleEndian(v.micros, 4);
    MomentFields(v.year, middle, v.micros);
    assert Field(f, 2 + 0, 1) == v.month && Field(f, 2 + 1, 1) == v.day;
    assert Field(f, 2 + 2, 1) == v.hour && Field(f, 2 + 3, 1) == v.minute && Field(f, 2 + 4, 1) == v.second;
    assert ValueBytes(v).value == [11] + f;
    FieldsAt(f, rest);
  }

  lemma DayRoundTrip(v: Param, rest: Bytes)
    requires IsPython(v) && v.PDate?
    ensures DecodeDay(ValueBytes(v).value + rest) == Ok(Meaning(v), rest)
  {
    hide FromLittleEndian, Field;
    var a := LittleEndian(v.year, 2);
    var f := a + [v.month, v.day];
    Widths();
    assert f == [] + a + [v.month, v.day];
    FieldAt([], v.year, 2, [v.month, v.day]);
    ByteField(f, 2);
    ByteField(f, 3);
    assert ValueBytes(v).value == [4] + f;
    FieldsAt(f, rest);
  }

  lemma ClockFields(sign: Byte, days: nat, hour: Byte, minute: Byte, second: Byte, micros: nat)
    requires days < 0x1_0000_0000 && micros < 0x1_0000_0000
    ensures var f := [sign] + LittleEndian(days, 4) + [hour, minute, second] + LittleEndian(micros, 4);
            && |f| == 12 && Field(f, 0, 1) == sign && Field(f, 1, 4) == days && Field(f, 5, 1) == hour
            && Field(f, 6, 1) == minute && Field(f, 7, 1) == second && Field(f, 8, 4) == micros
  {
    hide LittleEndian, FromLittleEndian, Field;
    var a, b := LittleEndian(days, 4), LittleEndian(micros, 4);
    var middle: Bytes := [hour, minute, second];
    var f := [sign] + a + middle + b;
    Widths();
    assert f == [sign] + a + (middle + b);
    FieldAt([sign], days, 4, middle + b);
    assert f == ([sign] + a + middle) + b + [];
    FieldAt([sign] + a + middle, micros, 4, []);
    ByteField(f, 0);
    ByteField(f, 5);
    ByteField(f, 6);
    ByteField(f, 7);
  }

  lemma DurationRoundTrip(sign: Byte, days: nat, hour: Byte, minute: Byte, second: Byte, micros: nat, rest: Bytes)
    requires days < 0x1_0000_0000 && micros < 0x1_0000_0000
    ensures var total := TotalMicros(days, hour * 3600 + minute * 60 + second, micros);
            (DecodeDuration([12, sign] + LittleEndian(days, 4) + [hour, minute, second] + LittleEndian(micros, 4) + rest)
             == Ok(SDuration(if sign == 1 then -total else total), rest))
  {
    hide LittleEndian, FromLittleEndian, Field, TotalMicros;
    var f := [sign] + LittleEndian(days, 4) + [hour, minute, second] + LittleEndian(micros, 4);
    ClockFields(sign, days, hour, minute, second, micros);
    assert [12, sign] + LittleEndian(days, 4) + [hour, minute, second] + LittleEndian(micros, 4) == [12] + f;
    FieldsAt(f, rest);
  }

  // Hours, minutes and seconds make up the seconds of the day.
  lemma SecondsSplit(seconds: nat)
    requires seconds < 86400
    ensures seconds / 3600 * 3600 + seconds % 3600 / 60 * 60 + seconds % 60 == seconds && seconds / 3600 < 24
  {
    var r := seconds % 3600;
    assert seconds % 60 == r % 60;
  }

  lemma DeltaRoundTrip(v: Param, rest: Bytes)
    requires IsPython(v) && v.PDelta?
    ensures DecodeDuration(ValueBytes(v).value + rest) == Ok(Meaning(v), rest)
  {
    hide LittleEndian, DecodeDuration;
    SplitTotal(v.days, v.seconds, v.micros);
    var c := Split(v.days, v.seconds, v.micros);
    SecondsSplit(c.seconds);
    DurationRoundTrip(if c.negative then 1 else 0, c.days, c.seconds / 3600, c.seconds % 3600 / 60, c.seconds % 60, c.micros, rest);
  }

  lemma TimeRoundTrip(v: Param, rest: Bytes)
    requires IsPython(v) && v.PTime?
    ensures DecodeDuration(ValueBytes(v).value + rest) == Ok(Meaning(v), rest)
  {
    hide LittleEndian, DecodeDuration, TotalMicros;
    DurationRoundTrip(0, 0, v.hour, v.minute, v.second, v.micros, rest);
  }

  lemma Signed64(n: int)
    ensures Fits64(n) <==> FitsSigned(n, 8)
  {
    Widths();
  }

  lemma BoolRoundTrip(v: Param, rest: Bytes)
    requires v.PBool?
    ensures DecodeValue(TypeCode(v), TypeFlag(v) >= 128, ValueBytes(v).value + rest) == Ok(Meaning(v), rest)
  {
    var s := ValueBytes(v).value + rest;
    Widths();
    assert s[..1] == [s[0]] && [s[0]][1..] == [] && s[1..] == rest;
    assert FromLittleEndian(s[..1]) == s[0];
  }

  lemma IntegerRoundTrip(v: Param, rest: Bytes)
    requires v.PInt? && ValueBytes(v).Some?
    ensures DecodeValue(TypeCode(v), TypeFlag(v) >= 128, ValueBytes(v).value + rest) == Ok(Meaning(v), rest)
  {
    Signed64(v.n);
    Widths();
    hide LittleEndian, FromLittleEndian, Pow256;
    if Fits64(v.n) {
      IntRoundTrip(v.n, 8, rest);
    } else {
      UIntRoundTrip(v.n, 8, rest);
    }
  }

  // What was appended, the server reads back as the argument's value, whatever follows it.
  lemma ValueRoundTrip(v: Param, rest: Bytes)
    requires IsPython(v) && !v.PNone? && ValueBytes(v).Some?
    ensures DecodeValue(TypeCode(v), TypeFlag(v) >= 128, ValueBytes(v).value + rest) == Ok(Meaning(v), rest)
  {
    hide LittleEndian, FromLittleEndian, Pow256, DecodeMoment, DecodeDay, DecodeDuration, Split, TotalMicros, IsDate;
    match v
    case PBool(_) => BoolRoundTrip(v, rest);
    case PInt(_) => IntegerRoundTrip(v, rest);
    case PFloat(bits) => TakeFront(bits, rest);
    case PText(bytes) => StringRoundTrip(bytes, rest);
    case PBytes(bytes) => StringRoundTrip(bytes, rest);
    case PDecimal(bytes) => StringRoundTrip(bytes, rest);
    case PDateTime(_, _, _, _, _, _, _) => MomentRoundTrip(v, rest);
    case PDate(_, _, _) => DayRoundTrip(v, rest);
    case PDelta(_, _, _) => DeltaRoundTrip(v, rest);
    case PTime(_, _, _, _) => TimeRoundTrip(v, rest);
  }

  // ---- COM_STMT_EXECUTE ----

  function Nulls(args: seq<Param>): (flags: Flags)
    ensures |flags| == |args|
  {
    seq(|args|, i requires 0 <= i < |args| => args[i].PNone?)
  }

  function Types(args: seq<Param>): (bs: Bytes)
    ensures |bs| == 2 * |args|
    ensures forall i :: 0 <= i < |args| ==> bs[2 * i] == TypeCode(args[i]) && bs[2 * i + 1] == TypeFlag(args[i])
  {
    if args == [] then []
    else Types(args[..|args| - 1]) + [TypeCode(args[|args| - 1]), TypeFlag(args[|args| - 1])]
  }

  function Join(a: Option<Bytes>, b: Option<Bytes>): Option<Bytes> {
    if a.Some? && b.Some? then Some(a.value + b.value) else None
  }

  // The values of the arguments from the i-th on.
  function ValuesFrom(args: seq<Param>, i: nat): Option<Bytes>
    requires AllPython(args) && i <= |args|
    decreases |args| - i
  {
    if i == |args| then Some([]) else Join(ValueBytes(args[i]), ValuesFrom(args, i + 1))
  }

  // pack_binary_params
  function Pack(args: seq<Param>): Option<Bytes>
    requires AllPython(args)
  {
    match ValuesFrom(args, 0)
    case None => None
    case Some(values) => Some(Bitmap(Nulls(args)) + [1] + Types(args) + values)
  }

  // The server's side: values from the i-th parameter on.
  function DecodeFrom(nulls: Bytes, types: Bytes, i: nat, s: Bytes): Parsed<seq<ServerValue>>
    requires |nulls| == (|types| / 2 + 7) / 8 && i <= |types| / 2
    decreases |types| / 2 - i
  {
    if i == |types| / 2 then Ok([], s)
    else
      match if BitGet(nulls, i) then Ok(SNull, s) else DecodeValue(types[2 * i], types[2 * i + 1] >= 128, s)
      case Error => Error
      case Ok(v, rest) =>
        match DecodeFrom(nulls, types, i + 1, rest)
        case Error => Error
        case Ok(vs, rest') => Ok([v] + vs, rest')
  }

  // The null bitmap, the new-params-bound flag, a type and a flag per parameter, the values, and no more.
  function DecodeExecute(n: nat, payload: Bytes): Option<seq<ServerValue>> {
    var k := (n + 7) / 8;
    if |payload| < k + 1 + 2 * n || payload[k] != 1 then None
    else
      match DecodeFrom(payload[..k], payload[k + 1..k + 1 + 2 * n], 0, payload[k + 1 + 2 * n..])
      case Error => None
      case Ok(vs, rest) => if rest == [] then Some(vs) else None
  }

  function Meanings(args: seq<Param>): (vs: seq<ServerValue>)
    ensures |vs| == |args|
    ensures forall i :: 0 <= i < |args| ==> vs[i] == Meaning(args[i])
  {
    seq(|args|, i requires 0 <= i < |args| => Meaning(args[i]))
  }

  lemma {:induction false} DecodeFromRoundTrip(args: seq<Param>, i: nat, rest: Bytes)
    requires AllPython(args) && i <= |args| && ValuesFrom(args, i).Some?
    ensures DecodeFrom(Bitmap(Nulls(args)), Types(args), i, ValuesFrom(args, i).value + rest)
         == Ok(Meanings(args)[i..], rest)
    decreases |args| - i
  {
    hide DecodeValue, Bitmap, BitGet, Meaning, ValueBytes, Types;
    if i == |args| {
      assert ValuesFrom(args, i).value + rest == rest;
    } else {
      assert args[i] in args;
      BitmapGet(Nulls(args), i);
      var tail := ValuesFrom(args, i + 1).value + rest;
      var v := ValueBytes(args[i]).value;
      assert ValuesFrom(args, i).value + rest == v + tail;
      if args[i].PNone? {
        NoneIsNothing(args[i], tail);
      } else {
        ValueRoundTrip(args[i], tail);
      }
      DecodeFromRoundTrip(args, i + 1, rest);
      assert Meanings(args)[i..] == [Meaning(args[i])] + Meanings(args)[i + 1..];
    }
  }

  // A None goes out with the type MYSQL_TYPE_NULL, which is 6, and without the unsigned flag.
  lemma NoneTyped(args: seq<Param>, i: nat)
    requires AllPython(args) && Pack(args).Some? && i < |args| && args[i].PNone?
    ensures var at := (|args| + 7) / 8 + 1 + 2 * i;
            at + 1 < |Pack(args).value| && Pack(args).value[at] == 6 && Pack(args).value[at + 1] == 0
  {
    hide Bitmap, ValuesFrom, Types;
    PayloadParts(Bitmap(Nulls(args)), Types(args), ValuesFrom(args, 0).value, |args|);
    var k := (|args| + 7) / 8;
    assert Pack(args).value[k + 1..k + 1 + 2 * |args|] == Types(args);
    assert Pack(args).value[k + 1 + 2 * i] == Types(args)[2 * i];
    assert Pack(args).value[k + 1 + 2 * i + 1] == Types(args)[2 * i + 1];
  }

  lemma NoneIsNothing(v: Param, tail: Bytes)
    requires IsPython(v) && v.PNone?
    ensures ValueBytes(v).value + tail == tail && Meaning(v) == SNull
  {
  }

  // The server gets the arguments, and null bits exactly for None.
  lemma ExecuteRoundTrip(args: seq<Param>)
    requires AllPython(args) && Pack(args).Some?
    ensures DecodeExecute(|args|, Pack(args).value) == Some(Meanings(args))
    ensures forall i :: 0 <= i < |args| ==> (i / 8 < |Pack(args).value| && (BitGet(Pack(args).value, i) <==> args[i].PNone?))
  {
    hide DecodeFrom, Bitmap, Types, ValuesFrom, Meaning;
    var nulls, types, values := Bitmap(Nulls(args)), Types(args), ValuesFrom(args, 0).value;
    assert values + [] == values && Meanings(args)[0..] == Meanings(args);
    DecodeFromRoundTrip(args, 0, []);
    PayloadParts(nulls, types, values, |args|);
    forall i | 0 <= i < |args|
      ensures i / 8 < |Pack(args).value| && (BitGet(Pack(args).value, i) <==> args[i].PNone?)
    {
      BitmapGet(Nulls(args), i);
    }
  }

  lemma PayloadParts(nulls: Bytes, types: Bytes, values: Bytes, n: nat)
    requires |nulls| == (n + 7) / 8 && |types| == 2 * n
    ensures var payload, k := nulls + [1] + types + values, |nulls|;
            && |payload| >= k + 1 + 2 * n && payload[..k] == nulls && payload[k] == 1
            && payload[k + 1..k + 1 + 2 * n] == types && payload[k + 1 + 2 * n..] == values
            && forall i :: 0 <= i < k ==> payload[i] == nulls[i]
  {
  }

  // Packing raises exactly when an integer needs more than 64 bits.
  predicate TooWide(v: Param) {
    v.PInt? && !(-0x8000_0000_0000_0000 <= v.n < 0x1_0000_0000_0000_0000)
  }

  lemma {:induction false} ValuesRaise(args: seq<Param>, i: nat)
    requires AllPython(args) && i <= |args|
    ensures ValuesFrom(args, i).None? <==> exists v :: v in args[i..] && TooWide(v)
    decreases |args| - i
  {
    if i < |args| {
      ValuesRaise(args, i + 1);
      assert args[i..] == [args[i]] + args[i + 1..];
      assert args[i] in args;
      assert ValueBytes(args[i]).None? <==> TooWide(args[i]);
    }
  }

  lemma PackRaises(args: seq<Param>)
    requires AllPython(args)
    ensures Pack(args).None? <==> exists v :: v in args && TooWide(v)
  {
    ValuesRaise(args, 0);
    assert args[0..] == args;
  }

  // ---- the methods ----

  // The or of a byte with 1 << k.
  function SetBit(b: Byte, k: nat): nat {
    if Bit(b, k) then b else b + Power(k)
  }

  lemma {:induction false} MaskSet(flags: Flags, k: nat)
    requires k < |flags| && !flags[k]
    ensures Mask(flags[k := true]) == Mask(flags) + Power(k)
    decreases k
  {
    var set1 := flags[k := true];
    if k == 0 {
      assert set1[1..] == flags[1..];
    } else {
      MaskSet(flags[1..], k - 1);
      assert set1[1..] == flags[1..][k - 1 := true];
    }
  }

  lemma MaskSetBit(flags: Flags, i: nat)
    requires i < |flags| <= 8
    ensures Mask(flags) < 256 && SetBit(Mask(flags), i) == Mask(flags[i := true]) < 256
  {
    hide Mask, Bit, Power;
    MaskFits(flags);
    MaskFits(flags[i := true]);
    MaskBit(flags, i);
    if flags[i] {
      assert flags[i := true] == flags;
    } else {
      MaskSet(flags, i);
    }
  }

  // Or-ing a bit in sets its flag, or leaves it set.
  lemma {:induction false} BitmapSet(flags: Flags, i: nat)
    requires i < |flags|
    ensures SetBit(Bitmap(flags)[i / 8], i % 8) < 256
    ensures Bitmap(flags[i := true]) == Bitmap(flags)[i / 8 := SetBit(Bitmap(flags)[i / 8], i % 8)]
    decreases |flags|
  {
    hide Mask, SetBit;
    var flags' := flags[i := true];
    if |flags| <= 8 {
      MaskSetBit(flags, i);
    } else if i < 8 {
      MaskSetBit(flags[..8], i);
      assert flags'[..8] == flags[..8][i := true] && flags'[8..] == flags[8..];
    } else {
      BitmapSet(flags[8..], i - 8);
      assert flags'[..8] == flags[..8] && flags'[8..] == flags[8..][i - 8 := true];
      assert i / 8 == (i - 8) / 8 + 1 && i % 8 == (i - 8) % 8;
    }
  }

  function Falses(n: nat): (flags: Flags)
    ensures |flags| == n && forall i :: 0 <= i < n ==> !flags[i]
  {
    seq(n, i => false)
  }

  lemma {:induction false} ClearBitmap(n: nat)
    ensures Bitmap(Falses(n)) == seq((n + 7) / 8, i => 0)
    decreases n
  {
    if n == 0 {
    } else if n <= 8 {
      ClearMask(n);
    } else {
      ClearMask(8);
      ClearBitmap(n - 8);
      assert Falses(n)[..8] == Falses(8) && Falses(n)[8..] == Falses(n - 8);
    }
  }

  lemma {:induction false} ClearMask(n: nat)
    ensures Mask(Falses(n)) == 0
  {
    if n > 0 {
      ClearMask(n - 1);
      assert Falses(n)[1..] == Falses(n - 1);
    }
  }

  // What is appended to the values for one argument; None for the ValueError.
  method AppendBinaryValue(values: Bytes, v: Param) returns (r: Option<Bytes>)
    requires IsPython(v)
    ensures r == Join(Some(values), ValueBytes(v))
  {
    var more: Bytes := [];
    match v {
      case PNone =>
      case PBool(b) => more := [if b then 1 else 0];
      case PInt(n) =>
        if Fits64(n) {
          more := LittleEndian(if n < 0 then n + 0x1_0000_0000_0000_0000 else n, 8);
          Widths();
        } else if 0 < n < 0x1_0000_0000_0000_0000 {
          more := LittleEndian(n, 8);
        } else {
          return None;
        }
      case PFloat(bits) => more := bits;
      case PText(bytes) => more := LengthEncoded(|bytes|) + bytes;
      case PBytes(bytes) => more := LengthEncoded(|bytes|) + bytes;
      case PDateTime(year, month, day, hour, minute, second, micros) =>
        more := [11] + LittleEndian(year, 2) + [month, day, hour, minute, second] + LittleEndian(micros, 4);
      case PDate(year, month, day) => more := [4] + LittleEndian(year, 2) + [month, day];
      case PDelta(d, s, us) =>
        var days, secs: nat, usec: nat, sign := d, s, us, 0;
        if days < 0 {
          if secs > 0 || usec > 0 {
            days := -days - 1;
            secs := 86400 - secs;
            if usec > 0 {
              secs := secs - 1;
              usec := 1000000 - usec;
            }
          } else {
            days := -days;
          }
          sign := 1;
        }
        assert Split(d, s, us) == Clock(sign == 1, days, secs, usec);
        more := [12, sign] + LittleEndian(days, 4) + [secs / 3600, secs % 3600 / 60, secs % 60] + LittleEndian(usec, 4);
      case PTime(hour, minute, second, micros) =>
        more := [12, 0] + LittleEndian(0, 4) + [hour, minute, second] + LittleEndian(micros, 4);
      case PDecimal(bytes) => more := LengthEncoded(|bytes|) + bytes;
    }
    return Some(values + more);
  }

  lemma JoinAssoc(a: Option<Bytes>, b: Option<Bytes>, c: Option<Bytes>)
    ensures Join(Join(a, b), c) == Join(a, Join(b, c))
    ensures Join(Some([]), c) == c
  {
    if a.Some? && b.Some? && c.Some? {
      assert a.value + b.value + c.value == a.value + (b.value + c.value);
    }
    if c.Some? {
      assert [] + c.value == c.value;
    }
  }

  method PackBinaryParams(args: seq<Param>) returns (r: Option<Bytes>)
    requires AllPython(args)
    ensures r == Pack(args)
  {
    hide Bitmap, ValueBytes, Types;
    var n := |args|;
    var bitmap: Bytes := seq((n + 7) / 8, i => 0);
    var types: Bytes, values: Bytes := [], [];
    ghost var flags := Falses(n);
    ClearBitmap(n);
    JoinAssoc(None, None, ValuesFrom(args, 0));
    assert Types([]) == [] by { NoTypes(); }
    assert args[..0] == [];
    for i := 0 to n
      invariant |flags| == n && forall j :: 0 <= j < n ==> flags[j] == (j < i && args[j].PNone?)
      invariant bitmap == Bitmap(flags)
      invariant types == Types(args[..i])
      invariant Join(Some(values), ValuesFrom(args, i)) == ValuesFrom(args, 0)
    {
      var v := args[i];
      assert v in args;
      TypesSnoc(args[..i], v);
      assert args[..i + 1] == args[..i] + [v];
      types := types + [TypeCode(v), TypeFlag(v)];
      if v.PNone? {
        BitmapSet(flags, i);
        flags := flags[i := true];
        bitmap := bitmap[i / 8 := SetBit(bitmap[i / 8], i % 8)];
      }
      JoinAssoc(Some(values), ValueBytes(v), ValuesFrom(args, i + 1));
      var appended := AppendBinaryValue(values, v);
      match appended {
        case None => return None;
        case Some(more) => values := more;
      }
    }
    assert flags == Nulls(args) && args[..n] == args;
    assert values + [] == values;
    return Some(bitmap + [1] + types + values);
  }

  lemma NoTypes()
    ensures Types([]) == []
  {
  }

  lemma TypesSnoc(args: seq<Param>, v: Param)
    ensures Types(args + [v]) == Types(args) + [TypeCode(v), TypeFlag(v)]
  {
    assert (args + [v])[..|args + [v]| - 1] == args;
  }
}
