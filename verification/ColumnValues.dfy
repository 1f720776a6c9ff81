// One column value of a row image: how the server stores it and how it is read.
module ColumnValues {
  import opened Binary
  import opened Bitmaps
  import opened Calendar
  import opened Readers
  import opened BinLogPacket
  import opened NewDecimal
  import opened DecimalText
  import opened BinaryJson
  import opened BinaryJsonProofs
  import opened BinaryJsonMisread

  // A column type with the table map's metadata that its reader uses.
  datatype Kind =
    | Integer(size: nat, unsigned: bool)  // TINY, SHORT, INT24, LONG, LONGLONG
    | Floating(size: nat)                 // FLOAT, DOUBLE
    | Characters(maxLength: nat)          // VARCHAR, STRING
    | Blob(lengthSize: nat)               // BLOB, GEOMETRY
    | Packed(precision: nat, decimals: nat)
    | Year
    | Enumeration(size: nat, values: seq<string>)
    | Choice(size: nat, values: seq<string>)
    | BitField(bits: nat)
    | Document(lengthSize: nat)
    | Date
    | Timestamp
    | Timestamp2(fsp: nat)
    | Datetime2(fsp: nat)
    | Unknown

  datatype Value =
    | Null
    | Int(n: int)
    | Real(bytes: Bytes)
    | Text(bytes: Bytes)
    | Dec(d: Decimal)
    | Item(text: string)
    | Items(items: set<string>)
    | Bits(text: string)
    | Doc(json: Json)
    | Day(year: int, month: int, day: int)
    | Instant(seconds: int, micros: int)
    | Moment(year: int, month: int, day: int, hour: int, minute: int, second: int, micros: int)

  // ---- readers ----

  function AsInt(r: Parsed<int>, shift: int): Parsed<Value> {
    match r
    case Error => Error
    case Ok(n, rest) => Ok(Int(n + shift), rest)
  }

  function AsReal(r: Parsed<Bytes>): Parsed<Value> {
    match r
    case Error => Error
    case Ok(bs, rest) => Ok(Real(bs), rest)
  }

  function AsText(r: Parsed<Bytes>): Parsed<Value> {
    match r
    case Error => Error
    case Ok(bs, rest) => Ok(Text(bs), rest)
  }

  function AsItem(values: seq<string>, r: Parsed<nat>): Parsed<Value> {
    match r
    case Error => Error
    case Ok(n, rest) => if n < |values| then Ok(Item(values[n]), rest) else Error
  }

  // The values whose bits are set, and None when there is none.
  function Selected(values: seq<string>, mask: nat): set<string> {
    set i | 0 <= i < |values| && Bit(mask, i) :: values[i]
  }

  function AsItems(values: seq<string>, r: Parsed<nat>): Parsed<Value> {
    match r
    case Error => Error
    case Ok(mask, rest) => Ok(if Selected(values, mask) == {} then Null else Items(Selected(values, mask)), rest)
  }

  // The low k bits of n as digits, most significant first.
  function BinaryText(n: nat, k: nat): string {
    if k == 0 then "" else BinaryText(n / 2, k - 1) + (if n % 2 == 1 then "1" else "0")
  }

  // How many bits of the first byte are used.
  function FirstBits(bits: nat): nat {
    if bits == 0 then 0 else (bits - 1) % 8 + 1
  }

  function BitText(bs: Bytes, end: nat): string {
    if bs == [] then "" else BinaryText(bs[0], end) + BitText(bs[1..], 8)
  }

  // __read_bit
  function ReadBits(bits: nat, s: Bytes): Parsed<Value> {
    match Take(s, (bits + 7) / 8)
    case Error => Error
    case Ok(bs, rest) => Ok(Bits(BitText(bs, FirstBits(bits))), rest)
  }

  // _read_binary_slice, for bits within the data
  function Slice(binary: nat, start: nat, size: nat, length: nat): nat
    requires start + size <= length
  {
    PowerPositive(length - start - size);
    PowerPositive(size);
    binary / Power(length - start - size) % Power(size)
  }

  lemma {:induction false} PowerPositive(k: nat)
    ensures Power(k) > 0
  {
    if k > 0 {
      PowerPositive(k - 1);
    }
  }

  // __read_date
  function AsDay(r: Parsed<nat>): Parsed<Value> {
    match r
    case Error => Error
    case Ok(n, rest) =>
      var year, month, day := n / 512 % 32768, n / 32 % 16, n % 32;
      if year == 0 || month == 0 || day == 0 then Ok(Null, rest)
      else if IsDate(year, month, day) then Ok(Day(year, month, day), rest)
      else Error
  }

  function FspBytes(fsp: nat): nat {
    if fsp == 1 || fsp == 2 then 1 else if fsp == 3 || fsp == 4 then 2 else if fsp == 5 || fsp == 6 then 3 else 0
  }

  // __read_fsp
  function ReadFsp(fsp: nat, s: Bytes): Parsed<int> {
    if FspBytes(fsp) == 0 then Ok(0, s)
    else
      match IntBE(s, FspBytes(fsp))
      case Error => Error
      case Ok(n, rest) =>
        var m := if fsp % 2 == 0 then n else if n < 0 then -(-n / 10) else n / 10;
        Ok(m * Pow10(6 - fsp), rest)
  }

  // time.replace(microsecond=…) when the fraction is positive
  function WithFraction(r: Parsed<int>, t: Value): Parsed<Value> {
    match r
    case Error => Error
    case Ok(us, rest) =>
      if us > 999999 then Error
      else if us > 0 && (t.Instant? || t.Moment?) then Ok(t.(micros := us), rest)
      else Ok(t, rest)
  }

  // __read_datetime2
  function ReadDatetime2(fsp: nat, s: Bytes): Parsed<Value> {
    match UIntBE(s, 5)
    case Error => Error
    case Ok(data, rest) =>
      var yearMonth, day := Slice(data, 1, 17, 40), Slice(data, 18, 5, 40);
      var hour, minute, second := Slice(data, 23, 5, 40), Slice(data, 28, 6, 40), Slice(data, 34, 6, 40);
      if IsDate(yearMonth / 13, yearMonth % 13, day) && IsTime(hour, minute, second) then
        WithFraction(ReadFsp(fsp, rest), Moment(yearMonth / 13, yearMonth % 13, day, hour, minute, second, 0))
      else
        match ReadFsp(fsp, rest)
        case Error => Error
        case Ok(_, rest') => Ok(Null, rest')
  }

  function ReadTimestamp2(fsp: nat, s: Bytes): Parsed<Value> {
    match IntBE(s, 4)
    case Error => Error
    case Ok(seconds, rest) => WithFraction(ReadFsp(fsp, rest), Instant(seconds, 0))
  }

  function AsInstant(r: Parsed<nat>): Parsed<Value> {
    match r
    case Error => Error
    case Ok(n, rest) => Ok(Instant(n, 0), rest)
  }

  // The branches of _read_column_data that put nothing back.
  function ReadPlain(kind: Kind, s: Bytes): Parsed<Value> {
    match kind
    case Integer(size, unsigned) => if unsigned then AsInt(UInt(s, size), 0) else AsInt(Readers.Int(s, size), 0)
    case Floating(size) => AsReal(Take(s, size))
    case Characters(maxLength) => AsText(PascalString(s, if maxLength > 255 then 2 else 1))
    case Blob(lengthSize) => AsText(PascalString(s, lengthSize))
    case Year => AsInt(UInt(s, 1), 1900)
    case Enumeration(size, values) => AsItem(values, UIntBySize(s, size))
    case Choice(size, values) => AsItems(values, UIntBySize(s, size))
    case BitField(bits) => ReadBits(bits, s)
    case Date => AsDay(UInt(s, 3))
    case Timestamp => AsInstant(UInt(s, 4))
    case Timestamp2(fsp) => ReadTimestamp2(fsp, s)
    case Datetime2(fsp) => ReadDatetime2(fsp, s)
    case _ => Error
  }

  function AsDecimal(r: Step<Decimal>): Step<Value> {
    match r
    case Failed => Failed
    case Done(d, next) => Done(Dec(d), next)
  }

  function AsDocument(r: Step<Json>): Step<Value> {
    match r
    case Failed => Failed
    case Done(json, next) => Done(Value.Doc(json), next)
  }

  function ReadCell(kind: Kind, c: Cursor): Step<Value> {
    match kind
    case Packed(precision, decimals) =>
      if decimals <= precision then AsDecimal(ReadDecimal(precision, decimals, c)) else Failed
    case Document(lengthSize) => AsDocument(ReadJson(lengthSize, c))
    case _ => On(c, ReadPlain(kind, c.rest))
  }

  // ---- the server's side ----

  datatype Stored =
    | SInt(n: int)
    | SReal(bytes: Bytes)
    | SText(bytes: Bytes)
    | SDecimal(negative: bool, whole: string, fraction: string)
    | SYear(year: nat)                    // year 0000, or years after 1900
    | SIndex(index: nat)
    | SChosen(chosen: Flags)
    | SBits(bits: nat)
    | SDocument(doc: BinaryJson.Doc)
    | SDay(year: nat, month: nat, day: nat)
    | SSeconds(seconds: nat)              // since 1970; 0 is 0000-00-00 00:00:00
    | SInstant(seconds: nat, micros: nat)
    | SMoment(year: nat, month: nat, day: nat, hour: nat, minute: nat, second: nat, micros: nat)

  ghost predicate Fits(kind: Kind, v: Stored) {
    match (kind, v)
    case (Integer(size, unsigned), SInt(n)) => if unsigned then 0 <= n < Pow256(size) else FitsSigned(n, size)
    case (Floating(size), SReal(bytes)) => |bytes| == size
    case (Characters(maxLength), SText(bytes)) => |bytes| < Pow256(if maxLength > 255 then 2 else 1)
    case (Blob(lengthSize), SText(bytes)) => 1 <= lengthSize <= 8 && |bytes| < Pow256(lengthSize)
    case (Packed(precision, decimals), SDecimal(_, whole, fraction)) =>
      AllDigits(whole) && AllDigits(fraction) && whole + fraction != ""
      && |fraction| == decimals && |whole| + |fraction| == precision
    case (Year, SYear(n)) => n < 256
    case (Enumeration(size, values), SIndex(n)) => 1 <= size <= 8 && n < |values| && n < Pow256(size)
    case (Choice(size, values), SChosen(chosen)) => 1 <= size <= 8 && |chosen| == |values| && Mask(chosen) < Pow256(size)
    case (BitField(bits), SBits(n)) => n < Power(bits)
    case (Document(lengthSize), SDocument(doc)) =>
      1 <= lengthSize <= 8 && WellFormed(doc) && 1 + |Body(doc)| < Pow256(lengthSize)
    case (Date, SDay(year, month, day)) => Storable(year, month, day)
    case (Timestamp, SSeconds(seconds)) => seconds < Pow256(4)
    case (Timestamp2(fsp), SInstant(seconds, micros)) => 2 * seconds < Pow256(4) && FractionFits(fsp, micros)
    case (Datetime2(fsp), SMoment(year, month, day, hour, minute, second, micros)) =>
      Storable(year, month, day) && IsTime(hour, minute, second) && FractionFits(fsp, micros)
    case _ => false
  }

  function FractionBytes(fsp: nat, micros: nat): Bytes {
    var k := (fsp + 1) / 2;  // a byte for every two digits
    BigEndian(if k == 1 then micros / 10000 else if k == 2 then micros / 100 else micros, k)
  }

  // Sign bit, year and month, day, hour, minute and second in 40 bits.
  function PackMoment(year: nat, month: nat, day: nat, hour: nat, minute: nat, second: nat): nat {
    549755813888 + (year * 13 + month) * 4194304 + day * 131072 + hour * 4096 + minute * 64 + second
  }

  ghost function CellBytes(kind: Kind, v: Stored): Bytes
    requires Fits(kind, v)
  {
    match (kind, v)
    case (Integer(size, unsigned), SInt(n)) => LittleEndian(if unsigned then n else Unsigned(n, size), size)
    case (Floating(_), SReal(bytes)) => bytes
    case (Characters(maxLength), SText(bytes)) => LittleEndian(|bytes|, if maxLength > 255 then 2 else 1) + bytes
    case (Blob(lengthSize), SText(bytes)) => LittleEndian(|bytes|, lengthSize) + bytes
    case (Packed(_, _), SDecimal(negative, whole, fraction)) => Encode(negative, whole, fraction)
    case (Year, SYear(n)) => LittleEndian(n, 1)
    case (Enumeration(size, _), SIndex(n)) => LittleEndian(n, size)
    case (Choice(size, _), SChosen(chosen)) => LittleEndian(Mask(chosen), size)
    case (BitField(bits), SBits(n)) => BigEndian(n, (bits + 7) / 8)
    case (Document(lengthSize), SDocument(doc)) => JsonColumn(doc, lengthSize)
    case (Date, SDay(year, month, day)) => LittleEndian(year * 512 + month * 32 + day, 3)
    case (Timestamp, SSeconds(seconds)) => LittleEndian(seconds, 4)
    case (Timestamp2(fsp), SInstant(seconds, micros)) => BigEndian(seconds, 4) + FractionBytes(fsp, micros)
    case (Datetime2(fsp), SMoment(year, month, day, hour, minute, second, micros)) =>
      BigEndian(PackMoment(year, month, day, hour, minute, second), 5) + FractionBytes(fsp, micros)
  }

  function Chosen(values: seq<string>, chosen: Flags): set<string>
    requires |chosen| == |values|
  {
    set i | 0 <= i < |values| && chosen[i] :: values[i]
  }

  // What the stored value is for the client: year 0000 is the number 0, an empty SET is an empty set, and
  // zero dates and moments that datetime does not have are None.
  ghost function ClientValue(kind: Kind, v: Stored): Value
    requires Fits(kind, v)
  {
    match (kind, v)
    case (_, SInt(n)) => Value.Int(n)
    case (_, SReal(bytes)) => Real(bytes)
    case (_, SText(bytes)) => Text(bytes)
    case (Packed(_, _), SDecimal(negative, whole, fraction)) =>
      Dec(Decimal(negative, ReadNat(whole + fraction), |fraction|))
    case (_, SYear(n)) => Value.Int(if n == 0 then 0 else 1900 + n)
    case (Enumeration(_, values), SIndex(n)) => Item(values[n])
    case (Choice(_, values), SChosen(chosen)) => Items(Chosen(values, chosen))
    case (BitField(bits), SBits(n)) => Bits(BinaryText(n, bits))
    case (_, SDocument(doc)) => Value.Doc(ValueOf(doc))
    case (_, SDay(year, month, day)) => if IsDate(year, month, day) then Day(year, month, day) else Null
    case (_, SSeconds(seconds)) => if seconds == 0 then Null else Instant(seconds, 0)
    case (_, SInstant(seconds, micros)) => if seconds == 0 then Null else Instant(seconds, micros)
    case (_, SMoment(year, month, day, hour, minute, second, micros)) =>
      if IsDate(year, month, day) then Moment(year, month, day, hour, minute, second, micros) else Null
  }

  // The stored values that are read as what they are.
  ghost predicate CellReadable(v: Stored) {
    match v
    case SYear(n) => n > 0
    case SChosen(chosen) => true in chosen
    case SDocument(doc) => Readable(doc)
    case SDay(year, month, day) => ZeroPart(year, month, day) || IsDate(year, month, day)
    case SSeconds(seconds) => seconds > 0
    case SInstant(seconds, _) => seconds > 0
    case _ => true
  }

  // All values but the documents whose first misread integer stands last in its table or before a small
  // object: those are read right or wrong depending on the bytes that follow.
  ghost predicate Decided(v: Stored) {
    v.SDocument? ==> Readable(v.doc) || Spoiled(v.doc)
  }

  // ---- round trips, one type at a time ----

  lemma IntegerRoundTrip(size: nat, unsigned: bool, n: int, rest: Bytes)
    requires Fits(Integer(size, unsigned), SInt(n))
    ensures ReadPlain(Integer(size, unsigned), CellBytes(Integer(size, unsigned), SInt(n)) + rest) == Ok(Value.Int(n), rest)
  {
    hide LittleEndian, FromLittleEndian, Pow256;
    if unsigned {
      UIntRoundTrip(n, size, rest);
    } else {
      IntRoundTrip(n, size, rest);
    }
  }

  lemma PascalRoundTrip(bytes: Bytes, size: nat, rest: Bytes)
    requires 1 <= size <= 8 && |bytes| < Pow256(size)
    ensures PascalString(LittleEndian(|bytes|, size) + bytes + rest, size) == Ok(bytes, rest)
  {
    hide LittleEndian, FromLittleEndian, Pow256;
    assert LittleEndian(|bytes|, size) + bytes + rest == LittleEndian(|bytes|, size) + (bytes + rest);
    UIntRoundTrip(|bytes|, size, bytes + rest);
    TakeFront(bytes, rest);
  }

  lemma SelectedIsChosen(values: seq<string>, chosen: Flags)
    requires |chosen| == |values|
    ensures Selected(values, Mask(chosen)) == Chosen(values, chosen)
  {
    forall i | 0 <= i < |values|
      ensures Bit(Mask(chosen), i) <==> chosen[i]
    {
      MaskBit(chosen, i);
    }
    var a, b := Selected(values, Mask(chosen)), Chosen(values, chosen);
    forall x
      ensures x in a <==> x in b
    {
    }
  }

  // n without its low j bits.
  function Shifted(n: nat, j: nat): nat {
    if j == 0 then n else Shifted(n / 2, j - 1)
  }

  lemma {:induction false} BinaryTextSplit(n: nat, k: nat, j: nat)
    ensures BinaryText(n, k + j) == BinaryText(Shifted(n, j), k) + BinaryText(n, j)
    decreases j
  {
    if j == 0 {
      assert BinaryText(n, k) + "" == BinaryText(n, k);
    } else {
      BinaryTextSplit(n / 2, k, j - 1);
      var last := if n % 2 == 1 then "1" else "0";
      var a, b := BinaryText(Shifted(n, j), k), BinaryText(n / 2, j - 1);
      assert a + b + last == a + (b + last);
    }
  }

  // Only the low k bits matter.
  lemma {:induction false} BinaryTextLow(n: nat, c: nat, k: nat)
    ensures BinaryText(n + c * Power(k), k) == BinaryText(n, k)
    decreases k
  {
    if k > 0 {
      var t := c * Power(k - 1);
      assert c * Power(k) == 2 * t;
      BinaryTextLow(n / 2, c, k - 1);
      assert (n + 2 * t) / 2 == n / 2 + t;
    }
  }

  lemma {:induction false} ShiftedIs(q: nat, r: nat, j: nat)
    requires r < Power(j)
    ensures Shifted(q * Power(j) + r, j) == q
    decreases j
  {
    if j > 0 {
      var t := q * Power(j - 1);
      assert q * Power(j) == 2 * t;
      ShiftedIs(q, r / 2, j - 1);
      assert (2 * t + r) / 2 == t + r / 2;
    }
  }

  lemma ByteOff(n: nat)
    ensures Shifted(n, 8) == n / 256
    ensures BinaryText(n % 256, 8) == BinaryText(n, 8)
  {
    hide Shifted, BinaryText;
    assert Power(8) == 256;
    ShiftedIs(n / 256, n % 256, 8);
    BinaryTextLow(n % 256, n / 256, 8);
  }

  lemma {:induction false} BitTextSnoc(bs: Bytes, b: Byte, end: nat)
    ensures BitText(bs + [b], end) == BitText(bs, end) + BinaryText(b, if bs == [] then end else 8)
    decreases |bs|
  {
    var s := bs + [b];
    if bs == [] {
      assert s[1..] == [];
      assert BinaryText(b, end) + "" == "" + BinaryText(b, end);
    } else {
      assert s[1..] == bs[1..] + [b];
      BitTextSnoc(bs[1..], b, 8);
      assert BinaryText(bs[0], end) + (BitText(bs[1..], 8) + BinaryText(b, 8))
          == BinaryText(bs[0], end) + BitText(bs[1..], 8) + BinaryText(b, 8);
    }
  }

  // The text of a BIT value has all its bits in order.
  lemma {:induction false} BitTextOf(n: nat, k: nat, end: nat)
    requires k > 0 && n < Pow256(k)
    ensures BitText(BigEndian(n, k), end) == BinaryText(n, end + 8 * (k - 1))
    decreases k
  {
    BitTextSnoc(BigEndian(n / 256, k - 1), n % 256, end);
    hide BinaryText, BitText;
    if k > 1 {
      BitTextOf(n / 256, k - 1, end);
      ByteOff(n);
      BinaryTextSplit(n, end + 8 * (k - 2), 8);
    } else {
      assert BigEndian(n / 256, 0) == [];
    }
  }

  // Read in base two, the text is the number.
  function FromBinaryText(s: string): nat {
    if s == "" then 0 else 2 * FromBinaryText(s[..|s| - 1]) + (if s[|s| - 1] == '1' then 1 else 0)
  }

  lemma {:induction false} BinaryTextDenotes(n: nat, k: nat)
    requires n < Power(k)
    ensures |BinaryText(n, k)| == k && FromBinaryText(BinaryText(n, k)) == n
  {
    if k > 0 {
      BinaryTextDenotes(n / 2, k - 1);
      assert BinaryText(n, k)[..k - 1] == BinaryText(n / 2, k - 1);
    }
  }

  lemma {:induction false} PowerOfBytes(k: nat)
    ensures Power(8 * k) == Pow256(k)
  {
    if k > 0 {
      PowerOfBytes(k - 1);
      var p := 8 * (k - 1);
      assert Power(p + 8) == 4 * Power(p + 6) == 16 * Power(p + 4) == 64 * Power(p + 2);
    }
  }

  lemma BitsLeft(bits: nat)
    ensures bits <= 8 * ((bits + 7) / 8)
    ensures bits > 0 ==> FirstBits(bits) + 8 * ((bits + 7) / 8 - 1) == bits
  {
  }

  lemma BitsRoundTrip(bits: nat, n: nat, rest: Bytes)
    requires n < Power(bits)
    ensures ReadBits(bits, BigEndian(n, (bits + 7) / 8) + rest) == Ok(Bits(BinaryText(n, bits)), rest)
  {
    hide BigEndian, BitText, BinaryText, Power, Pow256, FirstBits, ReadBits;
    var k := (bits + 7) / 8;
    TakeFront(BigEndian(n, k), rest);
    ReadBitsFrom(bits, BigEndian(n, k) + rest, BigEndian(n, k), rest);
    BitsLeft(bits);
    if k > 0 {
      PowerGrows(bits, 8 * k);
      PowerOfBytes(k);
      BitTextOf(n, k, FirstBits(bits));
    } else {
      EmptyBits(n);
    }
  }

  lemma ReadBitsFrom(bits: nat, s: Bytes, bs: Bytes, rest: Bytes)
    requires Take(s, (bits + 7) / 8) == Ok(bs, rest)
    ensures ReadBits(bits, s) == Ok(Bits(BitText(bs, FirstBits(bits))), rest)
  {
    hide Take, FirstBits, BitText;
  }

  lemma EmptyBits(n: nat)
    ensures BitText(BigEndian(n, 0), FirstBits(0)) == "" == BinaryText(n, 0)
  {
  }

  // A DATE with a zero part is None and a real one is itself; any other raises.
  lemma DayServed(year: nat, month: nat, day: nat, rest: Bytes)
    requires Storable(year, month, day)
    ensures ReadPlain(Date, LittleEndian(year * 512 + month * 32 + day, 3) + rest)
         == if ZeroPart(year, month, day) then Ok(Null, rest)
            else if IsDate(year, month, day) then Ok(Day(year, month, day), rest)
            else Error
  {
    hide LittleEndian, FromLittleEndian, UInt;
    var n := year * 512 + month * 32 + day;
    assert n < Pow256(3);
    UIntRoundTrip(n, 3, rest);
    DayParts(year, month, day);
  }

  lemma DayParts(year: nat, month: nat, day: nat)
    requires year <= 9999 && month <= 12 && day <= 31
    ensures var n := year * 512 + month * 32 + day; n / 512 % 32768 == year && n / 32 % 16 == month && n % 32 == day
  {
    var n := year * 512 + month * 32 + day;
    QuotientIs(n, 512, year, month * 32 + day);
    QuotientIs(n, 32, year * 16 + month, day);
    QuotientIs(year * 16 + month, 16, year, month);
  }

  lemma FractionStored(fsp: nat, micros: nat)
    requires FractionFits(fsp, micros)
    ensures fsp % 2 == 0 && fsp > 0 ==> micros == (if fsp == 2 then micros / 10000 else if fsp == 4 then micros / 100 else micros) * Pow10(6 - fsp)
    ensures fsp % 2 == 1 ==>
              micros == (if fsp == 1 then micros / 10000 else if fsp == 3 then micros / 100 else micros) / 10 * Pow10(6 - fsp)
    ensures fsp == 0 ==> micros == 0
  {
    assert Pow10(6) == 1000000 && Pow10(5) == 100000 && Pow10(4) == 10000;
    assert Pow10(3) == 1000 && Pow10(2) == 100 && Pow10(1) == 10 && Pow10(0) == 1;
  }

  lemma PositiveBE(n: nat, k: nat, rest: Bytes)
    requires 2 * n < Pow256(k)
    ensures IntBE(BigEndian(n, k) + rest, k) == Ok(n, rest)
  {
    hide BigEndian, FromBigEndian, Pow256;
    BigEndianRoundTrip(n, k);
    TakeFront(BigEndian(n, k), rest);
  }

  lemma FspRoundTrip(fsp: nat, micros: nat, rest: Bytes)
    requires FractionFits(fsp, micros)
    ensures ReadFsp(fsp, FractionBytes(fsp, micros) + rest) == Ok(micros, rest)
  {
    hide Pow256, Pow10, IntBE, BigEndian;
    var k := FspBytes(fsp);
    var n := if k == 1 then micros / 10000 else if k == 2 then micros / 100 else micros;
    FractionStored(fsp, micros);
    if k == 0 {
      assert FractionBytes(fsp, micros) + rest == rest;
    } else {
      FractionBound(fsp, micros);
      PositiveBE(n, k, rest);
    }
  }

  lemma FractionBound(fsp: nat, micros: nat)
    requires FractionFits(fsp, micros) && fsp > 0
    ensures var k := FspBytes(fsp);
            2 * (if k == 1 then micros / 10000 else if k == 2 then micros / 100 else micros) < Pow256(k)
  {
    assert Pow256(1) == 256 && Pow256(2) == 65536 && Pow256(3) == 16777216;
  }

  lemma InstantRoundTrip(fsp: nat, seconds: nat, micros: nat, rest: Bytes)
    requires 2 * seconds < Pow256(4) && FractionFits(fsp, micros)
    ensures ReadTimestamp2(fsp, BigEndian(seconds, 4) + FractionBytes(fsp, micros) + rest) == Ok(Instant(seconds, micros), rest)
  {
    hide BigEndian, IntBE, ReadFsp, FractionBytes, Pow256;
    var fraction := FractionBytes(fsp, micros);
    assert BigEndian(seconds, 4) + fraction + rest == BigEndian(seconds, 4) + (fraction + rest);
    PositiveBE(seconds, 4, fraction + rest);
    FspRoundTrip(fsp, micros, rest);
  }

  lemma MomentSlices(year: nat, month: nat, day: nat, hour: nat, minute: nat, second: nat)
    requires year <= 9999 && month <= 12 && day <= 31 && IsTime(hour, minute, second)
    ensures var data := PackMoment(year, month, day, hour, minute, second);
            && Slice(data, 1, 17, 40) == year * 13 + month && Slice(data, 18, 5, 40) == day
            && Slice(data, 23, 5, 40) == hour && Slice(data, 28, 6, 40) == minute && Slice(data, 34, 6, 40) == second
  {
    var data := PackMoment(year, month, day, hour, minute, second);
    var ym := year * 13 + month;
    var a := 131072 + ym;
    var b := a * 32 + day;
    var c := b * 32 + hour;
    assert Power(22) == 4194304 && Power(17) == 131072 && Power(12) == 4096 && Power(6) == 64 && Power(5) == 32;
    SliceIs(data, 1, 17, 40, 1, ym, day * 131072 + hour * 4096 + minute * 64 + second);
    SliceIs(data, 18, 5, 40, a, day, hour * 4096 + minute * 64 + second);
    SliceIs(data, 23, 5, 40, b, hour, minute * 64 + second);
    SliceIs(data, 28, 6, 40, c, minute, second);
    SliceIs(data, 34, 6, 40, c * 64 + minute, second, 0);
  }

  lemma MomentFits(year: nat, month: nat, day: nat, hour: nat, minute: nat, second: nat)
    requires Storable(year, month, day) && IsTime(hour, minute, second)
    ensures PackMoment(year, month, day, hour, minute, second) < Pow256(5)
  {
    assert Pow256(5) == 0x100_0000_0000;
  }

  lemma SliceIs(data: nat, start: nat, size: nat, length: nat, above: nat, v: nat, below: nat)
    requires start + size <= length && v < Power(size) && below < Power(length - start - size)
    requires data == (above * Power(size) + v) * Power(length - start - size) + below
    ensures Slice(data, start, size, length) == v
  {
    hide Power;
    QuotientIs(data, Power(length - start - size), above * Power(size) + v, below);
    QuotientIs(above * Power(size) + v, Power(size), above, v);
  }

  lemma YearMonth(year: nat, month: nat)
    requires month <= 12
    ensures (year * 13 + month) / 13 == year && (year * 13 + month) % 13 == month
  {
    QuotientIs(year * 13 + month, 13, year, month);
  }

  lemma MomentRoundTrip(fsp: nat, year: nat, month: nat, day: nat, hour: nat, minute: nat, second: nat, micros: nat, rest: Bytes)
    requires Fits(Datetime2(fsp), SMoment(year, month, day, hour, minute, second, micros))
    ensures ReadDatetime2(fsp, BigEndian(PackMoment(year, month, day, hour, minute, second), 5) + FractionBytes(fsp, micros) + rest)
         == Ok(ClientValue(Datetime2(fsp), SMoment(year, month, day, hour, minute, second, micros)), rest)
  {
    hide BigEndian, FromBigEndian, ReadFsp, ReadDatetime2, FractionBytes, Pow256, Pow10, PackMoment, Slice, Power, IsDate;
    var data, fraction := PackMoment(year, month, day, hour, minute, second), FractionBytes(fsp, micros);
    MomentSlices(year, month, day, hour, minute, second);
    MomentFits(year, month, day, hour, minute, second);
    assert BigEndian(data, 5) + fraction + rest == BigEndian(data, 5) + (fraction + rest);
    BigEndianRoundTrip(data, 5);
    TakeFront(BigEndian(data, 5), fraction + rest);
    FspRoundTrip(fsp, micros, rest);
    YearMonth(year, month);
    DatetimeFrom(fsp, BigEndian(data, 5) + fraction + rest, data, fraction + rest, micros, rest);
  }

  lemma DatetimeFrom(fsp: nat, s: Bytes, data: nat, s1: Bytes, micros: nat, rest: Bytes)
    requires UIntBE(s, 5) == Ok(data, s1) && ReadFsp(fsp, s1) == Ok(micros, rest) && micros <= 999999
    ensures var ym, day := Slice(data, 1, 17, 40), Slice(data, 18, 5, 40);
            var hour, minute, second := Slice(data, 23, 5, 40), Slice(data, 28, 6, 40), Slice(data, 34, 6, 40);
            (ReadDatetime2(fsp, s)
             == Ok(if IsDate(ym / 13, ym % 13, day) && IsTime(hour, minute, second)
                   then Moment(ym / 13, ym % 13, day, hour, minute, second, micros) else Null, rest))
  {
    hide UIntBE, ReadFsp, Slice, IsDate, IsTime;
  }

  // ---- any cell ----

  lemma ChosenSome(values: seq<string>, chosen: Flags)
    requires |chosen| == |values|
    ensures Chosen(values, chosen) == {} <==> true !in chosen
  {
    if i :| 0 <= i < |chosen| && chosen[i] {
      assert values[i] in Chosen(values, chosen);
    }
  }

  lemma PlainRoundTrip(kind: Kind, v: Stored, rest: Bytes)
    requires Fits(kind, v) && CellReadable(v) && !kind.Packed? && !kind.Document?
    ensures ReadPlain(kind, CellBytes(kind, v) + rest) == Ok(ClientValue(kind, v), rest)
  {
    hide LittleEndian, FromLittleEndian, BigEndian, FromBigEndian, Pow256, Power, ReadBits, ReadDatetime2, ReadTimestamp2, AsDay;
    match (kind, v)
    case (Integer(size, unsigned), SInt(n)) => IntegerRoundTrip(size, unsigned, n, rest);
    case (Floating(size), SReal(bytes)) => TakeFront(bytes, rest);
    case (Characters(maxLength), SText(bytes)) => PascalRoundTrip(bytes, if maxLength > 255 then 2 else 1, rest);
    case (Blob(lengthSize), SText(bytes)) => PascalRoundTrip(bytes, lengthSize, rest);
    case (Year, SYear(n)) => YearFits(n); UIntRoundTrip(n, 1, rest);
    case (Enumeration(size, values), SIndex(n)) => UIntRoundTrip(n, size, rest);
    case (Choice(size, values), SChosen(chosen)) =>
      UIntRoundTrip(Mask(chosen), size, rest);
      SelectedIsChosen(values, chosen);
      ChosenSome(values, chosen);
    case (BitField(bits), SBits(n)) => BitsRoundTrip(bits, n, rest);
    case (Date, SDay(year, month, day)) => DayServed(year, month, day, rest);
    case (Timestamp, SSeconds(seconds)) => UIntRoundTrip(seconds, 4, rest);
    case (Timestamp2(fsp), SInstant(seconds, micros)) => InstantRoundTrip(fsp, seconds, micros, rest);
    case (Datetime2(fsp), SMoment(year, month, day, hour, minute, second, micros)) =>
      MomentRoundTrip(fsp, year, month, day, hour, minute, second, micros, rest);
  }

  lemma YearFits(n: nat)
    requires n < 256
    ensures n < Pow256(1)
  {
  }

  // ---- where the reader fails ----

  // The 30th of February, stored under ALLOW_INVALID_DATES, raises.
  lemma FebruaryThirtieth(rest: Bytes)
    ensures var v := SDay(2023, 2, 30);
            Fits(Date, v) && ReadCell(Date, Cursor(CellBytes(Date, v) + rest, 0)) == Failed
  {
    hide LittleEndian, ReadPlain;
    DayServed(2023, 2, 30, rest);
  }

  // Year 0000 is read as 1900.
  lemma YearZero(rest: Bytes)
    ensures var v := SYear(0);
            && Fits(Year, v) && ClientValue(Year, v) == Value.Int(0)
            && ReadCell(Year, Cursor(CellBytes(Year, v) + rest, 0)) == Done(Value.Int(1900), Cursor(rest, 0))
  {
    YearFits(0);
    hide LittleEndian, UInt;
    UIntRoundTrip(0, 1, rest);
  }

  // The zero TIMESTAMP, 0000-00-00 00:00:00, is read as the start of 1970.
  lemma ZeroTimestamp(rest: Bytes)
    ensures var v := SSeconds(0);
            && Fits(Timestamp, v) && ClientValue(Timestamp, v) == Null
            && ReadCell(Timestamp, Cursor(CellBytes(Timestamp, v) + rest, 0)) == Done(Instant(0, 0), Cursor(rest, 0))
  {
    assert 0 < Pow256(4);
    hide LittleEndian, UInt;
    UIntRoundTrip(0, 4, rest);
  }

  lemma ZeroTimestamp2(fsp: nat, micros: nat, rest: Bytes)
    requires FractionFits(fsp, micros)
    ensures var kind, v := Timestamp2(fsp), SInstant(0, micros);
            && Fits(kind, v) && ClientValue(kind, v) == Null
            && ReadCell(kind, Cursor(CellBytes(kind, v) + rest, 0)) == Done(Instant(0, micros), Cursor(rest, 0))
  {
    assert 0 < Pow256(4);
    hide BigEndian, FractionBytes, ReadTimestamp2, FractionFits;
    InstantRoundTrip(fsp, 0, micros, rest);
  }

  // A SET value with no member chosen is read as None, like NULL.
  lemma EmptySet(size: nat, values: seq<string>, chosen: Flags, rest: Bytes)
    requires Fits(Choice(size, values), SChosen(chosen)) && true !in chosen
    ensures var kind, v := Choice(size, values), SChosen(chosen);
            && ClientValue(kind, v) == Items({})
            && ReadCell(kind, Cursor(CellBytes(kind, v) + rest, 0)) == Done(Null, Cursor(rest, 0))
  {
    hide LittleEndian, UInt, Pow256, Selected, Chosen;
    UIntRoundTrip(Mask(chosen), size, rest);
    SelectedIsChosen(values, chosen);
    ChosenSome(values, chosen);
  }

  lemma CellMisread(kind: Kind, v: Stored, rest: Bytes)
    requires Fits(kind, v) && !CellReadable(v) && Decided(v)
    ensures var r := ReadCell(kind, Cursor(CellBytes(kind, v) + rest, 0)); r.Done? ==> r.value != ClientValue(kind, v)
  {
    hide ReadPlain, ReadJson, JsonColumn, Readable, Spoiled, WellFormed, Body, LittleEndian, BigEndian, Pow256, Selected;
    match (kind, v)
    case (Year, SYear(n)) => YearZero(rest);
    case (Choice(size, values), SChosen(chosen)) => EmptySet(size, values, chosen, rest);
    case (Document(lengthSize), SDocument(doc)) => SpoiledColumnNeverRead(doc, lengthSize, rest);
    case (Date, SDay(year, month, day)) => DayServed(year, month, day, rest);
    case (Timestamp, SSeconds(seconds)) => ZeroTimestamp(rest);
    case (Timestamp2(fsp), SInstant(seconds, micros)) => ZeroTimestamp2(fsp, micros, rest);
  }

  // A readable value is read as what it is, with exactly its bytes taken; any other raises or is read
  // as something else.
  lemma CellRoundTrip(kind: Kind, v: Stored, rest: Bytes)
    requires Fits(kind, v)
    ensures CellReadable(v) ==>
              ReadCell(kind, Cursor(CellBytes(kind, v) + rest, 0)) == Done(ClientValue(kind, v), Cursor(rest, 0))
    ensures !CellReadable(v) && Decided(v) ==>
              var r := ReadCell(kind, Cursor(CellBytes(kind, v) + rest, 0)); r.Done? ==> r.value != ClientValue(kind, v)
  {
    hide ReadCell, CellBytes, ClientValue, Fits, CellReadable, Decided;
    if CellReadable(v) {
      CellRead(kind, v, rest);
    } else if Decided(v) {
      CellMisread(kind, v, rest);
    }
  }

  lemma CellRead(kind: Kind, v: Stored, rest: Bytes)
    requires Fits(kind, v) && CellReadable(v)
    ensures ReadCell(kind, Cursor(CellBytes(kind, v) + rest, 0)) == Done(ClientValue(kind, v), Cursor(rest, 0))
  {
    hide ReadPlain, ReadDecimal, ReadJson, JsonColumn, Encode, ParseDecimal;
    match (kind, v)
    case (Packed(precision, decimals), SDecimal(negative, whole, fraction)) =>
      NewDecimalRoundTrip(negative, whole, fraction, rest);
    case (Document(lengthSize), SDocument(doc)) =>
      JsonColumnRoundTrip(doc, lengthSize, rest);
    case _ =>
      PlainRoundTrip(kind, v, rest);
  }

  // ---- reading takes bytes ----

  lemma PlainShrinks(kind: Kind, s: Bytes)
    ensures var r := ReadPlain(kind, s); r.Ok? ==> |r.rest| <= |s|
  {
    hide FromLittleEndian, FromBigEndian, Signed, BitText, Slice, IsDate, Selected;
    match kind
    case Timestamp2(fsp) => FspShrinks(fsp, s);
    case Datetime2(fsp) => DatetimeShrinks(fsp, s);
    case _ =>
  }

  lemma FspShrinks(fsp: nat, s: Bytes)
    ensures var r := ReadFsp(fsp, s); r.Ok? ==> |r.rest| <= |s|
    ensures var r := ReadTimestamp2(fsp, s); r.Ok? ==> |r.rest| <= |s|
  {
    hide FromBigEndian, Signed;
  }

  lemma DatetimeShrinks(fsp: nat, s: Bytes)
    ensures var r := ReadDatetime2(fsp, s); r.Ok? ==> |r.rest| <= |s|
  {
    hide FromBigEndian, Signed, Slice, IsDate, IsTime, ReadFsp;
    if UIntBE(s, 5).Ok? {
      FspShrinks(fsp, UIntBE(s, 5).rest);
    }
  }

  lemma {:induction false} GroupsShrink(k: nat, negative: bool, s: Bytes)
    ensures var r := ReadGroups(k, negative, s); r.Ok? ==> |r.rest| <= |s|
    decreases k
  {
    hide ZeroPad, FromBigEndian, Signed;
    if k > 0 && ReadPart(4, negative, s).Ok? {
      GroupsShrink(k - 1, negative, ReadPart(4, negative, s).rest);
    }
  }

  lemma EndsShrink(digits: nat, negative: bool, s: Bytes)
    requires digits <= 9
    ensures var r := ReadLead(digits, negative, s); r.Ok? ==> |r.rest| <= |s|
    ensures var r := ReadTrail(digits, negative, s); r.Ok? ==> |r.rest| <= |s|
  {
    hide ZeroPad, ShowInt, FromBigEndian, Signed;
  }

  lemma PartsShrink(lead: nat, groups: nat, fractionGroups: nat, trail: nat, negative: bool, s: Bytes)
    requires lead < 9 && trail < 9
    ensures var r := ReadParts(lead, groups, fractionGroups, trail, negative, s); r.Ok? ==> |r.rest| <= |s|
  {
    hide ReadLead, ReadGroups, ReadTrail;
    EndsShrink(lead, negative, s);
    var a := ReadLead(lead, negative, s);
    if a.Ok? {
      GroupsShrink(groups, negative, a.rest);
      var b := ReadGroups(groups, negative, a.rest);
      if b.Ok? {
        GroupsShrink(fractionGroups, negative, b.rest);
        var c := ReadGroups(fractionGroups, negative, b.rest);
        if c.Ok? {
          EndsShrink(trail, negative, c.rest);
        }
      }
    }
  }

  lemma DecimalShrinks(precision: nat, decimals: nat, c: Cursor)
    requires decimals <= precision
    ensures var r := ReadDecimal(precision, decimals, c); r.Done? ==> |r.next.rest| <= |c.rest|
  {
    hide ReadParts, ParseDecimal, FromLittleEndian;
    var r := On(c, UInt(c.rest, 1));
    if r.Done? && r.next.waiting <= |r.next.rest| && r.value < 256 {
      var c2 := PutBack(r.next, [Flip(r.value)]);
      var whole := precision - decimals;
      PartsShrink(whole % 9, whole / 9, decimals / 9, decimals % 9, r.value < 128, c2.rest);
    }
  }

  lemma JsonShrinks(size: nat, c: Cursor)
    ensures var r := ReadJson(size, c); r.Done? ==> |r.next.rest| <= |c.rest|
  {
    hide ReadValue, FromLittleEndian;
  }

  lemma CellShrinks(kind: Kind, c: Cursor)
    ensures var r := ReadCell(kind, c); r.Done? ==> |r.next.rest| <= |c.rest|
  {
    hide ReadPlain, ReadDecimal, ReadJson;
    match kind
    case Packed(precision, decimals) =>
      if decimals <= precision {
        DecimalShrinks(precision, decimals, c);
      }
    case Document(lengthSize) => JsonShrinks(lengthSize, c);
    case _ => PlainShrinks(kind, c.rest);
  }
}
