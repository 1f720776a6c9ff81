// Packed DECIMAL: the format of section 14.24.2 of the MySQL 8.0 Reference Manual and its reader.
module NewDecimal {
  import opened Binary
  import opened Readers
  import opened BinLogPacket
  import opened DecimalText

  // decimal.Decimal: the digits without leading zeros, and how many of them are behind the point.
  datatype Decimal = Decimal(negative: bool, coefficient: nat, scale: nat)

  // decimal.Decimal(text) for texts of digits with an optional sign and point.
  function ParseDecimal(text: string): Option<Decimal> {
    var negative := text != "" && text[0] == '-';
    var body := if negative then text[1..] else text;
    var dot := Find(body, '.');
    var whole, fraction := body[..dot], if dot < |body| then body[dot + 1..] else "";
    if AllDigits(whole + fraction) && whole + fraction != "" then
      Some(Decimal(negative, ReadNat(whole + fraction), |fraction|))
    else None
  }

  // compressed_bytes
  function ByteCount(digits: nat): (k: nat)
    requires digits <= 9
    ensures k <= 4 && (k == 0 <==> digits == 0)
  {
    [0, 1, 1, 2, 2, 3, 3, 4, 4, 4][digits]
  }

  // ---- the server's side ----

  // The storage rule: four bytes for nine digits, and for the digits left over half as many bytes as
  // digits, rounded up, but never more than four.
  function StoredBytes(digits: nat): nat {
    if digits <= 2 then (if digits == 0 then 0 else 1)
    else if digits <= 4 then 2
    else if digits <= 6 then 3
    else 4
  }

  function Group(digits: string): Bytes
    requires AllDigits(digits) && |digits| <= 9
  {
    BigEndian(ReadNat(digits), StoredBytes(|digits|))
  }

  // Nine digits at a time, four bytes each.
  function Groups(digits: string): Bytes
    requires AllDigits(digits) && |digits| % 9 == 0
  {
    if digits == "" then []
    else
      Cut(digits, 9);
      Group(digits[..9]) + Groups(digits[9..])
  }

  // The digits left over stand first before the point and last behind it.
  function Magnitude(whole: string, fraction: string): Bytes
    requires AllDigits(whole) && AllDigits(fraction)
  {
    var lead, full := |whole| % 9, |fraction| - |fraction| % 9;
    Cut(whole, lead);
    Cut(fraction, full);
    Group(whole[..lead]) + (Groups(whole[lead..]) + (Groups(fraction[..full]) + Group(fraction[full..])))
  }

  function Inverted(negative: bool, b: Byte): Byte {
    if negative then 255 - b else b
  }

  // A negative number has every byte inverted.
  function Signs(negative: bool, bs: Bytes): (r: Bytes)
    ensures |r| == |bs|
  {
    if bs == [] then [] else [Inverted(negative, bs[0])] + Signs(negative, bs[1..])
  }

  function Flip(b: Byte): Byte {
    if b >= 128 then b - 128 else b + 128
  }

  function Encode(negative: bool, whole: string, fraction: string): Bytes
    requires AllDigits(whole) && AllDigits(fraction)
  {
    var bs := Signs(negative, Magnitude(whole, fraction));
    if bs == [] then [] else [Flip(bs[0])] + bs[1..]
  }

  // ---- the reader ----

  // n ^ mask, for the masks 0 and -1.
  function Masked(n: int, negative: bool): int {
    if negative then -n - 1 else n
  }

  function ReadPart(size: nat, negative: bool, s: Bytes): Parsed<int> {
    match IntBE(s, size)
    case Error => Error
    case Ok(n, rest) => Ok(Masked(n, negative), rest)
  }

  function ReadGroups(k: nat, negative: bool, s: Bytes): Parsed<string> {
    if k == 0 then Ok("", s)
    else
      match ReadPart(4, negative, s)
      case Error => Error
      case Ok(n, rest) =>
        match ReadGroups(k - 1, negative, rest)
        case Error => Error
        case Ok(text, rest') => Ok(ZeroPad(9, n) + text, rest')
  }

  function ReadLead(digits: nat, negative: bool, s: Bytes): Parsed<string>
    requires digits <= 9
  {
    if digits == 0 then Ok("", s)
    else
      match ReadPart(ByteCount(digits), negative, s)
      case Error => Error
      case Ok(n, rest) => Ok(ShowInt(n), rest)
  }

  function ReadTrail(digits: nat, negative: bool, s: Bytes): Parsed<string>
    requires digits <= 9
  {
    if digits == 0 then Ok("", s)
    else
      match ReadPart(ByteCount(digits), negative, s)
      case Error => Error
      case Ok(n, rest) => Ok(ZeroPad(digits, n), rest)
  }

  function Then(text: string, r: Parsed<string>): Parsed<string> {
    match r
    case Error => Error
    case Ok(more, rest) => Ok(text + more, rest)
  }

  // The text handed to decimal.Decimal, without its sign: left-over digits, full groups, a point, full
  // groups and left-over digits.
  function ReadParts(lead: nat, groups: nat, fractionGroups: nat, trail: nat, negative: bool, s: Bytes): Parsed<string>
    requires lead < 9 && trail < 9
  {
    match ReadLead(lead, negative, s)
    case Error => Error
    case Ok(a, s1) =>
      match ReadGroups(groups, negative, s1)
      case Error => Error
      case Ok(b, s2) =>
        match ReadGroups(fractionGroups, negative, s2)
        case Error => Error
        case Ok(c, s3) => Then(a + b + "." + c, ReadTrail(trail, negative, s3))
  }

  function ReadText(whole: nat, fraction: nat, negative: bool, s: Bytes): Parsed<string> {
    ReadParts(whole % 9, whole / 9, fraction / 9, fraction % 9, negative, s)
  }

  function Sign(negative: bool): string {
    if negative then "-" else ""
  }

  function ToDecimal(negative: bool, c: Cursor, r: Parsed<string>): Step<Decimal> {
    match r
    case Error => Failed
    case Ok(text, rest) =>
      match ParseDecimal(Sign(negative) + text)
      case None => Failed
      case Some(d) => On(c, Ok(d, rest))
  }

  // __read_new_decimal
  function ReadDecimal(precision: nat, decimals: nat, c: Cursor): Step<Decimal>
    requires decimals <= precision
  {
    match On(c, UInt(c.rest, 1))
    case Failed => Failed
    case Done(first, c1) =>
      if c1.waiting > |c1.rest| || first >= 256 then Failed
      else
        var negative, c2 := first < 128, PutBack(c1, [Flip(first)]);
        ToDecimal(negative, c2, ReadText(precision - decimals, decimals, negative, c2.rest))
  }

  // ---- one part ----

  lemma PartFits(digits: string)
    requires AllDigits(digits) && 1 <= |digits| <= 9
    ensures 2 * ReadNat(digits) < Pow256(StoredBytes(|digits|))
  {
    ReadNatBound(digits);
    assert Pow256(1) == 256 && Pow256(2) == 65536 && Pow256(3) == 0x1000000 && Pow256(4) == 0x1_0000_0000;
    assert Pow10(1) == 10 && Pow10(2) == 100 && Pow10(3) == 1000 && Pow10(4) == 10000 && Pow10(5) == 100000;
    assert Pow10(6) == 1000000 && Pow10(7) == 10000000 && Pow10(8) == 100000000 && Pow10(9) == 1000000000;
  }

  // The reader's table is the storage rule.
  lemma TableAgrees(digits: nat)
    requires digits <= 9
    ensures ByteCount(digits) == StoredBytes(digits) && (digits > 0 ==> StoredBytes(digits) > 0)
  {
  }

  lemma SignsStep(negative: bool, b: Byte, bs: Bytes)
    ensures Signs(negative, [b] + bs) == [Inverted(negative, b)] + Signs(negative, bs)
  {
    assert ([b] + bs)[1..] == bs;
  }

  lemma {:induction false} SignsAppend(negative: bool, a: Bytes, b: Bytes)
    ensures Signs(negative, a + b) == Signs(negative, a) + Signs(negative, b)
    decreases |a|
  {
    if a == [] {
      assert a + b == b;
    } else {
      hide Signs;
      var x, tail := [Inverted(negative, a[0])], a[1..];
      SignsStep(negative, a[0], tail + b);
      SignsStep(negative, a[0], tail);
      SignsAppend(negative, tail, b);
      assert a == [a[0]] + tail && a + b == [a[0]] + (tail + b);
      assert x + (Signs(negative, tail) + Signs(negative, b)) == x + Signs(negative, tail) + Signs(negative, b);
    }
  }

  lemma {:induction false} FromInverted(bs: Bytes)
    ensures FromBigEndian(Signs(true, bs)) + FromBigEndian(bs) == Pow256(|bs|) - 1
    ensures FromBigEndian(Signs(false, bs)) == FromBigEndian(bs)
    decreases |bs|
  {
    if bs != [] {
      var front, last := bs[..|bs| - 1], bs[|bs| - 1];
      FromInverted(front);
      assert bs == front + [last];
      SignsAppend(true, front, [last]);
      SignsAppend(false, front, [last]);
      assert Signs(true, bs)[..|bs| - 1] == Signs(true, front);
      assert Signs(false, bs)[..|bs| - 1] == Signs(false, front);
    }
  }

  lemma EvenPow256(k: nat)
    requires k > 0
    ensures Pow256(k) % 2 == 0
  {
  }

  lemma PartRoundTrip(digits: string, negative: bool, rest: Bytes)
    requires AllDigits(digits) && 1 <= |digits| <= 9
    ensures ReadPart(ByteCount(|digits|), negative, Signs(negative, Group(digits)) + rest) == Ok(ReadNat(digits), rest)
  {
    hide FromBigEndian, BigEndian, Pow256, ReadNat, ByteCount, StoredBytes, Signs, AllDigits;
    var k, bs := StoredBytes(|digits|), Group(digits);
    TableAgrees(|digits|);
    PartFits(digits);
    EvenPow256(k);
    BigEndianRoundTrip(ReadNat(digits), k);
    FromInverted(bs);
    TakeFront(Signs(negative, bs), rest);
  }

  lemma ReadGroupsStep(k: nat, negative: bool, s: Bytes, n: int, tail: Bytes, text: string, rest: Bytes)
    requires k > 0 && ReadPart(4, negative, s) == Ok(n, tail) && ReadGroups(k - 1, negative, tail) == Ok(text, rest)
    ensures ReadGroups(k, negative, s) == Ok(ZeroPad(9, n) + text, rest)
  {
    hide ReadPart, ZeroPad;
  }

  lemma {:induction false} GroupsRoundTrip(digits: string, negative: bool, rest: Bytes)
    requires AllDigits(digits) && |digits| % 9 == 0
    ensures ReadGroups(|digits| / 9, negative, Signs(negative, Groups(digits)) + rest) == Ok(digits, rest)
    decreases |digits|
  {
    if digits == "" {
      assert Signs(negative, []) + rest == rest;
    } else {
      hide ZeroPad, ReadPart, ReadGroups, Group, Signs, AllDigits, Groups, ReadNat, ByteCount;
      var a, b := digits[..9], digits[9..];
      GroupsStep(digits);
      SignsAppend(negative, Group(a), Groups(b));
      var s, tail := Signs(negative, Groups(digits)) + rest, Signs(negative, Groups(b)) + rest;
      assert s == Signs(negative, Group(a)) + tail;
      PartRoundTrip(a, negative, tail);
      ZeroPadRead(a);
      GroupsRoundTrip(b, negative, rest);
      ReadGroupsStep(|digits| / 9, negative, s, ReadNat(a), tail, b, rest);
      assert digits == a + b;
    }
  }

  lemma GroupsStep(digits: string)
    requires AllDigits(digits) && |digits| % 9 == 0 && digits != ""
    ensures |digits| >= 9 && AllDigits(digits[..9]) && AllDigits(digits[9..]) && ByteCount(9) == 4
    ensures Groups(digits) == Group(digits[..9]) + Groups(digits[9..])
  {
    Cut(digits, 9);
  }

  // ---- the top bit ----

  predicate TopClear(bs: Bytes) {
    bs != [] ==> bs[0] < 128
  }

  lemma {:induction false} TopOfBigEndian(n: nat, k: nat)
    requires 2 * n < Pow256(k)
    ensures TopClear(BigEndian(n, k))
  {
    if k > 1 {
      TopOfBigEndian(n / 256, k - 1);
    }
  }

  lemma TopOfGroup(digits: string)
    requires AllDigits(digits) && |digits| <= 9
    ensures TopClear(Group(digits))
  {
    if digits != "" {
      PartFits(digits);
      TopOfBigEndian(ReadNat(digits), StoredBytes(|digits|));
    }
  }

  lemma TopOfGroups(digits: string)
    requires AllDigits(digits) && |digits| % 9 == 0
    ensures TopClear(Groups(digits))
  {
    if digits != "" {
      GroupsStep(digits);
      TopOfGroup(digits[..9]);
    }
  }

  lemma TopOfMagnitude(whole: string, fraction: string)
    requires AllDigits(whole) && AllDigits(fraction)
    ensures TopClear(Magnitude(whole, fraction))
  {
    var lead, full := |whole| % 9, |fraction| - |fraction| % 9;
    Cut(whole, lead);
    Cut(fraction, full);
    TopOfGroup(whole[..lead]);
    TopOfGroups(whole[lead..]);
    TopOfGroups(fraction[..full]);
    TopOfGroup(fraction[full..]);
  }

  lemma SomeBytes(whole: string, fraction: string)
    requires AllDigits(whole) && AllDigits(fraction) && whole + fraction != ""
    ensures Magnitude(whole, fraction) != []
  {
    hide Group, Groups, AllDigits;
    var lead, full := |whole| % 9, |fraction| - |fraction| % 9;
    Cut(whole, lead);
    Cut(fraction, full);
    PartTakes(whole[..lead]);
    PartsTake(whole[lead..]);
    PartsTake(fraction[..full]);
    PartTakes(fraction[full..]);
  }

  lemma PartTakes(digits: string)
    requires AllDigits(digits) && |digits| <= 9
    ensures digits != "" ==> |Group(digits)| > 0
  {
  }

  lemma PartsTake(digits: string)
    requires AllDigits(digits) && |digits| % 9 == 0
    ensures digits != "" ==> |Groups(digits)| > 0
  {
    if digits != "" {
      GroupsStep(digits);
      hide Group, Groups;
      PartTakes(digits[..9]);
    }
  }

  // ---- the whole number ----

  lemma LeadRoundTrip(digits: string, negative: bool, rest: Bytes) returns (text: string)
    requires AllDigits(digits) && |digits| <= 9
    ensures ReadLead(|digits|, negative, Signs(negative, Group(digits)) + rest) == Ok(text, rest)
    ensures AllDigits(text) && ReadNat(text) == ReadNat(digits) && (digits == "" <==> text == "")
  {
    if digits == "" {
      text := "";
      assert Signs(negative, []) + rest == rest;
    } else {
      PartRoundTrip(digits, negative, rest);
      text := Show(ReadNat(digits));
      ReadShow(ReadNat(digits));
    }
  }

  lemma TrailRoundTrip(digits: string, negative: bool, rest: Bytes)
    requires AllDigits(digits) && |digits| <= 9
    ensures ReadTrail(|digits|, negative, Signs(negative, Group(digits)) + rest) == Ok(digits, rest)
  {
    if digits == "" {
      assert Signs(negative, []) + rest == rest;
    } else {
      PartRoundTrip(digits, negative, rest);
      ZeroPadRead(digits);
    }
  }

  lemma ReadPartsFrom(lead: nat, groups: nat, fractionGroups: nat, trail: nat, negative: bool, s: Bytes,
                      a: string, s1: Bytes, b: string, s2: Bytes, c: string, s3: Bytes, d: string, rest: Bytes)
    requires lead < 9 && trail < 9
    requires ReadLead(lead, negative, s) == Ok(a, s1) && ReadGroups(groups, negative, s1) == Ok(b, s2)
    requires ReadGroups(fractionGroups, negative, s2) == Ok(c, s3) && ReadTrail(trail, negative, s3) == Ok(d, rest)
    ensures ReadParts(lead, groups, fractionGroups, trail, negative, s) == Ok(a + b + "." + (c + d), rest)
  {
    hide ReadLead, ReadGroups, ReadTrail;
    assert a + b + "." + c + d == a + b + "." + (c + d);
  }

  // a and d are the digits left over.
  lemma PartsRead(a: string, b: string, c: string, d: string, negative: bool,
                  s: Bytes, s1: Bytes, s2: Bytes, s3: Bytes, rest: Bytes) returns (text: string)
    requires AllDigits(a) && AllDigits(b) && AllDigits(c) && AllDigits(d)
    requires |a| < 9 && |b| % 9 == 0 && |c| % 9 == 0 && |d| < 9
    requires s == Signs(negative, Group(a)) + s1 && s1 == Signs(negative, Groups(b)) + s2
    requires s2 == Signs(negative, Groups(c)) + s3 && s3 == Signs(negative, Group(d)) + rest
    ensures AllDigits(text) && ReadNat(text) == ReadNat(a) && (a == "" <==> text == "")
    ensures ReadText(|a| + |b|, |c| + |d|, negative, s) == Ok(text + b + "." + (c + d), rest)
  {
    hide Signs, Group, Groups, ReadLead, ReadGroups, ReadTrail, ReadParts, ReadNat, AllDigits;
    text := LeadRoundTrip(a, negative, s1);
    GroupsRoundTrip(b, negative, s2);
    GroupsRoundTrip(c, negative, s3);
    TrailRoundTrip(d, negative, rest);
    Quotients(|a|, |b|);
    Quotients(|d|, |c|);
    ReadPartsFrom(|a|, |b| / 9, |c| / 9, |d|, negative, s, text, s1, b, s2, c, s3, d, rest);
  }

  lemma PartsRoundTrip(a: string, b: string, c: string, d: string, negative: bool, rest: Bytes) returns (text: string)
    requires AllDigits(a) && AllDigits(b) && AllDigits(c) && AllDigits(d)
    requires |a| < 9 && |b| % 9 == 0 && |c| % 9 == 0 && |d| < 9
    ensures AllDigits(a + b) && AllDigits(c + d) && AllDigits(text)
    ensures ReadNat(text) == ReadNat(a + b)
    ensures a + b == "" <==> text == ""
    ensures ReadText(|a + b|, |c + d|, negative, Signs(negative, Magnitude(a + b, c + d)) + rest)
         == Ok(text + "." + (c + d), rest)
  {
    hide Signs, Group, Groups, Magnitude, ReadText, ReadNat, Pow10, AllDigits;
    var s, s1, s2, s3 := MagnitudeParts(a, b, c, d, negative, rest);
    var lead := PartsRead(a, b, c, d, negative, s, s1, s2, s3, rest);
    SameValue(lead, a, b);
    text := lead + b;
    Nothing(lead, a, b);
  }

  lemma Nothing(x: string, a: string, b: string)
    requires x == "" <==> a == ""
    ensures x + b == "" <==> a + b == ""
  {
  }

  lemma SameValue(x: string, a: string, b: string)
    requires AllDigits(x) && AllDigits(a) && AllDigits(b) && ReadNat(x) == ReadNat(a)
    ensures AllDigits(x + b) && AllDigits(a + b) && ReadNat(x + b) == ReadNat(a + b)
  {
    hide ReadNat, AllDigits;
    ReadNatAppend(x, b);
    ReadNatAppend(a, b);
  }

  lemma Remainder(n: nat)
    ensures n - n / 9 * 9 == n % 9 < 9
  {
  }

  lemma Quotients(r: nat, m: nat)
    requires r < 9 && m % 9 == 0
    ensures (r + m) % 9 == r && (r + m) / 9 == m / 9
  {
  }

  lemma TextRoundTrip(whole: string, fraction: string, negative: bool, rest: Bytes) returns (text: string)
    requires AllDigits(whole) && AllDigits(fraction)
    ensures AllDigits(text) && ReadNat(text) == ReadNat(whole) && (whole == "" <==> text == "")
    ensures ReadText(|whole|, |fraction|, negative, Signs(negative, Magnitude(whole, fraction)) + rest)
         == Ok(text + "." + fraction, rest)
  {
    hide Signs, Magnitude, ReadText, ReadNat;
    var lead, full := |whole| % 9, |fraction| - |fraction| % 9;
    Cut(whole, lead);
    Cut(fraction, full);
    assert whole == whole[..lead] + whole[lead..] && fraction == fraction[..full] + fraction[full..];
    text := PartsRoundTrip(whole[..lead], whole[lead..], fraction[..full], fraction[full..], negative, rest);
  }

  lemma MagnitudeParts(a: string, b: string, c: string, d: string, negative: bool, rest: Bytes)
    returns (s: Bytes, s1: Bytes, s2: Bytes, s3: Bytes)
    requires AllDigits(a) && AllDigits(b) && AllDigits(c) && AllDigits(d)
    requires |a| < 9 && |b| % 9 == 0 && |c| % 9 == 0 && |d| < 9
    ensures AllDigits(a + b) && AllDigits(c + d) && s == Signs(negative, Magnitude(a + b, c + d)) + rest
    ensures s == Signs(negative, Group(a)) + s1 && s1 == Signs(negative, Groups(b)) + s2
    ensures s2 == Signs(negative, Groups(c)) + s3 && s3 == Signs(negative, Group(d)) + rest
  {
    hide Signs, Group, Groups;
    assert (a + b)[..|a|] == a && (a + b)[|a|..] == b && (c + d)[..|c|] == c && (c + d)[|c|..] == d;
    var w, x, y, z := Group(a), Groups(b), Groups(c), Group(d);
    assert Magnitude(a + b, c + d) == w + (x + (y + z));
    SignsAppend(negative, w, x + (y + z));
    SignsAppend(negative, x, y + z);
    SignsAppend(negative, y, z);
    s3 := Signs(negative, z) + rest;
    s2 := Signs(negative, y) + s3;
    s1 := Signs(negative, x) + s2;
    s := Signs(negative, w) + s1;
  }

  lemma ParseText(negative: bool, whole: string, fraction: string)
    requires AllDigits(whole) && AllDigits(fraction) && whole + fraction != ""
    ensures AllDigits(whole + fraction)
    ensures ParseDecimal(Sign(negative) + (whole + "." + fraction))
         == Some(Decimal(negative, ReadNat(whole + fraction), |fraction|))
  {
    var body := whole + "." + fraction;
    var text := Sign(negative) + body;
    if negative {
      assert text[1..] == body;
    } else {
      assert text == body && (whole != "" ==> body[0] in whole);
    }
    FindAfter(whole, '.', fraction);
    assert body[..|whole|] == whole && body[|whole| + 1..] == fraction;
  }

  lemma FirstByteSigns(negative: bool, m: Bytes)
    requires m != [] && TopClear(m)
    ensures Signs(negative, m)[0] < 128 <==> !negative
  {
  }

  lemma DecimalFrom(precision: nat, decimals: nat, bs: Bytes, rest: Bytes)
    requires decimals <= precision && bs != []
    ensures var negative := bs[0] >= 128;
            (ReadDecimal(precision, decimals, Cursor([Flip(bs[0])] + bs[1..] + rest, 0))
             == ToDecimal(negative, Cursor(bs + rest, 1), ReadText(precision - decimals, decimals, negative, bs + rest)))
  {
    hide ReadText, ToDecimal;
    var first := Flip(bs[0]);
    var c := Cursor([first] + bs[1..] + rest, 0);
    assert c.rest[..1] == [first] && c.rest[1..] == bs[1..] + rest;
    assert FromLittleEndian([first]) == first by { assert [first][1..] == []; }
    assert Flip(first) == bs[0];
    assert PutBack(Cursor(c.rest[1..], 0), [bs[0]]).rest == bs + rest;
  }

  // Whatever the precision, the scale and the sign, what is read is the decimal that the text of the
  // stored number denotes, and exactly the number's bytes are taken.
  lemma NewDecimalRoundTrip(negative: bool, whole: string, fraction: string, rest: Bytes)
    requires AllDigits(whole) && AllDigits(fraction) && whole + fraction != ""
    ensures AllDigits(whole + fraction) && ParseDecimal(Sign(negative) + (whole + "." + fraction)).Some?
    ensures ReadDecimal(|whole| + |fraction|, |fraction|, Cursor(Encode(negative, whole, fraction) + rest, 0))
         == Done(ParseDecimal(Sign(negative) + (whole + "." + fraction)).value, Cursor(rest, 0))
         == Done(Decimal(negative, ReadNat(whole + fraction), |fraction|), Cursor(rest, 0))
  {
    hide Magnitude, Signs, ReadText, ParseDecimal, ReadDecimal, ReadNat;
    var m := Magnitude(whole, fraction);
    SomeBytes(whole, fraction);
    TopOfMagnitude(whole, fraction);
    FirstByteSigns(negative, m);
    var bs := Signs(negative, m);
    DecimalFrom(|whole| + |fraction|, |fraction|, bs, rest);
    var text := TextRoundTrip(whole, fraction, negative, rest);
    ReadNatAppend(text, fraction);
    ReadNatAppend(whole, fraction);
    ParseText(negative, text, fraction);
    ParseText(negative, whole, fraction);
  }

  // ---- the method ----

  method ReadPartOf(packet: Packet, size: nat, negative: bool) returns (n: int, ok: bool)
    requires packet.Valid()
    modifies packet
    ensures packet.Valid()
    ensures ok == ReadPart(size, negative, old(packet.Remaining())).Ok?
    ensures ok ==> ReadPart(size, negative, old(packet.Remaining())) == Ok(n, packet.Remaining())
    ensures ok ==> packet.Moved(old(packet.Remaining()), old(packet.readBytes), |old(packet.dataBuffer)|)
  {
    n, ok := packet.ReadIntBE(size);
    n := if negative then -n - 1 else n;
  }

  // One of the two loops over full groups, appending to res.
  method AppendGroups(packet: Packet, k: nat, negative: bool, res: string) returns (text: string, ok: bool)
    requires packet.Valid()
    modifies packet
    ensures packet.Valid()
    ensures ok == ReadGroups(k, negative, old(packet.Remaining())).Ok?
    ensures ok ==> Then(res, ReadGroups(k, negative, old(packet.Remaining()))) == Ok(text, packet.Remaining())
    ensures ok ==> packet.Moved(old(packet.Remaining()), old(packet.readBytes), |old(packet.dataBuffer)|)
  {
    hide ReadPart, ZeroPad;
    ghost var s := packet.Remaining();
    text, ok := res, true;
    for i := 0 to k
      invariant packet.Valid() && packet.Moved(s, old(packet.readBytes), |old(packet.dataBuffer)|)
      invariant Then(res, ReadGroups(k, negative, s)) == Then(text, ReadGroups(k - i, negative, packet.Remaining()))
    {
      var n;
      n, ok := ReadPartOf(packet, 4, negative);
      if !ok {
        return;
      }
      ThenAppend(text, ZeroPad(9, n), ReadGroups(k - i - 1, negative, packet.Remaining()));
      text := text + ZeroPad(9, n);
    }
    assert text + "" == text;
    ok := true;
  }

  lemma ThenAppend(a: string, b: string, r: Parsed<string>)
    ensures Then(a + b, r) == Then(a, Then(b, r))
  {
    if r.Ok? {
      assert a + b + r.value == a + (b + r.value);
    }
  }

  // What the loops yield, as ReadParts puts it together.
  lemma ReadPartsSteps(lead: nat, groups: nat, fractionGroups: nat, trail: nat, negative: bool, s: Bytes, sign: string)
    requires lead < 9 && trail < 9
    ensures var a := ReadLead(lead, negative, s);
            a.Ok? ==>
              var b := Then(sign + a.value, ReadGroups(groups, negative, a.rest));
              b.Ok? ==>
                var c := Then(b.value + ".", ReadGroups(fractionGroups, negative, b.rest));
                c.Ok? ==>
                  Then(sign, ReadParts(lead, groups, fractionGroups, trail, negative, s))
                  == Then(c.value, ReadTrail(trail, negative, c.rest))
  {
    hide ReadLead, ReadGroups, ReadTrail;
    var a := ReadLead(lead, negative, s);
    if a.Ok? {
      var b := ReadGroups(groups, negative, a.rest);
      if b.Ok? {
        var c := ReadGroups(fractionGroups, negative, b.rest);
        if c.Ok? {
          var text := a.value + b.value + "." + c.value;
          assert sign + a.value + b.value + "." + c.value == sign + text;
          ThenAppend(sign, text, ReadTrail(trail, negative, c.rest));
        }
      }
    }
  }

  method AppendLead(packet: Packet, digits: nat, negative: bool, res: string) returns (text: string, ok: bool)
    requires packet.Valid() && digits <= 9
    modifies packet
    ensures packet.Valid()
    ensures ok == ReadLead(digits, negative, old(packet.Remaining())).Ok?
    ensures ok ==> Then(res, ReadLead(digits, negative, old(packet.Remaining()))) == Ok(text, packet.Remaining())
    ensures ok ==> packet.Moved(old(packet.Remaining()), old(packet.readBytes), |old(packet.dataBuffer)|)
  {
    hide ReadPart, Show;
    var size, value := ByteCount(digits), 0;
    text, ok := res, true;
    assert res + "" == res;
    if size > 0 {
      value, ok := ReadPartOf(packet, size, negative);
      text := res + ShowInt(value);
    }
  }

  method AppendTrail(packet: Packet, digits: nat, negative: bool, res: string) returns (text: string, ok: bool)
    requires packet.Valid() && digits <= 9
    modifies packet
    ensures packet.Valid()
    ensures ok == ReadTrail(digits, negative, old(packet.Remaining())).Ok?
    ensures ok ==> Then(res, ReadTrail(digits, negative, old(packet.Remaining()))) == Ok(text, packet.Remaining())
    ensures ok ==> packet.Moved(old(packet.Remaining()), old(packet.readBytes), |old(packet.dataBuffer)|)
  {
    hide ReadPart, ZeroPad;
    var size, value := ByteCount(digits), 0;
    text, ok := res, true;
    assert res + "" == res;
    if size > 0 {
      value, ok := ReadPartOf(packet, size, negative);
      text := res + ZeroPad(digits, value);
    }
  }

  // The text with its sign in front.
  method AppendParts(packet: Packet, lead: nat, groups: nat, fractionGroups: nat, trail: nat, negative: bool, sign: string)
    returns (res: string, ok: bool)
    requires packet.Valid() && lead < 9 && trail < 9
    modifies packet
    ensures packet.Valid()
    ensures ok == ReadParts(lead, groups, fractionGroups, trail, negative, old(packet.Remaining())).Ok?
    ensures ok ==> Then(sign, ReadParts(lead, groups, fractionGroups, trail, negative, old(packet.Remaining())))
                   == Ok(res, packet.Remaining())
    ensures ok ==> packet.Moved(old(packet.Remaining()), old(packet.readBytes), |old(packet.dataBuffer)|)
  {
    ReadPartsSteps(lead, groups, fractionGroups, trail, negative, packet.Remaining(), sign);
    hide ReadLead, ReadGroups, ReadTrail;
    res, ok := AppendLead(packet, lead, negative, sign);
    if ok {
      res, ok := AppendGroups(packet, groups, negative, res);
    }
    if ok {
      res, ok := AppendGroups(packet, fractionGroups, negative, res + ".");
    }
    if ok {
      res, ok := AppendTrail(packet, trail, negative, res);
    }
  }

  // __read_new_decimal
  method ReadNewDecimal(packet: Packet, precision: nat, decimals: nat) returns (d: Decimal, ok: bool)
    requires packet.Valid() && decimals <= precision
    modifies packet
    ensures packet.Valid()
    ensures ok == ReadDecimal(precision, decimals, old(packet.State())).Done?
    ensures ok ==> ReadDecimal(precision, decimals, old(packet.State())) == Done(d, packet.State())
    ensures ok ==> packet.Total() == old(packet.Total())
  {
    hide ReadParts, ParseDecimal;
    d := Decimal(false, 0, 0);
    var integral := precision - decimals;
    var uncompIntegral, uncompFractional := integral / 9, decimals / 9;
    var compIntegral, compFractional := integral - uncompIntegral * 9, decimals - uncompFractional * 9;
    Remainder(integral);
    Remainder(decimals);
    var first, res;
    ghost var s := packet.Remaining();
    first, ok := packet.ReadUInt(1);
    if !ok {
      return;
    }
    FromLittleEndianBound(s[..1]);
    var negative := first < 128;
    packet.Unread([Flip(first)]);
    ghost var c2 := packet.State();
    res, ok := AppendParts(packet, compIntegral, uncompIntegral, uncompFractional, compFractional, negative,
                           if negative then "-" else "");
    if !ok {
      return;
    }
    match ParseDecimal(res) {
      case None => return d, false;
      case Some(parsed) => d := parsed;
    }
  }
}
