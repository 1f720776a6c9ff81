// Exactly which texts the converters' fast paths take, and as what.
module ConverterTexts {
  import opened Binary
  import opened Calendar
  import opened DecimalText
  import opened Converters

  // Nothing, or a point and at least one character; the first six are digits and stand for microseconds,
  // with zeros for those that are missing, and what comes behind them does not matter.
  ghost predicate IsFraction(f: string, micros: int) {
    if f == "" then micros == 0
    else
      && |f| > 1 && f[0] == '.'
      && var n := if |f| < 7 then |f| - 1 else 6;
         AllDigits(f[1..n + 1]) && AllDigits(f[1..n + 1] + "000000"[n..])
         && micros == ReadNat(f[1..n + 1] + "000000"[n..])
  }

  ghost predicate IsField(s: string, width: nat, n: int) {
    |s| == width && AllDigits(s) && n == ReadNat(s)
  }

  // What the fast path makes of a fraction.
  function FastFraction(f: string): int {
    if f == "" then 0 else if |f| > 1 && f[0] == '.' then Fraction(f[1..]) else -1
  }

  lemma FractionIs(f: string, micros: int)
    ensures micros >= 0 && FastFraction(f) == micros <==> IsFraction(f, micros)
  {
    if |f| > 1 {
      var t := f[1..];
      var n := if |t| < 6 then |t| else 6;
      assert t[..n] == f[1..n + 1];
      Zeros(n);
      if AllDigits(t[..n]) {
        ReadNatAppend(t[..n], "000000"[n..]);
      }
    }
  }

  lemma Zeros(n: nat)
    requires n <= 6
    ensures AllDigits("000000"[n..]) && ReadNat("000000"[n..]) == 0 && |"000000"[n..]| == 6 - n
    decreases 6 - n
  {
    var z := "000000"[n..];
    if n < 6 {
      Zeros(n + 1);
      assert z[..|z| - 1] == "000000"[n + 1..];
    }
  }

  lemma FieldIs(s: string, width: nat, n: int)
    ensures |s| == width && n >= 0 && Number(s) == n <==> IsField(s, width, n)
  {
  }

  // ---- datetimes ----

  ghost predicate IsDatetimeText(s: string, d: DateTime, sep: string, y: string, mo: string, da: string, h: string,
                                 mi: string, se: string, f: string) {
    && s == y + "-" + mo + "-" + da + sep + h + ":" + mi + ":" + se + f && sep in {" ", "T"}
    && IsField(y, 4, d.year) && IsField(mo, 2, d.month) && IsField(da, 2, d.day)
    && IsField(h, 2, d.hour) && IsField(mi, 2, d.minute) && IsField(se, 2, d.second) && IsFraction(f, d.micros)
  }

  ghost predicate DenotesDatetime(s: string, d: DateTime) {
    exists sep, y, mo, da, h, mi, se, f :: IsDatetimeText(s, d, sep, y, mo, da, h, mi, se, f)
  }

  // The fast path takes exactly the texts YYYY-MM-DD HH:MM:SS[.f…], with a T for the space if need be, of
  // dates and times that exist.
  lemma FastDatetimeIff(s: string, d: DateTime)
    ensures FastDatetime(s) == Some(d) <==> DenotesDatetime(s, d) && IsDate(d.year, d.month, d.day) && IsTime(d.hour, d.minute, d.second)
  {
    hide IsFraction, IsField, IsDate, IsTime, FastDatetime;
    if FastDatetime(s) == Some(d) {
      DatetimeTaken(s, d);
    }
    if DenotesDatetime(s, d) && IsDate(d.year, d.month, d.day) && IsTime(d.hour, d.minute, d.second) {
      var sep, y, mo, da, h, mi, se, f :| IsDatetimeText(s, d, sep, y, mo, da, h, mi, se, f);
      DatetimeTakes(s, d, sep, y, mo, da, h, mi, se, f);
    }
  }

  lemma DatetimeTaken(s: string, d: DateTime)
    requires FastDatetime(s) == Some(d)
    ensures IsDate(d.year, d.month, d.day) && IsTime(d.hour, d.minute, d.second)
    ensures DenotesDatetime(s, d)
  {
    hide Number, Fraction, IsFraction, IsField;
    var y, mo, da, sep, h, mi, se, f := s[..4], s[5..7], s[8..10], s[10..11], s[11..13], s[14..16], s[17..19], s[19..];
    assert f == "" || (|f| > 1 && f[0] == '.' && f[1..] == s[20..]);
    FractionIs(f, d.micros);
    FieldIs(y, 4, d.year);
    FieldIs(mo, 2, d.month);
    FieldIs(da, 2, d.day);
    FieldIs(h, 2, d.hour);
    FieldIs(mi, 2, d.minute);
    FieldIs(se, 2, d.second);
    assert s == y + "-" + mo + "-" + da + sep + h + ":" + mi + ":" + se + f;
    assert sep == " " || sep == "T";
    assert IsDatetimeText(s, d, sep, y, mo, da, h, mi, se, f);
  }

  lemma DatetimeTakes(s: string, d: DateTime, sep: string, y: string, mo: string, da: string, h: string, mi: string,
                      se: string, f: string)
    requires IsDatetimeText(s, d, sep, y, mo, da, h, mi, se, f)
    requires IsDate(d.year, d.month, d.day) && IsTime(d.hour, d.minute, d.second)
    ensures FastDatetime(s) == Some(d)
  {
    hide Number, Fraction, IsFraction, IsDate, IsTime;
    FractionIs(f, d.micros);
    FieldIs(y, 4, d.year);
    FieldIs(mo, 2, d.month);
    FieldIs(da, 2, d.day);
    FieldIs(h, 2, d.hour);
    FieldIs(mi, 2, d.minute);
    FieldIs(se, 2, d.second);
    hide IsField;
    Slices(s, y, mo, da, sep, h, mi, se, f);
    if f != "" {
      assert s[19] == f[0] && s[20..] == f[1..];
    }
    RealYear(d);
  }

  lemma Slices(s: string, y: string, mo: string, da: string, sep: string, h: string, mi: string, se: string, f: string)
    requires |y| == 4 && |mo| == |da| == |h| == |mi| == |se| == 2 && |sep| == 1
    requires s == y + "-" + mo + "-" + da + sep + h + ":" + mi + ":" + se + f
    ensures |s| == 19 + |f| && s[4] == '-' && s[7] == '-' && s[10] == sep[0] && s[13] == ':' && s[16] == ':'
    ensures s[..4] == y && s[5..7] == mo && s[8..10] == da && s[11..13] == h && s[14..16] == mi && s[17..19] == se
    ensures s[19..] == f
  {
  }

  lemma RealYear(d: DateTime)
    requires IsDate(d.year, d.month, d.day)
    ensures d.year >= 1
  {
  }

  // ---- times ----

  function Minus(negative: bool): string {
    if negative then "-" else ""
  }

  ghost predicate IsTimeText(s: string, negative: bool, h: string, mi: string, se: string, f: string, minute: int, second: int,
                             micros: int) {
    && s == Minus(negative) + h + ":" + mi + ":" + se + f
    && 1 <= |h| <= 3 && AllDigits(h)
    && IsField(mi, 2, minute) && minute < 60 && IsField(se, 2, second) && second < 60 && IsFraction(f, micros)
  }

  ghost predicate DenotesTime(s: string, total: int) {
    exists negative, h, mi, se, f, minute, second, micros ::
      && IsTimeText(s, negative, h, mi, se, f, minute, second, micros)
      && var t := ((ReadNat(h) * 60 + minute) * 60 + second) * 1000000 + micros;
         total == if negative then -t else t
  }

  // The fast path takes exactly the texts [-]H:MM:SS[.f…] with one to three digits for the hours.
  lemma FastTimedeltaIff(s: string, total: int)
    ensures FastTimedelta(s) == Some(total) <==> DenotesTime(s, total)
  {
    hide IsFraction, IsField, FastTimedelta;
    if FastTimedelta(s) == Some(total) {
      TimeTaken(s, total);
    }
    if DenotesTime(s, total) {
      var negative, h, mi, se, f, minute, second, micros :|
        && IsTimeText(s, negative, h, mi, se, f, minute, second, micros)
        && var t := ((ReadNat(h) * 60 + minute) * 60 + second) * 1000000 + micros;
           total == if negative then -t else t;
      TimeTakes(s, negative, h, mi, se, f, minute, second, micros);
    }
  }

  lemma TimeTaken(s: string, total: int)
    requires FastTimedelta(s) == Some(total)
    ensures DenotesTime(s, total)
  {
    var negative, h, mi, se, f, minute, second, micros := TimePieces(s, total);
    hide Fraction, IsFraction, IsField, ReadNat, Number, FastTimedelta;
    FractionIs(f, micros);
    FieldIs(mi, 2, minute);
    FieldIs(se, 2, second);
    assert IsTimeText(s, negative, h, mi, se, f, minute, second, micros);
  }

  lemma TimePieces(s: string, total: int)
    returns (negative: bool, h: string, mi: string, se: string, f: string, minute: int, second: int, micros: int)
    requires FastTimedelta(s) == Some(total)
    ensures s == Minus(negative) + h + ":" + mi + ":" + se + f && 1 <= |h| <= 3 && AllDigits(h) && |mi| == |se| == 2
    ensures Number(mi) == minute && Number(se) == second && FastFraction(f) == micros
    ensures 0 <= minute < 60 && 0 <= second < 60 && micros >= 0
    ensures var t := ((ReadNat(h) * 60 + minute) * 60 + second) * 1000000 + micros; total == if negative then -t else t
  {
    hide Fraction, HourDigits, ReadNat;
    negative := s != "" && s[0] == '-';
    var t := if negative then s[1..] else s;
    var k := HourDigits(t, 0);
    HourDigitsBound(t, 0);
    h, mi, se, f := t[..k], t[k + 1..k + 3], t[k + 4..k + 6], t[k + 6..];
    minute, second, micros := Number(mi), Number(se), FastFraction(f);
    assert f != "" ==> f[1..] == t[k + 7..];
    TimeValue(h, minute, second, micros);
    hide Number, TotalMicros, AllDigits, FastFraction;
    Pieces(s, Minus(negative), t, h, mi, se, f);
  }

  lemma TimeValue(h: string, minute: int, second: int, micros: int)
    requires AllDigits(h)
    ensures TotalMicros(0, Number(h) * 3600 + minute * 60 + second, micros)
         == ((ReadNat(h) * 60 + minute) * 60 + second) * 1000000 + micros
  {
    hide ReadNat;
  }

  lemma Pieces(s: string, sign: string, t: string, h: string, mi: string, se: string, f: string)
    requires s == sign + t && |t| == |h| + 6 + |f| && |mi| == |se| == 2 && t[|h|] == t[|h| + 3] == ':'
    requires h == t[..|h|] && mi == t[|h| + 1..|h| + 3] && se == t[|h| + 4..|h| + 6] && f == t[|h| + 6..]
    ensures s == sign + h + ":" + mi + ":" + se + f
  {
    assert t == h + ":" + mi + ":" + se + f;
  }

  lemma TimeTakes(s: string, negative: bool, h: string, mi: string, se: string, f: string, minute: int, second: int, micros: int)
    requires IsTimeText(s, negative, h, mi, se, f, minute, second, micros)
    ensures var t := ((ReadNat(h) * 60 + minute) * 60 + second) * 1000000 + micros;
            FastTimedelta(s) == Some(if negative then -t else t)
  {
    hide Number, Fraction, IsFraction, HourDigits, ReadNat, FastTimedelta;
    FractionIs(f, micros);
    FieldIs(mi, 2, minute);
    FieldIs(se, 2, second);
    FieldIs(h, |h|, ReadNat(h));
    var t := Unsigned(s, negative, h, mi, se, f);
    hide IsTimeText, IsField, AllDigits;
    TimeSlices(t, h, mi, se, f);
    TimedeltaFrom(s, negative, t, |h|, ReadNat(h), minute, second, micros, f);
  }

  lemma Unsigned(s: string, negative: bool, h: string, mi: string, se: string, f: string) returns (t: string)
    requires s == Minus(negative) + h + ":" + mi + ":" + se + f && 1 <= |h| <= 3 && AllDigits(h)
    ensures t == h + (":" + mi + ":" + se + f) && HourDigits(t, 0) == |h| && t[0] != '-'
    ensures if negative then s != "" && s[0] == '-' && s[1..] == t else s == t
  {
    hide HourDigits;
    t := h + (":" + mi + ":" + se + f);
    assert s == Minus(negative) + t;
    HoursEnd(h, ":" + mi + ":" + se + f);
    assert t[0] == h[0] && h[0] in h;
    assert ("-" + t)[1..] == t && "" + t == t;
  }

  lemma HoursEnd(h: string, rest: string)
    requires 1 <= |h| <= 3 && AllDigits(h) && rest != "" && rest[0] == ':'
    ensures HourDigits(h + rest, 0) == |h|
  {
    var s := h + rest;
    assert forall i :: 0 <= i < |h| ==> s[i] in h;
    assert s[|h|] == ':';
    assert HourDigits(s, 3) == 3;
    assert |h| == 2 ==> HourDigits(s, 2) == 2;
    assert HourDigits(s, 1) == |h|;
  }
}
