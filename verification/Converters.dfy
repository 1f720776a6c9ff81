// Dates and times as text: what the driver and the server write, and the converters' fast paths.
module Converters {
  import opened Binary
  import opened Calendar
  import opened DecimalText

  datatype DateTime = DateTime(year: nat, month: nat, day: nat, hour: nat, minute: nat, second: nat, micros: nat)

  predicate IsDateTime(d: DateTime) {
    IsDate(d.year, d.month, d.day) && IsTime(d.hour, d.minute, d.second) && d.micros < 1000000
  }

  // ---- texts ----

  // k digits behind the point of the second, 0 to 6 of them.
  function FractionText(k: nat, micros: nat): string
    requires k <= 6
  {
    if k == 0 then "" else "." + ZeroPad(k, micros / Pow10(6 - k))
  }

  // YYYY-MM-DD HH:MM:SS[.ffffff]
  function DatetimeText(d: DateTime, k: nat): string
    requires k <= 6
  {
    ZeroPad(4, d.year) + "-" + ZeroPad(2, d.month) + "-" + ZeroPad(2, d.day) + " "
    + ZeroPad(2, d.hour) + ":" + ZeroPad(2, d.minute) + ":" + ZeroPad(2, d.second) + FractionText(k, d.micros)
  }

  // escape_datetime, without the quotes
  function EscapeDatetime(d: DateTime): string {
    DatetimeText(d, if d.micros == 0 then 0 else 6)
  }

  // [-]HH:MM:SS[.ffffff] with more digits for the hours where they are needed
  function TimeText(negative: bool, hours: nat, minute: nat, second: nat, k: nat, micros: nat): string
    requires k <= 6
  {
    (if negative then "-" else "")
    + (ZeroPad(2, hours) + (":" + ZeroPad(2, minute) + ":" + ZeroPad(2, second) + FractionText(k, micros)))
  }

  // escape_timedelta for a timedelta that is not negative, without the quotes
  function EscapeTimedelta(days: nat, seconds: nat, micros: nat): string {
    TimeText(false, seconds / 3600 % 24 + days * 24, seconds / 60 % 60, seconds % 60, if micros == 0 then 0 else 6, micros)
  }

  // ---- the fast paths ----

  // A number, or -1 when there is anything but digits.
  function Number(s: string): int {
    if AllDigits(s) then ReadNat(s) else -1
  }

  // The first six digits, as microseconds; -1 when one of them is no digit.
  function Fraction(s: string): int {
    var n := if |s| < 6 then |s| else 6;
    if AllDigits(s[..n]) then ReadNat(s[..n]) * Pow10(6 - n) else -1
  }

  function FastDatetime(s: string): Option<DateTime> {
    if |s| >= 19 && s[4] == '-' && s[7] == '-' && (s[10] == ' ' || s[10] == 'T') && s[13] == ':' && s[16] == ':' then
      var year, month, day := Number(s[..4]), Number(s[5..7]), Number(s[8..10]);
      var hour, minute, second := Number(s[11..13]), Number(s[14..16]), Number(s[17..19]);
      var micros := if |s| > 20 && s[19] == '.' then Fraction(s[20..]) else if |s| == 19 then 0 else -1;
      if year >= 1 && IsDate(year, month, day) && IsTime(hour, minute, second) && micros >= 0 then
        Some(DateTime(year, month, day, hour, minute, second, micros))
      else None
    else None
  }

  // How many of the first three characters are digits, up to the first that is none.
  function HourDigits(s: string, k: nat): nat
    requires k <= 3
    decreases 3 - k
  {
    if k < 3 && k < |s| && IsDigit(s[k]) then HourDigits(s, k + 1) else k
  }

  function Signed(negative: bool, n: int): int {
    if negative then -n else n
  }

  // The timedelta's microseconds.
  function FastTimedelta(s: string): Option<int> {
    var negative := s != "" && s[0] == '-';
    var t := if negative then s[1..] else s;
    var k := HourDigits(t, 0);
    HourDigitsBound(t, 0);
    if k > 0 && k + 6 <= |t| && t[k] == ':' && t[k + 3] == ':' then
      var hours, minute, second := Number(t[..k]), Number(t[k + 1..k + 3]), Number(t[k + 4..k + 6]);
      var micros := if |t| > k + 7 && t[k + 6] == '.' then Fraction(t[k + 7..]) else if |t| == k + 6 then 0 else -1;
      if 0 <= minute < 60 && 0 <= second < 60 && micros >= 0 then
        Some(Signed(negative, TotalMicros(0, hours * 3600 + minute * 60 + second, micros)))
      else None
    else None
  }

  lemma {:induction false} HourDigitsBound(s: string, k: nat)
    requires k <= 3 && k <= |s| && AllDigits(s[..k])
    ensures k <= HourDigits(s, k) <= 3 && HourDigits(s, k) <= |s| && AllDigits(s[..HourDigits(s, k)])
    ensures HourDigits(s, k) < 3 && HourDigits(s, k) < |s| ==> !IsDigit(s[HourDigits(s, k)])
    decreases 3 - k
  {
    if k < 3 && k < |s| && IsDigit(s[k]) {
      assert s[..k + 1] == s[..k] + [s[k]];
      HourDigitsBound(s, k + 1);
    }
  }

  // ---- reading back ----

  lemma FractionRead(k: nat, micros: nat)
    requires FractionFits(k, micros) && k > 0
    ensures var t := ZeroPad(k, micros / Pow10(6 - k)); |t| == k && Fraction(t) == micros
  {
    Tens();
    assert micros / Pow10(6 - k) < Pow10(k);
    FixedWidth(micros / Pow10(6 - k), k);
    var t := ZeroPad(k, micros / Pow10(6 - k));
    assert t[..k] == t;
    assert micros / Pow10(6 - k) * Pow10(6 - k) == micros;
  }

  lemma Tens()
    ensures Pow10(0) == 1 && Pow10(1) == 10 && Pow10(2) == 100 && Pow10(3) == 1000 && Pow10(4) == 10000
    ensures Pow10(5) == 100000 && Pow10(6) == 1000000
  {
  }

  lemma TwoDigits(n: nat)
    requires n < 100
    ensures |ZeroPad(2, n)| == 2 && Number(ZeroPad(2, n)) == n
  {
    Tens();
    FixedWidth(n, 2);
  }

  lemma FractionPart(k: nat, micros: nat)
    requires FractionFits(k, micros)
    ensures var f := FractionText(k, micros);
            if k == 0 then f == "" && micros == 0
            else |f| == k + 1 && f[0] == '.' && Fraction(f[1..]) == micros
  {
    Tens();
    if k > 0 {
      FractionRead(k, micros);
      assert FractionText(k, micros)[1..] == ZeroPad(k, micros / Pow10(6 - k));
    }
  }

  // With any number of fraction digits, the fast path reads back what was written.
  lemma DatetimeRoundTrip(d: DateTime, k: nat)
    requires IsDateTime(d) && FractionFits(k, d.micros)
    ensures FastDatetime(DatetimeText(d, k)) == Some(d)
  {
    Tens();
    FixedWidth(d.year, 4);
    TwoDigits(d.month);
    TwoDigits(d.day);
    TwoDigits(d.hour);
    TwoDigits(d.minute);
    TwoDigits(d.second);
    FractionPart(k, d.micros);
    hide ZeroPad, FractionText, Fraction, Number, Pow10, IsDate, FastDatetime;
    var y, mo, da := ZeroPad(4, d.year), ZeroPad(2, d.month), ZeroPad(2, d.day);
    var h, mi, se, f := ZeroPad(2, d.hour), ZeroPad(2, d.minute), ZeroPad(2, d.second), FractionText(k, d.micros);
    DatetimeSlices(DatetimeText(d, k), y, mo, da, h, mi, se, f);
    assert Number(y) == d.year by { FourRead(d.year); }
    DatetimeFrom(DatetimeText(d, k), d, f);
  }

  lemma FourRead(n: nat)
    requires n <= 9999
    ensures Number(ZeroPad(4, n)) == n
  {
    Tens();
    FixedWidth(n, 4);
  }

  lemma DatetimeSlices(s: string, y: string, mo: string, da: string, h: string, mi: string, se: string, f: string)
    requires |y| == 4 && |mo| == 2 && |da| == 2 && |h| == 2 && |mi| == 2 && |se| == 2
    requires s == y + "-" + mo + "-" + da + " " + h + ":" + mi + ":" + se + f
    ensures |s| == 19 + |f| && s[4] == '-' && s[7] == '-' && s[10] == ' ' && s[13] == ':' && s[16] == ':'
    ensures s[..4] == y && s[5..7] == mo && s[8..10] == da && s[11..13] == h && s[14..16] == mi && s[17..19] == se
    ensures s[19..] == f
  {
  }

  lemma DatetimeFrom(s: string, d: DateTime, f: string)
    requires |s| == 19 + |f| && s[4] == '-' && s[7] == '-' && s[10] == ' ' && s[13] == ':' && s[16] == ':'
    requires Number(s[..4]) == d.year && Number(s[5..7]) == d.month && Number(s[8..10]) == d.day
    requires Number(s[11..13]) == d.hour && Number(s[14..16]) == d.minute && Number(s[17..19]) == d.second
    requires IsDateTime(d) && s[19..] == f
    requires if f == "" then d.micros == 0 else |f| > 1 && f[0] == '.' && Fraction(f[1..]) == d.micros
    ensures FastDatetime(s) == Some(d)
  {
    hide Number, Fraction;
    if f != "" {
      assert s[19] == f[0] && s[20..] == f[1..];
    }
  }

  lemma EscapedDatetimeReadsBack(d: DateTime)
    requires IsDateTime(d)
    ensures FastDatetime(EscapeDatetime(d)) == Some(d)
  {
    Tens();
    DatetimeRoundTrip(d, if d.micros == 0 then 0 else 6);
  }

  lemma HoursRead(hours: nat, rest: string)
    requires hours < 1000 && rest != "" && rest[0] == ':'
    ensures var h := ZeroPad(2, hours); 2 <= |h| <= 3 && HourDigits(h + rest, 0) == |h| && Number(h) == hours
  {
    Tens();
    var h := ZeroPad(2, hours);
    if hours < 100 {
      TwoDigits(hours);
    } else {
      FixedWidth(hours, 3);
      ShowAtLeast(hours, 3);
      assert ZeroPad(2, hours) == "" + Show(hours) == Show(hours);
      assert ZeroPad(3, hours) == "" + Show(hours);
    }
    var s := h + rest;
    assert forall i :: 0 <= i < |h| ==> s[i] in h;
    assert HourDigits(s, 0) == HourDigits(s, 1) == HourDigits(s, 2);
  }

  lemma {:induction false} ShowAtLeast(n: nat, w: nat)
    requires w > 0 && n >= Pow10(w - 1)
    ensures |Show(n)| >= w
    decreases w
  {
    if w > 1 {
      ShowAtLeast(n / 10, w - 1);
    }
  }

  // Up to 999 hours, the fast path reads back what was written, with its sign.
  lemma TimeRoundTrip(negative: bool, hours: nat, minute: nat, second: nat, k: nat, micros: nat)
    requires hours < 1000 && minute < 60 && second < 60 && FractionFits(k, micros)
    ensures FastTimedelta(TimeText(negative, hours, minute, second, k, micros))
         == Some(Signed(negative, TotalMicros(0, hours * 3600 + minute * 60 + second, micros)))
  {
    hide ZeroPad, FractionText, Fraction, Number, HourDigits, TotalMicros, FastTimedelta, Pow10, TimeText;
    TwoDigits(minute);
    TwoDigits(second);
    FractionPart(k, micros);
    var h, mi, se, f := ZeroPad(2, hours), ZeroPad(2, minute), ZeroPad(2, second), FractionText(k, micros);
    var t := WithoutSign(negative, hours, minute, second, k, micros);
    TimeSlices(t, h, mi, se, f);
    TimedeltaFrom(TimeText(negative, hours, minute, second, k, micros), negative, t, |h|, hours, minute, second, micros, f);
  }

  lemma WithoutSign(negative: bool, hours: nat, minute: nat, second: nat, k: nat, micros: nat) returns (t: string)
    requires hours < 1000 && k <= 6
    ensures var h := ZeroPad(2, hours);
            && t == h + (":" + ZeroPad(2, minute) + ":" + ZeroPad(2, second) + FractionText(k, micros))
            && HourDigits(t, 0) == |h| > 0 && Number(h) == hours && t[0] != '-'
    ensures var s := TimeText(negative, hours, minute, second, k, micros);
            if negative then s != "" && s[0] == '-' && s[1..] == t else s == t
  {
    hide ZeroPad, FractionText, Number, HourDigits;
    var h := ZeroPad(2, hours);
    var rest := ":" + ZeroPad(2, minute) + ":" + ZeroPad(2, second) + FractionText(k, micros);
    t := h + rest;
    HoursRead(hours, rest);
    FirstDigit(h);
    assert "" + t == t && ("-" + t)[1..] == t;
  }

  lemma TimeSlices(t: string, h: string, mi: string, se: string, f: string)
    requires |mi| == 2 && |se| == 2 && t == h + (":" + mi + ":" + se + f)
    ensures var n := |h|;
            && |t| == n + 6 + |f| && t[..n] == h && t[n] == ':' && t[n + 1..n + 3] == mi && t[n + 3] == ':'
            && t[n + 4..n + 6] == se && t[n + 6..] == f
  {
  }

  lemma TimedeltaFrom(s: string, negative: bool, t: string, n: nat, hours: nat, minute: nat, second: nat, micros: nat, f: string)
    requires if negative then s != "" && s[0] == '-' && s[1..] == t else s == t && (t != "" ==> t[0] != '-')
    requires HourDigits(t, 0) == n > 0 && |t| == n + 6 + |f| && t[n] == ':' && t[n + 3] == ':' && t[n + 6..] == f
    requires Number(t[..n]) == hours && Number(t[n + 1..n + 3]) == minute && Number(t[n + 4..n + 6]) == second
    requires minute < 60 && second < 60
    requires if f == "" then micros == 0 else |f| > 1 && f[0] == '.' && Fraction(f[1..]) == micros
    ensures FastTimedelta(s) == Some(Signed(negative, TotalMicros(0, hours * 3600 + minute * 60 + second, micros)))
  {
    hide Number, Fraction, TotalMicros;
    if f != "" {
      assert t[n + 6] == f[0] && t[n + 7..] == f[1..];
    }
  }

  lemma FirstDigit(h: string)
    requires h != "" && Number(h) >= 0
    ensures h[0] != '-'
  {
    assert h[0] in h;
  }

  // A timedelta's own text is read back by the fast path exactly when it has fewer than 1000 hours.
  lemma EscapedTimedeltaIff(days: nat, seconds: nat, micros: nat)
    requires seconds < 86400 && micros < 1000000
    ensures FastTimedelta(EscapeTimedelta(days, seconds, micros)) == Some((days * 86400 + seconds) * 1000000 + micros)
       <==> seconds / 3600 + days * 24 < 1000
  {
    hide FastTimedelta, TimeText, TotalMicros;
    var hours, minute, second := seconds / 3600 % 24 + days * 24, seconds / 60 % 60, seconds % 60;
    var k := if micros == 0 then 0 else 6;
    SameTotal(days, seconds, micros);
    EscapeFits(micros);
    if hours < 1000 {
      TimeRoundTrip(false, hours, minute, second, k, micros);
    } else {
      LongHours(hours, minute, second, k, micros);
    }
  }

  lemma EscapeFits(micros: nat)
    requires micros < 1000000
    ensures FractionFits(if micros == 0 then 0 else 6, micros)
  {
    Tens();
  }

  lemma SameTotal(days: nat, seconds: nat, micros: nat)
    requires seconds < 86400
    ensures var hours, minute, second := seconds / 3600 % 24 + days * 24, seconds / 60 % 60, seconds % 60;
            && minute < 60 && second < 60 && hours == seconds / 3600 + days * 24
            && TotalMicros(0, hours * 3600 + minute * 60 + second, micros) == (days * 86400 + seconds) * 1000000 + micros
  {
    var h, m := seconds / 3600, seconds / 60;
    assert seconds == m * 60 + seconds % 60;
    assert m / 60 == h && h < 24;
    assert m == h * 60 + m % 60;
  }

  lemma LongHours(hours: nat, minute: nat, second: nat, k: nat, micros: nat)
    requires hours >= 1000 && k <= 6
    ensures FastTimedelta(TimeText(false, hours, minute, second, k, micros)) == None
  {
    Tens();
    ShowAtLeast(hours, 4);
    var h := ZeroPad(2, hours);
    assert h == "" + Show(hours) == Show(hours);
    var s := TimeText(false, hours, minute, second, k, micros);
    assert |h| >= 4 && s[..|h|] == h;
    assert forall i :: 0 <= i < 4 ==> s[i] == h[i] && h[i] in h;
    assert HourDigits(s, 0) == HourDigits(s, 1) == HourDigits(s, 2) == HourDigits(s, 3) == 3;
  }

  // ---- the methods ----

  // _p2
  function P2(s: string, i: nat): int
    requires i + 2 <= |s|
  {
    if !IsDigit(s[i]) || !IsDigit(s[i + 1]) then -1 else (s[i] as int - 48) * 10 + (s[i + 1] as int - 48)
  }

  lemma P2Number(s: string, i: nat)
    requires i + 2 <= |s|
    ensures P2(s, i) == Number(s[i..i + 2])
  {
    var t := s[i..i + 2];
    assert t == [s[i], s[i + 1]];
    if P2(s, i) == -1 {
      assert t[0] in t && t[1] in t;
    } else {
      ReadNatSnoc("", s[i]);
      assert "" + [s[i]] == [s[i]];
      ReadNatSnoc([s[i]], s[i + 1]);
      assert [s[i]] + [s[i + 1]] == t;
    }
  }

  // _p4, and the loop of _pfrac over the digits there are
  method Digits(s: string, i: nat, n: nat) returns (v: int)
    requires i + n <= |s|
    ensures v == Number(s[i..i + n])
  {
    var w: nat := 0;
    for j := 0 to n
      invariant AllDigits(s[i..i + j]) && w == ReadNat(s[i..i + j])
    {
      if !IsDigit(s[i + j]) {
        assert s[i..i + n][j] in s[i..i + n];
        return -1;
      }
      assert s[i..i + j + 1] == s[i..i + j] + [s[i + j]];
      ReadNatSnoc(s[i..i + j], s[i + j]);
      w := w * 10 + (s[i + j] as int - 48);
    }
    v := w;
  }

  // _pfrac
  method PFrac(s: string) returns (v: int)
    ensures v == Fraction(s)
  {
    var i := if |s| < 6 then |s| else 6;
    v := Digits(s, 0, i);
    assert s[0..i] == s[..i];
    if v < 0 {
      return;
    }
    ghost var read := v;
    while i < 6
      invariant i <= 6
      invariant v * Pow10(6 - i) == read * Pow10(6 - (if |s| < 6 then |s| else 6))
    {
      assert v * Pow10(6 - i) == v * (10 * Pow10(5 - i)) == v * 10 * Pow10(5 - i);
      v := v * 10;
      i := i + 1;
    }
  }

  lemma FourDigits(s: string)
    requires |s| == 4
    ensures Number(s) <= 9999
  {
    Tens();
    if AllDigits(s) {
      ReadNatBound(s);
    }
  }

  // convert_datetime on bytes, up to where it falls back to slower paths
  method ConvertDatetime(s: string) returns (r: Option<DateTime>)
    ensures r == FastDatetime(s)
  {
    hide ReadNat, Fraction;
    var n := |s|;
    if n >= 19 && s[4] == '-' && s[7] == '-' && (s[10] == ' ' || s[10] == 'T') && s[13] == ':' && s[16] == ':' {
      var year := Digits(s, 0, 4);
      assert s[0..4] == s[..4];
      FourDigits(s[..4]);
      P2Number(s, 5);
      P2Number(s, 8);
      P2Number(s, 11);
      P2Number(s, 14);
      P2Number(s, 17);
      var month, day, hour, minute, second := P2(s, 5), P2(s, 8), P2(s, 11), P2(s, 14), P2(s, 17);
      var micros := -1;
      if n > 20 && s[19] == '.' {
        micros := PFrac(s[20..]);
      } else if n == 19 {
        micros := 0;
      }
      if year >= 1 && 1 <= month <= 12 && 1 <= day <= DaysIn(year, month) && 0 <= hour < 24 && 0 <= minute < 60
         && 0 <= second < 60 && micros >= 0
      {
        return Some(DateTime(year, month, day, hour, minute, second, micros));
      }
    }
    return None;
  }

  lemma ReadNothing(t: string)
    ensures AllDigits(t[..0]) && ReadNat(t[..0]) == 0
  {
  }

  // Up to three digits of hours.
  method Hours(t: string) returns (hours: int, k: nat)
    ensures k == HourDigits(t, 0) && k <= |t| && hours == Number(t[..k]) >= 0
  {
    hide ReadNat, AllDigits;
    var h: nat := 0;
    k := 0;
    ReadNothing(t);
    while k < |t| && k < 3 && IsDigit(t[k])
      invariant k <= 3 && k <= |t| && AllDigits(t[..k]) && h == ReadNat(t[..k])
      invariant HourDigits(t, 0) == HourDigits(t, k)
    {
      assert t[..k + 1] == t[..k] + [t[k]];
      ReadNatSnoc(t[..k], t[k]);
      h := h * 10 + (t[k] as int - 48);
      k := k + 1;
    }
    hours := h;
  }

  // convert_timedelta on bytes, up to where it falls back to the regular expression
  method ConvertTimedelta(s: string) returns (r: Option<int>)
    ensures r == FastTimedelta(s)
  {
    hide Fraction, ReadNat, HourDigits, AllDigits;
    var neg := |s| > 0 && s[0] == '-';
    var t := if neg then s[1..] else s;
    var hours, k := Hours(t);
    if k > 0 && k + 6 <= |t| && t[k] == ':' && t[k + 3] == ':' {
      var mmPos := k + 1;
      P2Number(t, mmPos);
      P2Number(t, mmPos + 3);
      var minutes, seconds := P2(t, mmPos), P2(t, mmPos + 3);
      var usec := -1;
      if |t| > mmPos + 6 && t[mmPos + 5] == '.' {
        usec := PFrac(t[mmPos + 6..]);
      } else if |t| == mmPos + 5 {
        usec := 0;
      }
      if 0 <= minutes < 60 && 0 <= seconds < 60 && usec >= 0 {
        var total := (hours * 3600 + minutes * 60 + seconds) * 1000000 + usec;
        return Some(if neg then -total else total);
      }
    }
    return None;
  }
}
