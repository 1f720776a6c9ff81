// The binary form of GTIDs and of GTID sets.
module GtidCodec {
  import opened Binary
  import opened DecimalText
  import opened Intervals
  import opened GtidText

  // ---- hexadecimal ----

  function HexValue(c: char): (v: nat)
    requires IsHex(c)
    ensures v < 16
  {
    if c <= '9' then c as int - '0' as int
    else if c <= 'F' then c as int - 'A' as int + 10
    else c as int - 'a' as int + 10
  }

  function HexDigit(v: nat): (c: char)
    requires v < 16
    ensures IsHex(c)
  {
    if v < 10 then ('0' as int + v) as char else ('a' as int + v - 10) as char
  }

  function LowerChar(c: char): char {
    if 'A' <= c <= 'Z' then (c as int + 32) as char else c
  }

  function Lower(s: string): (r: string)
    ensures |r| == |s| && forall i :: 0 <= i < |s| ==> r[i] == LowerChar(s[i])
  {
    seq(|s|, i requires 0 <= i < |s| => LowerChar(s[i]))
  }

  ghost predicate Hex(s: string) {
    forall c :: c in s ==> IsHex(c)
  }

  // unhexlify; None when it raises.
  function Unhex(s: string): Option<Bytes> {
    if s == [] then Some([])
    else if |s| == 1 || !IsHex(s[0]) || !IsHex(s[1]) then None
    else match Unhex(s[2..])
         case None => None
         case Some(bs) => Some([16 * HexValue(s[0]) + HexValue(s[1])] + bs)
  }

  function Hexlify(bs: Bytes): (s: string)
    ensures |s| == 2 * |bs| && Hex(s)
  {
    if bs == [] then [] else [HexDigit(bs[0] / 16), HexDigit(bs[0] % 16)] + Hexlify(bs[1..])
  }

  lemma HexDigitOfValue(c: char)
    requires IsHex(c)
    ensures HexDigit(HexValue(c)) == LowerChar(c)
  {
  }

  lemma {:induction false} HexlifyUnhex(s: string)
    requires Hex(s) && |s| % 2 == 0
    ensures Unhex(s).Some? && |Unhex(s).value| == |s| / 2 && Hexlify(Unhex(s).value) == Lower(s)
    decreases |s|
  {
    if s != [] {
      assert s[0] in s && s[1] in s;
      HexlifyUnhex(s[2..]);
      UnhexStep(s);
      hide Unhex;
      HexDigitOfValue(s[0]);
      HexDigitOfValue(s[1]);
      var bs := Unhex(s[2..]).value;
      var b := 16 * HexValue(s[0]) + HexValue(s[1]);
      assert b / 16 == HexValue(s[0]) && b % 16 == HexValue(s[1]);
      assert ([b] + bs)[1..] == bs;
      assert Lower(s) == [LowerChar(s[0]), LowerChar(s[1])] + Lower(s[2..]);
    }
  }

  lemma UnhexNothing()
    ensures Unhex([]) == Some([])
  {
  }

  lemma UnhexStep(s: string)
    requires |s| >= 2 && IsHex(s[0]) && IsHex(s[1]) && Unhex(s[2..]).Some?
    ensures Unhex(s) == Some([16 * HexValue(s[0]) + HexValue(s[1])] + Unhex(s[2..]).value)
  {
  }

  lemma {:induction false} UnhexConcat(a: string, b: string)
    requires Hex(a) && Hex(b) && |a| % 2 == 0 && |b| % 2 == 0
    ensures Unhex(a).Some? && Unhex(b).Some? && Unhex(a + b) == Some(Unhex(a).value + Unhex(b).value)
    decreases |a|
  {
    hide HexValue, Hexlify, Unhex;
    HexlifyUnhex(a);
    HexlifyUnhex(b);
    if a == [] {
      UnhexNothing();
      assert a + b == b && [] + Unhex(b).value == Unhex(b).value;
    } else {
      assert a[0] in a && a[1] in a;
      UnhexConcat(a[2..], b);
      HexlifyUnhex(a[2..]);
      assert (a + b)[2..] == a[2..] + b;
      UnhexStep(a);
      UnhexStep(a + b);
      var pair := [16 * HexValue(a[0]) + HexValue(a[1])];
      assert pair + (Unhex(a[2..]).value + Unhex(b).value) == pair + Unhex(a[2..]).value + Unhex(b).value;
    }
  }

  function RemoveDashes(s: string): string {
    if s == [] then [] else if s[0] == '-' then RemoveDashes(s[1..]) else [s[0]] + RemoveDashes(s[1..])
  }

  lemma {:induction false} RemoveDashesConcat(a: string, b: string)
    ensures RemoveDashes(a + b) == RemoveDashes(a) + RemoveDashes(b)
    decreases |a|
  {
    if a == [] {
      assert a + b == b;
    } else {
      RemoveDashesConcat(a[1..], b);
      assert (a + b)[1..] == a[1..] + b;
    }
  }

  lemma {:induction false} RemoveNoDashes(s: string)
    requires Hex(s)
    ensures RemoveDashes(s) == s
    decreases |s|
  {
    if s != [] {
      assert s[0] in s;
      RemoveNoDashes(s[1..]);
      assert s == [s[0]] + s[1..];
    }
  }

  // A group of hexadecimal digits and a dash in front of the rest of a source id.
  lemma GroupBytes(group: string, rest: string)
    requires Hex(group) && |group| % 2 == 0
    requires Unhex(RemoveDashes(rest)).Some? && Hex(RemoveDashes(rest)) && |RemoveDashes(rest)| % 2 == 0
    ensures RemoveDashes(group + "-" + rest) == group + RemoveDashes(rest)
    ensures Unhex(group).Some? && |Unhex(group).value| == |group| / 2 && Hexlify(Unhex(group).value) == Lower(group)
    ensures Unhex(RemoveDashes(group + "-" + rest)) == Some(Unhex(group).value + Unhex(RemoveDashes(rest)).value)
  {
    DashGoes(rest);
    hide RemoveDashes, Unhex, Hexlify, Lower;
    RemoveDashesConcat(group, "-" + rest);
    assert group + "-" + rest == group + ("-" + rest);
    RemoveNoDashes(group);
    HexlifyUnhex(group);
    UnhexConcat(group, RemoveDashes(rest));
  }

  lemma DashGoes(rest: string)
    ensures RemoveDashes("-" + rest) == RemoveDashes(rest)
  {
    assert ("-" + rest)[1..] == rest;
  }

  // The text of the source id read back from sixteen bytes.
  function SidText(bs: Bytes): string
    requires |bs| == 16
  {
    Hexlify(bs[..4]) + "-" + Hexlify(bs[4..6]) + "-" + Hexlify(bs[6..8]) + "-" + Hexlify(bs[8..10]) + "-"
    + Hexlify(bs[10..])
  }

  lemma SidRoundTrip(sid: string)
    requires IsSid(sid)
    ensures var bs := Unhex(RemoveDashes(sid)); bs.Some? && |bs.value| == 16 && SidText(bs.value) == Lower(sid)
  {
    hide RemoveDashes, Unhex, Hexlify;
    var g0, g1, g2, g3, g4 := sid[..8], sid[9..13], sid[14..18], sid[19..23], sid[24..];
    assert Hex(g0) && Hex(g1) && Hex(g2) && Hex(g3) && Hex(g4);
    RemoveNoDashes(g4);
    HexlifyUnhex(g4);
    GroupBytes(g3, g4);
    GroupBytes(g2, g3 + "-" + g4);
    GroupBytes(g1, g2 + "-" + (g3 + "-" + g4));
    GroupBytes(g0, g1 + "-" + (g2 + "-" + (g3 + "-" + g4)));
    assert sid == g0 + "-" + (g1 + "-" + (g2 + "-" + (g3 + "-" + g4)));
    var b0, b1, b2, b3, b4 := Unhex(g0).value, Unhex(g1).value, Unhex(g2).value, Unhex(g3).value, Unhex(g4).value;
    var bs := b0 + (b1 + (b2 + (b3 + b4)));
    assert bs[..4] == b0 && bs[4..6] == b1 && bs[6..8] == b2 && bs[8..10] == b3 && bs[10..] == b4;
    LowerGroups(sid, g0, g1, g2, g3, g4);
  }

  lemma LowerGroups(sid: string, g0: string, g1: string, g2: string, g3: string, g4: string)
    requires sid == g0 + "-" + (g1 + "-" + (g2 + "-" + (g3 + "-" + g4)))
    ensures Lower(sid) == Lower(g0) + "-" + Lower(g1) + "-" + Lower(g2) + "-" + Lower(g3) + "-" + Lower(g4)
  {
    LowerGroup(g3, g4);
    LowerGroup(g2, g3 + "-" + g4);
    LowerGroup(g1, g2 + "-" + (g3 + "-" + g4));
    LowerGroup(g0, g1 + "-" + (g2 + "-" + (g3 + "-" + g4)));
  }

  lemma LowerGroup(g: string, rest: string)
    ensures Lower(g + "-" + rest) == Lower(g) + "-" + Lower(rest)
  {
  }

  // ---- one GTID ----

  const U64: nat := 0x1_0000_0000_0000_0000

  predicate Fits(x: Interval) {
    0 <= x.lo < U64 && 0 <= x.hi < U64
  }

  function EncodeInterval(x: Interval): (bs: Bytes)
    requires Fits(x)
    ensures |bs| == 16
  {
    LittleEndian(x.lo, 8) + LittleEndian(x.hi, 8)
  }

  function EncodeIntervals(xs: seq<Interval>): (bs: Bytes)
    requires forall x :: x in xs ==> Fits(x)
    ensures |bs| == 16 * |xs|
  {
    if xs == [] then []
    else
      assert Fits(xs[0]);
      EncodeInterval(xs[0]) + EncodeIntervals(xs[1..])
  }

  // Gtid.encode; None when it raises.
  function Encode(g: Parsed): Option<Bytes> {
    match Unhex(RemoveDashes(g.sid))
    case None => None
    case Some(sid) =>
      if |g.intervals| < U64 && forall x :: x in g.intervals ==> Fits(x) then
        Some(sid + LittleEndian(|g.intervals|, 8) + EncodeIntervals(g.intervals))
      else None
  }

  function EncodedLength(g: Parsed): nat {
    16 + 8 + 2 * 8 * |g.intervals|
  }

  // The intervals of a payload and what follows them; None when it is too short.
  function DecodeIntervals(s: Bytes, n: nat): Option<(seq<Interval>, Bytes)>
    decreases n
  {
    if n == 0 then Some(([], s))
    else if |s| < 16 then None
    else
      match DecodeIntervals(s[16..], n - 1)
      case None => None
      case Some((xs, rest)) => Some(([DecodeInterval(s)] + xs, rest))
  }

  function DecodeInterval(s: Bytes): Interval
    requires |s| >= 16
  {
    Interval(FromLittleEndian(s[..8]), FromLittleEndian(s[8..16]))
  }

  // Both ends are printed here even for a single transaction.
  function RangeParts(xs: seq<Interval>): (parts: seq<string>)
    ensures |parts| == |xs|
  {
    seq(|xs|, i requires 0 <= i < |xs| => ShowInt(xs[i].lo) + "-" + ShowInt(xs[i].hi - 1))
  }

  // The constructor on a text; None when it raises.
  function Construct(text: string): Option<Parsed> {
    match Parse(text)
    case None => None
    case Some(p) =>
      match AddAll([], p.intervals)
      case None => None
      case Some(xs) => Some(Parsed(p.sid, xs))
  }

  // Gtid.decode: the value and the unread bytes; None when it raises.
  function Decode(s: Bytes): Option<(Parsed, Bytes)> {
    if |s| < 24 then None
    else
      match DecodeIntervals(s[24..], FromLittleEndian(s[16..24]))
      case None => None
      case Some((xs, rest)) =>
        match Construct(SidText(s[..16]) + ":" + JoinColon(RangeParts(xs)))
        case None => None
        case Some(g) => Some((g, rest))
  }

  lemma EncodeIntervalsSnoc(xs: seq<Interval>, x: Interval)
    requires (forall y :: y in xs ==> Fits(y)) && Fits(x)
    ensures EncodeIntervals(xs + [x]) == EncodeIntervals(xs) + EncodeInterval(x)
    decreases |xs|
  {
    hide EncodeInterval;
    if xs == [] {
      assert EncodeIntervals([x]) == EncodeInterval(x) + EncodeIntervals([x][1..]);
    } else {
      assert (xs + [x])[1..] == xs[1..] + [x];
      assert Fits(xs[0]);
      EncodeIntervalsSnoc(xs[1..], x);
    }
  }

  // Gtid.encode, as it builds its buffer; struct.pack raises on a number that does not fit.
  method EncodeGtid(g: Parsed) returns (result: Option<Bytes>)
    ensures result == Encode(g)
  {
    var sid := Unhex(RemoveDashes(g.sid));
    if sid.None? || |g.intervals| >= U64 {
      return None;
    }
    hide Unhex, RemoveDashes, EncodeIntervals;
    var header := sid.value + LittleEndian(|g.intervals|, 8);
    var buffer := header;
    EncodeIntervalsOfNothing();
    for i := 0 to |g.intervals|
      invariant forall x :: x in g.intervals[..i] ==> Fits(x)
      invariant buffer == header + EncodeIntervals(g.intervals[..i])
    {
      if !Fits(g.intervals[i]) {
        return None;
      }
      assert g.intervals[..i + 1] == g.intervals[..i] + [g.intervals[i]];
      EncodeIntervalsSnoc(g.intervals[..i], g.intervals[i]);
      buffer := buffer + EncodeInterval(g.intervals[i]);
    }
    assert g.intervals[..|g.intervals|] == g.intervals;
    return Some(buffer);
  }

  lemma EncodeIntervalsOfNothing()
    ensures EncodeIntervals([]) == []
  {
  }

  // The loop of Gtid.decode over the intervals of a payload.
  method ReadIntervals(s: Bytes, n: nat) returns (result: Option<(seq<Interval>, Bytes)>)
    ensures result == DecodeIntervals(s, n)
  {
    hide DecodeInterval;
    var xs: seq<Interval> := [];
    var rest := s;
    PrependIntervals([], DecodeIntervals(s, n));
    for i := 0 to n
      invariant DecodeIntervals(s, n) == After(xs, DecodeIntervals(rest, n - i))
    {
      if |rest| < 16 {
        return None;
      }
      var x := DecodeInterval(rest);
      AfterOne(xs, x, DecodeIntervals(rest[16..], n - i - 1));
      xs := xs + [x];
      rest := rest[16..];
    }
    assert xs + [] == xs;
    return Some((xs, rest));
  }

  function After(xs: seq<Interval>, r: Option<(seq<Interval>, Bytes)>): Option<(seq<Interval>, Bytes)> {
    match r
    case None => None
    case Some((ys, rest)) => Some((xs + ys, rest))
  }

  lemma PrependIntervals(xs: seq<Interval>, r: Option<(seq<Interval>, Bytes)>)
    requires xs == []
    ensures After(xs, r) == r
  {
    if r.Some? {
      assert xs + r.value.0 == r.value.0;
    }
  }

  lemma AfterOne(xs: seq<Interval>, x: Interval, r: Option<(seq<Interval>, Bytes)>)
    ensures After(xs, After([x], r)) == After(xs + [x], r)
  {
    if r.Some? {
      assert xs + ([x] + r.value.0) == xs + [x] + r.value.0;
    }
  }

  // A GTID as the server has it: canonical, non-empty, with numbers of 64 bits.
  ghost predicate Proper(g: Parsed) {
    && IsSid(g.sid) && Canonical(g.intervals) && g.intervals != []
    && |g.intervals| < U64 && forall x :: x in g.intervals ==> Fits(x)
  }

  lemma IntervalRoundTrip(x: Interval, tail: Bytes)
    requires Fits(x)
    ensures var s := EncodeInterval(x) + tail; DecodeInterval(s) == x && s[16..] == tail
  {
    hide LittleEndian, FromLittleEndian;
    var s := EncodeInterval(x) + tail;
    assert s[..8] == LittleEndian(x.lo, 8) && s[8..16] == LittleEndian(x.hi, 8);
    LittleEndianRoundTrip(x.lo, 8);
    LittleEndianRoundTrip(x.hi, 8);
  }

  lemma {:induction false} IntervalsRoundTrip(xs: seq<Interval>, rest: Bytes)
    requires forall x :: x in xs ==> Fits(x)
    ensures DecodeIntervals(EncodeIntervals(xs) + rest, |xs|) == Some((xs, rest))
    decreases |xs|
  {
    hide EncodeInterval, DecodeInterval;
    if xs == [] {
      assert EncodeIntervals(xs) + rest == rest;
    } else {
      assert xs[0] in xs;
      var tail := EncodeIntervals(xs[1..]) + rest;
      assert EncodeIntervals(xs) + rest == EncodeInterval(xs[0]) + tail;
      IntervalRoundTrip(xs[0], tail);
      IntervalsRoundTrip(xs[1..], rest);
      assert xs == [xs[0]] + xs[1..];
    }
  }

  // Where things stand in the encoded form: sixteen bytes of the source id, the number of intervals, and
  // for each interval its first transaction and the one after its last, eight bytes each, low byte first.
  lemma EncodedLayout(g: Parsed, i: nat, j: nat)
    requires Proper(g) && i < 16 && j < |g.intervals|
    ensures Encode(g).Some? && |Encode(g).value| == 24 + 16 * |g.intervals|
    ensures var s, hex := Encode(g).value, RemoveDashes(g.sid);
            && |hex| == 32 && IsHex(hex[2 * i]) && IsHex(hex[2 * i + 1])
            && s[i] == 16 * HexValue(hex[2 * i]) + HexValue(hex[2 * i + 1])
            && FromLittleEndian(s[16..24]) == |g.intervals|
            && FromLittleEndian(s[24 + 16 * j..32 + 16 * j]) == g.intervals[j].lo
            && FromLittleEndian(s[32 + 16 * j..40 + 16 * j]) == g.intervals[j].hi
  {
    hide RemoveDashes, Unhex, EncodeIntervals, LittleEndian, FromLittleEndian, SidText, Lower, Canonical;
    SidRoundTrip(g.sid);
    var hex := RemoveDashes(g.sid);
    UnhexAt(hex, i);
    var xs := EncodeIntervals(g.intervals);
    var s := Encode(g).value;
    assert s[i] == Unhex(hex).value[i];
    assert s[16..24] == LittleEndian(|g.intervals|, 8) && s[24..] == xs;
    LittleEndianRoundTrip(|g.intervals|, 8);
    EncodedAt(g.intervals, j);
    var x := g.intervals[j];
    assert x in g.intervals;
    LittleEndianRoundTrip(x.lo, 8);
    LittleEndianRoundTrip(x.hi, 8);
    assert s[24 + 16 * j..32 + 16 * j] == s[24..][16 * j..16 * j + 8];
    assert s[32 + 16 * j..40 + 16 * j] == s[24..][16 * j + 8..16 * j + 16];
  }

  lemma {:induction false} UnhexAt(s: string, i: nat)
    requires Unhex(s).Some? && i < |Unhex(s).value|
    ensures |s| == 2 * |Unhex(s).value| && IsHex(s[2 * i]) && IsHex(s[2 * i + 1])
    ensures Unhex(s).value[i] == 16 * HexValue(s[2 * i]) + HexValue(s[2 * i + 1])
    decreases |s|
  {
    hide HexValue;
    UnhexLength(s);
    if i > 0 {
      UnhexAt(s[2..], i - 1);
    }
  }

  lemma {:induction false} UnhexLength(s: string)
    requires Unhex(s).Some?
    ensures |s| == 2 * |Unhex(s).value|
    decreases |s|
  {
    hide HexValue;
    if s != [] {
      UnhexLength(s[2..]);
    }
  }

  lemma {:induction false} EncodedAt(xs: seq<Interval>, j: nat)
    requires (forall x :: x in xs ==> Fits(x)) && j < |xs|
    ensures xs[j] in xs
    ensures var bs := EncodeIntervals(xs);
            && bs[16 * j..16 * j + 8] == LittleEndian(xs[j].lo, 8)
            && bs[16 * j + 8..16 * j + 16] == LittleEndian(xs[j].hi, 8)
    decreases j
  {
    hide LittleEndian;
    assert Fits(xs[0]);
    var tail := EncodeIntervals(xs[1..]);
    assert EncodeIntervals(xs) == EncodeInterval(xs[0]) + tail;
    if j > 0 {
      EncodedAt(xs[1..], j - 1);
      assert EncodeIntervals(xs)[16 * j..16 * j + 8] == tail[16 * (j - 1)..16 * (j - 1) + 8];
      assert EncodeIntervals(xs)[16 * j + 8..16 * j + 16] == tail[16 * (j - 1) + 8..16 * (j - 1) + 16];
    }
  }

  // Encoding raises exactly when a number does not fit into 64 bits.
  lemma EncodeRaises(g: Parsed)
    requires IsSid(g.sid)
    ensures Encode(g).None?
       <==> |g.intervals| >= 0x1_0000_0000_0000_0000
            || exists x :: x in g.intervals
                           && (x.lo < 0 || x.hi < 0 || x.lo >= 0x1_0000_0000_0000_0000 || x.hi >= 0x1_0000_0000_0000_0000)
  {
    hide Unhex, RemoveDashes, SidText, Lower, EncodeIntervals, LittleEndian;
    SidRoundTrip(g.sid);
  }

  lemma LowerSid(sid: string)
    requires IsSid(sid)
    ensures IsSid(Lower(sid))
  {
  }

  lemma ConstructRanges(sid: string, xs: seq<Interval>)
    requires IsSid(sid) && Canonical(xs) && xs != [] && forall x :: x in xs ==> Fits(x)
    ensures Construct(sid + ":" + JoinColon(RangeParts(xs))) == Some(Parsed(sid, xs))
  {
    hide Parse, ParseInterval, Show;
    var parts := RangeParts(xs);
    forall i | 0 <= i < |xs|
      ensures ParseInterval(parts[i]) == Some(xs[i])
      ensures IsIntervalText(parts[i]) && IsDigit(parts[i][|parts[i]| - 1])
    {
      assert xs[i] in xs;
      var a, b := Show(xs[i].lo), Show(xs[i].hi - 1);
      assert parts[i] == a + "-" + b;
      assert parts[i][|parts[i]| - 1] == b[|b| - 1] && b[|b| - 1] in b;
      ParseRange(xs[i].lo, xs[i].hi - 1);
    }
    ParsePrinted(sid, parts, xs);
    AddAllFromNothing(xs);
  }

  // Encoding has the announced length, and decoding gives back the intervals and the source id in
  // lower case: it gives back the GTID exactly when its source id was in lower case.
  lemma DecodeEncode(g: Parsed, rest: Bytes)
    requires Proper(g)
    ensures Encode(g).Some? && |Encode(g).value| == EncodedLength(g)
    ensures Decode(Encode(g).value + rest) == Some((Parsed(Lower(g.sid), g.intervals), rest))
    ensures Decode(Encode(g).value + rest) == Some((g, rest)) <==> g.sid == Lower(g.sid)
  {
    hide RemoveDashes, Unhex, DecodeIntervals, EncodeIntervals, SidText, Construct, LittleEndian, FromLittleEndian, Lower,
         Canonical;
    SidRoundTrip(g.sid);
    var sid := Unhex(RemoveDashes(g.sid)).value;
    var count, xs := LittleEndian(|g.intervals|, 8), EncodeIntervals(g.intervals);
    var s := Encode(g).value + rest;
    assert s[..16] == sid && s[16..24] == count && s[24..] == xs + rest;
    LittleEndianRoundTrip(|g.intervals|, 8);
    IntervalsRoundTrip(g.intervals, rest);
    LowerSid(g.sid);
    ConstructRanges(Lower(g.sid), g.intervals);
  }

  // ---- GTID sets, in whatever order the set is enumerated ----

  function EncodeAll(gs: seq<Parsed>): Option<Bytes> {
    if gs == [] then Some([])
    else match (Encode(gs[0]), EncodeAll(gs[1..]))
         case (Some(a), Some(b)) => Some(a + b)
         case _ => None
  }

  function EncodeSet(gs: seq<Parsed>): Option<Bytes>
    requires |gs| < U64
  {
    match EncodeAll(gs)
    case None => None
    case Some(bs) => Some(LittleEndian(|gs|, 8) + bs)
  }

  function SetLength(gs: seq<Parsed>): nat {
    if gs == [] then 8 else EncodedLength(gs[0]) + SetLength(gs[1..])
  }

  function DecodeAll(s: Bytes, n: nat): Option<(seq<Parsed>, Bytes)>
    decreases n
  {
    if n == 0 then Some(([], s))
    else match Decode(s)
         case None => None
         case Some((g, rest)) =>
           match DecodeAll(rest, n - 1)
           case None => None
           case Some((gs, end)) => Some(([g] + gs, end))
  }

  function DecodeSet(s: Bytes): Option<(seq<Parsed>, Bytes)> {
    if |s| < 8 then None else DecodeAll(s[8..], FromLittleEndian(s[..8]))
  }

  lemma {:induction false} DecodeEncodeAll(gs: seq<Parsed>, rest: Bytes)
    requires forall g :: g in gs ==> Proper(g) && g.sid == Lower(g.sid)
    ensures EncodeAll(gs).Some? && |EncodeAll(gs).value| + 8 == SetLength(gs)
    ensures DecodeAll(EncodeAll(gs).value + rest, |gs|) == Some((gs, rest))
    decreases |gs|
  {
    hide Decode, Encode, Proper;
    if gs == [] {
      assert [] + rest == rest;
    } else {
      assert gs[0] in gs && forall g :: g in gs[1..] ==> g in gs;
      DecodeEncodeAll(gs[1..], rest);
      var tail := EncodeAll(gs[1..]).value + rest;
      DecodeEncode(gs[0], tail);
      assert EncodeAll(gs).value + rest == Encode(gs[0]).value + tail;
      assert gs == [gs[0]] + gs[1..];
    }
  }

  // The same for a set: the exact length, and the members back in their order.
  lemma DecodeEncodeSet(gs: seq<Parsed>, rest: Bytes)
    requires |gs| < U64 && forall g :: g in gs ==> Proper(g) && g.sid == Lower(g.sid)
    ensures EncodeSet(gs).Some? && |EncodeSet(gs).value| == SetLength(gs)
    ensures DecodeSet(EncodeSet(gs).value + rest) == Some((gs, rest))
  {
    hide EncodeAll, DecodeAll, Proper;
    DecodeEncodeAll(gs, rest);
    LittleEndianRoundTrip(|gs|, 8);
    var s := EncodeSet(gs).value + rest;
    assert s[..8] == LittleEndian(|gs|, 8) && s[8..] == EncodeAll(gs).value + rest;
  }
}
