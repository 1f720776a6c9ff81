// The printed and the binary form of a GTID: a source id and its intervals.
module GtidText {
  import opened Binary
  import opened DecimalText
  import opened Intervals

  // ---- intervals: `a` for one transaction, `a-b` with both ends included for more ----

  function ShowInterval(x: Interval): string {
    if x.lo + 1 != x.hi then ShowInt(x.lo) + "-" + ShowInt(x.hi - 1) else ShowInt(x.lo)
  }

  // A pattern's `$` also matches before a final newline.
  function StripNewline(s: string): string {
    if |s| > 0 && s[|s| - 1] == '\n' then s[..|s| - 1] else s
  }

  predicate IsNumber(s: string) {
    |s| > 0 && AllDigits(s)
  }

  function ParseInterval(text: string): Option<Interval> {
    var s := StripNewline(text);
    var i := Find(s, '-');
    if i == |s| then
      if IsNumber(s) then Some(Interval(ReadNat(s), ReadNat(s) + 1)) else None
    else if IsNumber(s[..i]) && IsNumber(s[i + 1..]) then
      Some(Interval(ReadNat(s[..i]), ReadNat(s[i + 1..]) + 1))
    else None
  }

  lemma NoNewline(s: string)
    requires |s| > 0 ==> IsDigit(s[|s| - 1])
    ensures StripNewline(s) == s
  {
  }

  lemma ParseTwoNumbers(x: string, y: string)
    requires IsNumber(x) && IsNumber(y)
    ensures ParseInterval(x + "-" + y) == Some(Interval(ReadNat(x), ReadNat(y) + 1))
  {
    hide ReadNat;
    var s := x + "-" + y;
    assert s[|s| - 1] == y[|y| - 1] && y[|y| - 1] in y;
    NoNewline(s);
    assert '-' !in x;
    FindAfter(x, '-', y);
    assert s[..|x|] == x && s[|x| + 1..] == y;
  }

  lemma ParseRange(a: nat, b: nat)
    ensures ParseInterval(Show(a) + "-" + Show(b)) == Some(Interval(a, b + 1))
  {
    hide Show, ReadNat;
    ParseTwoNumbers(Show(a), Show(b));
    ReadShow(a);
    ReadShow(b);
  }

  lemma ParseSingle(a: nat)
    ensures ParseInterval(Show(a)) == Some(Interval(a, a + 1))
  {
    var s := Show(a);
    assert s[|s| - 1] in s;
    NoNewline(s);
    FindNone(s, '-');
    ReadShow(a);
  }

  // A text may end in one newline.
  lemma FinalNewline(text: string)
    requires text != "" ==> text[|text| - 1] != '\n'
    ensures ParseInterval(text + "\n") == ParseInterval(text)
    ensures Parse(text + "\n") == Parse(text)
  {
    hide ReadNat, IsSid, SplitColon, ParseIntervals;
    var s := text + "\n";
    assert s[..|s| - 1] == text;
    assert StripNewline(s) == text == StripNewline(text);
  }

  // Numbers as the server counts them: from 0 up, and not empty.
  ghost predicate Printable(xs: seq<Interval>) {
    forall x :: x in xs ==> 0 <= x.lo < x.hi
  }

  lemma ParseShown(x: Interval)
    requires 0 <= x.lo < x.hi
    ensures ParseInterval(ShowInterval(x)) == Some(x)
  {
    if x.lo + 1 != x.hi {
      ParseRange(x.lo, x.hi - 1);
    } else {
      ParseSingle(x.lo);
    }
  }

  // ---- lists of intervals ----

  function JoinColon(parts: seq<string>): string {
    if |parts| == 0 then "" else if |parts| == 1 then parts[0] else parts[0] + ":" + JoinColon(parts[1..])
  }

  function SplitColon(s: string): seq<string>
    decreases |s|
  {
    var i := Find(s, ':');
    if i == |s| then [s] else [s[..i]] + SplitColon(s[i + 1..])
  }

  lemma {:induction false} SplitJoin(parts: seq<string>)
    requires |parts| > 0 && forall p :: p in parts ==> ':' !in p
    ensures SplitColon(JoinColon(parts)) == parts
    decreases |parts|
  {
    assert parts[0] in parts;
    if |parts| == 1 {
      FindNone(parts[0], ':');
      assert parts == [parts[0]];
    } else {
      var rest := JoinColon(parts[1..]);
      var s := JoinColon(parts);
      FindAfter(parts[0], ':', rest);
      assert s[..|parts[0]|] == parts[0] && s[|parts[0]| + 1..] == rest;
      SplitJoin(parts[1..]);
      assert parts == [parts[0]] + parts[1..];
    }
  }

  predicate IsIntervalText(s: string) {
    |s| > 0 && forall c :: c in s ==> IsDigit(c) || c == '-'
  }

  function ParseIntervals(parts: seq<string>): Option<seq<Interval>> {
    if parts == [] then Some([])
    else match ParseInterval(parts[0])
         case None => None
         case Some(x) =>
           match ParseIntervals(parts[1..])
           case None => None
           case Some(xs) => Some([x] + xs)
  }

  predicate IsHex(c: char) {
    '0' <= c <= '9' || 'a' <= c <= 'f' || 'A' <= c <= 'F'
  }

  lemma HexDigits(c: char)
    ensures IsHex(c) <==> c in "0123456789abcdefABCDEF"
  {
  }

  // 8-4-4-4-12 hexadecimal digits.
  predicate IsSid(s: string) {
    && |s| == 36
    && forall i :: 0 <= i < 36 ==> if i == 8 || i == 13 || i == 18 || i == 23 then s[i] == '-' else IsHex(s[i])
  }

  datatype Parsed = Parsed(sid: string, intervals: seq<Interval>)

  // Gtid.parse; None when it raises.
  function Parse(text: string): Option<Parsed> {
    var s := StripNewline(text);
    if |s| > 37 && IsSid(s[..36]) && s[36] == ':' then
      var parts := SplitColon(s[37..]);
      if forall p :: p in parts ==> IsIntervalText(p) then
        match ParseIntervals(parts)
        case None => None
        case Some(xs) => Some(Parsed(s[..36], xs))
      else None
    else None
  }

  function ShowParts(xs: seq<Interval>): (parts: seq<string>)
    ensures |parts| == |xs|
  {
    seq(|xs|, i requires 0 <= i < |xs| => ShowInterval(xs[i]))
  }

  function Str(g: Parsed): string {
    g.sid + ":" + JoinColon(ShowParts(g.intervals))
  }

  // Parts that print the intervals, in either of the two ways the code writes them.
  ghost predicate Prints(parts: seq<string>, xs: seq<Interval>) {
    && |parts| == |xs| > 0
    && forall i :: 0 <= i < |xs| ==>
         && ParseInterval(parts[i]) == Some(xs[i])
         && IsIntervalText(parts[i])
         && IsDigit(parts[i][|parts[i]| - 1])
  }

  lemma {:induction false} ParseIntervalsOf(parts: seq<string>, xs: seq<Interval>)
    requires |parts| == |xs| && forall i :: 0 <= i < |xs| ==> ParseInterval(parts[i]) == Some(xs[i])
    ensures ParseIntervals(parts) == Some(xs)
    decreases |xs|
  {
    if xs != [] {
      ParseIntervalsOf(parts[1..], xs[1..]);
      assert xs == [xs[0]] + xs[1..];
    }
  }

  lemma {:induction false} JoinEnds(parts: seq<string>)
    requires |parts| > 0 && forall i :: 0 <= i < |parts| ==> |parts[i]| > 0 && IsDigit(parts[i][|parts[i]| - 1])
    ensures var s := JoinColon(parts); |s| > 0 && IsDigit(s[|s| - 1])
    decreases |parts|
  {
    if |parts| > 1 {
      JoinEnds(parts[1..]);
    }
  }

  lemma ParsePrinted(sid: string, parts: seq<string>, xs: seq<Interval>)
    requires IsSid(sid) && Prints(parts, xs)
    ensures Parse(sid + ":" + JoinColon(parts)) == Some(Parsed(sid, xs))
  {
    hide ParseInterval, ParseIntervals, JoinColon, SplitColon;
    var joined := JoinColon(parts);
    var s := sid + ":" + joined;
    JoinEnds(parts);
    NoNewline(s);
    SidLength(sid);
    forall p | p in parts
      ensures IsIntervalText(p) && ':' !in p
    {
      var i :| 0 <= i < |parts| && parts[i] == p;
    }
    SplitJoin(parts);
    ParseIntervalsOf(parts, xs);
    hide IsSid, IsIntervalText, StripNewline;
    assert s[..36] == sid && s[37..] == joined && s[36] == ':';
  }

  lemma SidLength(sid: string)
    requires IsSid(sid)
    ensures |sid| == 36
  {
  }

  lemma ShownText(x: Interval)
    requires 0 <= x.lo < x.hi
    ensures var s := ShowInterval(x); IsIntervalText(s) && IsDigit(s[|s| - 1])
  {
    var a, b := Show(x.lo), Show(x.hi - 1);
    assert a[|a| - 1] in a && b[|b| - 1] in b;
    if x.lo + 1 != x.hi {
      var s := a + "-" + b;
      assert s[|s| - 1] == b[|b| - 1];
    }
  }

  // Parsing what was printed gives back the source id and the intervals.
  lemma ParseStr(g: Parsed)
    requires IsSid(g.sid) && Printable(g.intervals) && g.intervals != []
    ensures Parse(Str(g)) == Some(g)
  {
    var xs, parts := g.intervals, ShowParts(g.intervals);
    forall i | 0 <= i < |xs|
      ensures ParseInterval(parts[i]) == Some(xs[i])
      ensures IsIntervalText(parts[i]) && IsDigit(parts[i][|parts[i]| - 1])
    {
      assert xs[i] in xs;
      ParseShown(xs[i]);
      ShownText(xs[i]);
    }
    ParsePrinted(g.sid, parts, xs);
  }

  // With no interval there is nothing a GTID could be parsed from.
  lemma StrOfNothing(sid: string)
    requires IsSid(sid)
    ensures Parse(Str(Parsed(sid, []))) == None
  {
    var s := Str(Parsed(sid, []));
    assert s == sid + ":";
    assert StripNewline(s) == s;
  }

  // ---- exactly which texts parse ----

  // One number for one transaction, or the first and the last with a dash between them.
  ghost predicate DenotesInterval(part: string, x: Interval) {
    || (IsNumber(part) && x == Interval(ReadNat(part), ReadNat(part) + 1))
    || exists a, b :: IsNumber(a) && IsNumber(b) && part == a + "-" + b && x == Interval(ReadNat(a), ReadNat(b) + 1)
  }

  lemma ParseIntervalIff(part: string, x: Interval)
    requires part != "" ==> part[|part| - 1] != '\n'
    ensures ParseInterval(part) == Some(x) <==> DenotesInterval(part, x)
  {
    hide ReadNat, ParseInterval, DenotesInterval;
    if ParseInterval(part) == Some(x) {
      ParsedDenotes(part, x);
    }
    if DenotesInterval(part, x) {
      DenotedParses(part, x);
    }
  }

  lemma ParsedDenotes(part: string, x: Interval)
    requires (part != "" ==> part[|part| - 1] != '\n') && ParseInterval(part) == Some(x)
    ensures DenotesInterval(part, x)
  {
    hide ReadNat;
    var i := Find(part, '-');
    if i < |part| {
      var a, b := part[..i], part[i + 1..];
      assert part == a + "-" + b && IsNumber(a) && IsNumber(b);
    }
  }

  lemma DenotedParses(part: string, x: Interval)
    requires DenotesInterval(part, x)
    ensures ParseInterval(part) == Some(x)
  {
    hide ReadNat;
    if IsNumber(part) && x == Interval(ReadNat(part), ReadNat(part) + 1) {
      assert part[|part| - 1] in part;
      FindNone(part, '-');
    } else {
      hide ParseInterval, IsNumber;
      var a, b :| IsNumber(a) && IsNumber(b) && part == a + "-" + b && x == Interval(ReadNat(a), ReadNat(b) + 1);
      ParseTwoNumbers(a, b);
    }
  }

  // The parts of a text behind its source id.
  ghost predicate Spells(text: string, g: Parsed, parts: seq<string>) {
    && IsSid(g.sid) && text == g.sid + ":" + JoinColon(parts) && |parts| == |g.intervals| > 0
    && forall i :: 0 <= i < |parts| ==> DenotesInterval(parts[i], g.intervals[i])
  }

  // A text parses exactly when it is a source id and colons in front of one or more intervals, each
  // spelled in one of the two ways; and then as what it spells.
  lemma ParseIff(text: string, g: Parsed)
    requires text != "" ==> text[|text| - 1] != '\n'
    ensures Parse(text) == Some(g) <==> exists parts :: Spells(text, g, parts)
  {
    hide DenotesInterval, IsSid, SplitColon, JoinColon, Spells, ParseIntervals, Parse;
    if Parse(text) == Some(g) {
      Spelled(text, g);
    }
    if parts :| Spells(text, g, parts) {
      SpelledParses(text, g, parts);
    }
  }

  lemma Spelled(text: string, g: Parsed)
    requires (text != "" ==> text[|text| - 1] != '\n') && Parse(text) == Some(g)
    ensures exists parts :: Spells(text, g, parts)
  {
    hide DenotesInterval, IsSid, SplitColon, JoinColon, ParseIntervals, ParseInterval, IsIntervalText;
    assert StripNewline(text) == text;
    var parts := SplitColon(text[37..]);
    JoinSplit(text[37..]);
    assert text == text[..36] + ":" + text[37..];
    ParseIntervalsEach(parts, g.intervals);
    forall i | 0 <= i < |parts|
      ensures DenotesInterval(parts[i], g.intervals[i])
    {
      assert parts[i] in parts;
      NoNewlineInPart(parts[i]);
      ParseIntervalIff(parts[i], g.intervals[i]);
    }
    assert Spells(text, g, parts);
  }

  lemma NoNewlineInPart(part: string)
    requires IsIntervalText(part)
    ensures part[|part| - 1] != '\n'
  {
    assert part[|part| - 1] in part;
  }

  lemma SpelledParses(text: string, g: Parsed, parts: seq<string>)
    requires (text != "" ==> text[|text| - 1] != '\n') && Spells(text, g, parts)
    ensures Parse(text) == Some(g)
  {
    forall p | p in parts
      ensures IsIntervalText(p) && ':' !in p
    {
      var i :| 0 <= i < |parts| && parts[i] == p;
      DenotedText(p, g.intervals[i]);
    }
    forall i | 0 <= i < |parts|
      ensures ParseInterval(parts[i]) == Some(g.intervals[i])
    {
      assert parts[i] in parts;
      NoNewlineInPart(parts[i]);
      ParseIntervalIff(parts[i], g.intervals[i]);
    }
    hide DenotesInterval, SplitColon, JoinColon, ParseIntervals, ParseInterval, IsIntervalText;
    SplitJoin(parts);
    ParseIntervalsOf(parts, g.intervals);
    JoinedLength(parts);
    SidLength(g.sid);
    hide IsSid;
    assert text[..36] == g.sid && text[36] == ':' && text[37..] == JoinColon(parts);
    assert StripNewline(text) == text;
  }

  lemma DenotedText(p: string, x: Interval)
    requires DenotesInterval(p, x)
    ensures IsIntervalText(p) && ':' !in p
  {
    hide ReadNat;
    if !IsNumber(p) {
      var a, b :| IsNumber(a) && IsNumber(b) && p == a + "-" + b && x == Interval(ReadNat(a), ReadNat(b) + 1);
    }
  }

  lemma JoinedLength(parts: seq<string>)
    requires |parts| > 0 && forall p :: p in parts ==> |p| > 0
    ensures |JoinColon(parts)| > 0
  {
    assert parts[0] in parts;
  }

  lemma {:induction false} JoinSplit(s: string)
    ensures |SplitColon(s)| > 0 && JoinColon(SplitColon(s)) == s
    decreases |s|
  {
    var i := Find(s, ':');
    if i < |s| {
      assert SplitColon(s) == [s[..i]] + SplitColon(s[i + 1..]);
      hide JoinColon, SplitColon, Find;
      JoinSplit(s[i + 1..]);
      JoinStep(s[..i], SplitColon(s[i + 1..]));
      assert s == s[..i] + ":" + s[i + 1..];
    }
  }

  lemma JoinStep(part: string, rest: seq<string>)
    requires rest != []
    ensures JoinColon([part] + rest) == part + ":" + JoinColon(rest)
  {
    assert ([part] + rest)[1..] == rest;
  }

  lemma {:induction false} ParseIntervalsEach(parts: seq<string>, xs: seq<Interval>)
    requires ParseIntervals(parts) == Some(xs)
    ensures |xs| == |parts| && forall i :: 0 <= i < |xs| ==> ParseInterval(parts[i]) == Some(xs[i])
    decreases |parts|
  {
    hide ParseInterval;
    if parts != [] {
      ParseIntervalsEach(parts[1..], xs[1..]);
    }
  }
}
