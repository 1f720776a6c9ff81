// String literals: what the driver writes between quotes and what the server reads.
module Escaping {
  const BACKSLASH: char := '\\'
  const QUOTE: char := '\''

  // ---- the server's rules, section 11.1.1 of the MySQL 8.0 Reference Manual ----

  datatype Literal = Literal(value: string, rest: string) | Unterminated

  function Prefixed(front: string, r: Literal): Literal {
    match r
    case Unterminated => Unterminated
    case Literal(v, rest) => Literal(front + v, rest)
  }

  // What a backslash and the character behind it stand for.
  function Escaped(c: char): string {
    if c == '0' then [0 as char]
    else if c == 'b' then [8 as char]
    else if c == 'n' then [10 as char]
    else if c == 'r' then [13 as char]
    else if c == 't' then [9 as char]
    else if c == 'Z' then [26 as char]
    else if c == '%' || c == '_' then [BACKSLASH, c]
    else [c]
  }

  // The text behind an opening quote; two quotes are one, and backslashes escape unless the
  // NO_BACKSLASH_ESCAPES mode is on.
  function Read(s: string, backslashes: bool): Literal {
    if s == "" then Unterminated
    else if s[0] == QUOTE then
      if |s| >= 2 && s[1] == QUOTE then Prefixed([QUOTE], Read(s[2..], backslashes)) else Literal("", s[1..])
    else if backslashes && s[0] == BACKSLASH then
      if |s| == 1 then Unterminated else Prefixed(Escaped(s[1]), Read(s[2..], backslashes))
    else Prefixed([s[0]], Read(s[1..], backslashes))
  }

  // ---- the driver ----

  // The characters the scan for the fast path looks for.
  predicate NeedsEscape(c: char) {
    c as int in {0, 10, 13, 26, 34, 39, 92}
  }

  // _escape_table
  function Table(c: char): string {
    if c as int == 0 then [BACKSLASH, '0']
    else if c == BACKSLASH then [BACKSLASH, BACKSLASH]
    else if c as int == 10 then [BACKSLASH, 'n']
    else if c as int == 13 then [BACKSLASH, 'r']
    else if c as int == 26 then [BACKSLASH, 'Z']
    else if c == '"' then [BACKSLASH, '"']
    else if c == QUOTE then [BACKSLASH, QUOTE]
    else [c]
  }

  // value.translate(_escape_table)
  function Translate(s: string): string {
    if s == "" then "" else Table(s[0]) + Translate(s[1..])
  }

  // s.replace("'", "''")
  function DoubleQuotes(s: string): string {
    if s == "" then "" else (if s[0] == QUOTE then [QUOTE, QUOTE] else [s[0]]) + DoubleQuotes(s[1..])
  }

  // Connection.escape_string
  function Escape(s: string, backslashes: bool): string {
    if backslashes then Translate(s) else DoubleQuotes(s)
  }

  lemma {:induction false} PlainUnchanged(s: string)
    requires forall c :: c in s ==> !NeedsEscape(c)
    ensures Translate(s) == s
    decreases |s|
  {
    if s != "" {
      assert s == [s[0]] + s[1..] && s[0] in s;
      PlainUnchanged(s[1..]);
    }
  }

  method StrNeedsEscape(s: string) returns (needed: bool)
    ensures needed <==> exists c :: c in s && NeedsEscape(c)
  {
    for i := 0 to |s|
      invariant forall c :: c in s[..i] ==> !NeedsEscape(c)
    {
      if NeedsEscape(s[i]) {
        return true;
      }
      assert s[..i + 1] == s[..i] + [s[i]];
    }
    assert s[..|s|] == s;
    return false;
  }

  // The fast path returns the string as it is, and that is what the table would have made of it.
  method EscapeString(s: string) returns (r: string)
    ensures r == Translate(s)
  {
    var needed := StrNeedsEscape(s);
    if !needed {
      PlainUnchanged(s);
      return s;
    }
    r := TranslateAll(s);
  }

  method TranslateAll(s: string) returns (r: string)
    ensures r == Translate(s)
  {
    r := "";
    assert s[0..] == s && "" + Translate(s) == Translate(s);
    for i := 0 to |s|
      invariant Translate(s) == r + Translate(s[i..])
    {
      assert s[i..][1..] == s[i + 1..];
      assert r + (Table(s[i]) + Translate(s[i + 1..])) == r + Table(s[i]) + Translate(s[i + 1..]);
      r := r + Table(s[i]);
    }
    assert r + "" == r;
  }

  method EscapeForConnection(s: string, noBackslashEscapes: bool) returns (r: string)
    ensures r == Escape(s, !noBackslashEscapes)
  {
    if !noBackslashEscapes {
      r := EscapeString(s);
      return;
    }
    r := DoubleAll(s);
  }

  method DoubleAll(s: string) returns (r: string)
    ensures r == DoubleQuotes(s)
  {
    r := "";
    assert s[0..] == s && "" + DoubleQuotes(s) == DoubleQuotes(s);
    for i := 0 to |s|
      invariant DoubleQuotes(s) == r + DoubleQuotes(s[i..])
    {
      var piece := if s[i] == QUOTE then [QUOTE, QUOTE] else [s[i]];
      DoubleStep(s, i, r);
      r := r + piece;
    }
    assert r + "" == r;
  }

  lemma DoubleStep(s: string, i: nat, r: string)
    requires i < |s|
    ensures r + DoubleQuotes(s[i..]) == r + (if s[i] == QUOTE then [QUOTE, QUOTE] else [s[i]]) + DoubleQuotes(s[i + 1..])
  {
    assert s[i..][1..] == s[i + 1..];
    var piece, more := if s[i] == QUOTE then [QUOTE, QUOTE] else [s[i]], DoubleQuotes(s[i + 1..]);
    assert r + (piece + more) == r + piece + more;
  }

  // ---- every string is read back ----

  // What one character becomes.
  function Piece(c: char, backslashes: bool): string {
    if backslashes then Table(c) else if c == QUOTE then [QUOTE, QUOTE] else [c]
  }

  lemma ReadPiece(c: char, backslashes: bool, tail: string)
    ensures Read(Piece(c, backslashes) + tail, backslashes) == Prefixed([c], Read(tail, backslashes))
  {
    var s := Piece(c, backslashes) + tail;
    if |Piece(c, backslashes)| == 1 {
      assert s[1..] == tail;
    } else {
      assert s[2..] == tail;
    }
  }

  // In either mode, the quoted text ends at its final quote and denotes the string, whatever comes
  // next that is not itself a quote.
  lemma {:induction false} LiteralRoundTrip(s: string, backslashes: bool, rest: string)
    requires rest != "" ==> rest[0] != QUOTE
    ensures Read(Escape(s, backslashes) + [QUOTE] + rest, backslashes) == Literal(s, rest)
    decreases |s|
  {
    EscapeStep(s, backslashes);
    if s == "" {
      LiteralEnds(rest, backslashes);
      assert "" + [QUOTE] + rest == [QUOTE] + rest;
    } else {
      hide Read, Escape, Piece;
      var piece, more := Piece(s[0], backslashes), Escape(s[1..], backslashes);
      assert piece + more + [QUOTE] + rest == piece + (more + [QUOTE] + rest);
      ReadPiece(s[0], backslashes, more + [QUOTE] + rest);
      LiteralRoundTrip(s[1..], backslashes, rest);
      assert s == [s[0]] + s[1..];
    }
  }

  lemma EscapeStep(s: string, backslashes: bool)
    ensures Escape(s, backslashes) == if s == "" then "" else Piece(s[0], backslashes) + Escape(s[1..], backslashes)
  {
  }

  lemma LiteralEnds(rest: string, backslashes: bool)
    requires rest != "" ==> rest[0] != QUOTE
    ensures Read([QUOTE] + rest, backslashes) == Literal("", rest)
  {
    assert ([QUOTE] + rest)[1..] == rest;
  }

  // ---- the table's form without backslash escapes ----

  // escape_bytes, escape_bytes_prefixed and strings inside sequences are translated with the table in
  // either mode.

  function Quotes(s: string): nat {
    if s == "" then 0 else (if s[0] == QUOTE then 1 else 0) + Quotes(s[1..])
  }

  function Specials(s: string): nat {
    if s == "" then 0 else (if NeedsEscape(s[0]) then 1 else 0) + Specials(s[1..])
  }

  lemma {:induction false} TranslateLength(s: string)
    ensures |Translate(s)| == |s| + Specials(s)
    ensures Specials(s) == 0 <==> forall c :: c in s ==> !NeedsEscape(c)
    decreases |s|
  {
    if s != "" {
      TranslateLength(s[1..]);
      assert s == [s[0]] + s[1..];
    }
  }

  // Without backslash escapes a literal takes a character per character read, one more per quote, and
  // the quote that ends it.
  lemma {:induction false} ReadLength(t: string)
    ensures var r := Read(t, false); r.Literal? ==> |t| == |r.value| + Quotes(r.value) + 1 + |r.rest|
    decreases |t|
  {
    if t == "" {
    } else if t[0] == QUOTE {
      if |t| >= 2 && t[1] == QUOTE {
        ReadLength(t[2..]);
        var r := Read(t[2..], false);
        if r.Literal? {
          assert ([QUOTE] + r.value)[1..] == r.value;
        }
      }
    } else {
      ReadLength(t[1..]);
      var r := Read(t[1..], false);
      if r.Literal? {
        assert ([t[0]] + r.value)[1..] == r.value;
      }
    }
  }

  // If only quotes are special, the first of them is read as a backslash.
  lemma {:induction false} QuoteMisread(s: string, rest: string)
    requires Specials(s) == Quotes(s) > 0
    ensures var r := Read(Translate(s) + [QUOTE] + rest, false); r.Literal? ==> r.value != s
    decreases |s|
  {
    var t := Translate(s) + [QUOTE] + rest;
    SpecialsBound(s[1..]);
    if s[0] == QUOTE {
      assert t[0] == BACKSLASH;
    } else {
      QuoteMisread(s[1..], rest);
      assert t[1..] == Translate(s[1..]) + [QUOTE] + rest;
      var r := Read(t[1..], false);
      if r.Literal? {
        assert ([s[0]] + r.value)[1..] == r.value;
      }
    }
  }

  lemma {:induction false} SpecialsBound(s: string)
    ensures Quotes(s) <= Specials(s)
    decreases |s|
  {
    if s != "" {
      SpecialsBound(s[1..]);
    }
  }

  // So without backslash escapes the table's form denotes the string if, and only if, nothing in it
  // needs escaping.
  lemma TableFormIff(s: string, rest: string)
    requires rest != "" ==> rest[0] != QUOTE
    ensures Read(Translate(s) + [QUOTE] + rest, false) == Literal(s, rest) <==> forall c :: c in s ==> !NeedsEscape(c)
  {
    TranslateLength(s);
    SpecialsBound(s);
    if Specials(s) == 0 {
      PlainUnchanged(s);
      NoQuotes(s);
      LiteralRoundTrip(s, false, rest);
    } else if Specials(s) == Quotes(s) {
      QuoteMisread(s, rest);
    } else {
      ReadLength(Translate(s) + [QUOTE] + rest);
    }
  }

  lemma {:induction false} NoQuotes(s: string)
    requires forall c :: c in s ==> !NeedsEscape(c)
    ensures DoubleQuotes(s) == s
    decreases |s|
  {
    if s != "" {
      assert s == [s[0]] + s[1..] && s[0] in s;
      NoQuotes(s[1..]);
    }
  }
}
