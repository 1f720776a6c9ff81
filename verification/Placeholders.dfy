// Python's %s placeholders turned into the server's ? markers.
module Placeholders {
  import opened Binary

  // What a query is made of, or nothing when it has a % that is neither %s nor %%.
  datatype Token = Text(c: char) | Param

  function Tokens(query: string): Option<seq<Token>> {
    if query == "" then Some([])
    else if query[0] != '%' then Before(Text(query[0]), Tokens(query[1..]))
    else if |query| >= 2 && query[1] == 's' then Before(Param, Tokens(query[2..]))
    else if |query| >= 2 && query[1] == '%' then Before(Text('%'), Tokens(query[2..]))
    else None
  }

  function Before(t: Token, r: Option<seq<Token>>): Option<seq<Token>> {
    match r
    case None => None
    case Some(ts) => Some([t] + ts)
  }

  // The tokens with an argument in place of each parameter: query % args.
  function Fill(tokens: seq<Token>, args: seq<string>): string
    requires |args| == Params(tokens)
  {
    if tokens == [] then ""
    else
      match tokens[0]
      case Text(c) => [c] + Fill(tokens[1..], args)
      case Param => args[0] + Fill(tokens[1..], args[1..])
  }

  function Params(tokens: seq<Token>): nat {
    if tokens == [] then 0 else (if tokens[0].Param? then 1 else 0) + Params(tokens[1..])
  }

  function Marks(n: nat): seq<string> {
    seq(n, i => "?")
  }

  // The converted query: what Python would make of the query with "?" for every argument.
  function Qmark(query: string): Option<(string, nat)> {
    match Tokens(query)
    case None => None
    case Some(ts) => Some((Fill(ts, Marks(Params(ts))), Params(ts)))
  }

  function CountOf(c: char, s: string): nat {
    if s == "" then 0 else (if s[0] == c then 1 else 0) + CountOf(c, s[1..])
  }

  lemma {:induction false} CountAppend(c: char, a: string, b: string)
    ensures CountOf(c, a + b) == CountOf(c, a) + CountOf(c, b)
    decreases |a|
  {
    if a == "" {
      assert a + b == b;
    } else {
      CountAppend(c, a[1..], b);
      assert (a + b)[1..] == a[1..] + b;
    }
  }

  // A converted query has a marker for every parameter and keeps the query's own question marks.
  lemma {:induction false} MarkersCount(query: string)
    ensures Qmark(query).Some? ==>
              CountOf('?', Qmark(query).value.0) == CountOf('?', query) + Qmark(query).value.1
    decreases |query|
  {
    if query != "" && Tokens(query).Some? {
      var k := if query[0] != '%' then 1 else 2;
      MarkersCount(query[k..]);
      var ts := Tokens(query[k..]).value;
      var t := Tokens(query).value[0];
      assert Tokens(query).value == [t] + ts && ([t] + ts)[1..] == ts;
      assert CountOf('?', query) == CountOf('?', query[..k]) + CountOf('?', query[k..]) by {
        assert query == query[..k] + query[k..];
        CountAppend('?', query[..k], query[k..]);
      }
      var marks := Marks(Params([t] + ts));
      var first := if t.Param? then "?" else [t.c];
      assert t.Param? ==> marks[1..] == Marks(Params(ts)) && marks[0] == "?";
      assert Fill([t] + ts, marks) == first + Fill(ts, Marks(Params(ts)));
      CountAppend('?', first, Fill(ts, Marks(Params(ts))));
      if k == 2 {
        assert query[..2] == [query[0], query[1]] && [query[0], query[1]][1..] == [query[1]] && [query[1]][1..] == "";
      } else {
        assert query[..1] == [query[0]] && [query[0]][1..] == "";
      }
      assert first[1..] == "";
    }
  }

  // ---- _pyformat_to_qmark ----

  // str.find("%", i), the length standing for -1
  method FindPercent(query: string, i: nat) returns (j: nat)
    requires i <= |query|
    ensures i <= j <= |query| && '%' !in query[i..j] && (j < |query| ==> query[j] == '%')
  {
    j := i;
    while j < |query| && query[j] != '%'
      invariant i <= j <= |query| && '%' !in query[i..j]
    {
      assert query[i..j + 1] == query[i..j] + [query[j]];
      j := j + 1;
    }
  }

  // What the loop has still to do once it has put out `out` with n markers.
  function Rest(out: string, n: nat, query: string): Option<(string, nat)> {
    match Qmark(query)
    case None => None
    case Some(r) => Some((out + r.0, n + r.1))
  }

  method PyformatToQmark(query: string) returns (r: Option<(string, nat)>)
    ensures r == Qmark(query)
  {
    var out, i: nat, nparams: nat := "", 0, 0;
    assert query[0..] == query;
    RestOfNothing(query);
    while true
      invariant i <= |query| && Qmark(query) == Rest(out, nparams, query[i..])
      decreases |query| - i
    {
      var j := FindPercent(query, i);
      PlainText(out, nparams, query[i..j], query[j..]);
      assert query[i..] == query[i..j] + query[j..];
      out := out + query[i..j];
      if j == |query| {
        NothingLeft(out, nparams);
        return Some((out, nparams));
      }
      if j + 1 < |query| && query[j + 1] == 's' {
        assert query[j..][2..] == query[j + 2..];
        Placeholder(out, nparams, query[j..]);
        out, nparams := out + "?", nparams + 1;
        i := j + 2;
      } else if j + 1 < |query| && query[j + 1] == '%' {
        assert query[j..][2..] == query[j + 2..];
        Percent(out, nparams, query[j..]);
        out := out + "%";
        i := j + 2;
      } else {
        return None;
      }
    }
  }

  lemma RestOfNothing(query: string)
    ensures Rest("", 0, query) == Qmark(query)
  {
    if Qmark(query).Some? {
      assert "" + Qmark(query).value.0 == Qmark(query).value.0;
    }
  }

  lemma NothingLeft(out: string, n: nat)
    ensures Rest(out, n, "") == Some((out, n))
  {
    assert out + "" == out;
  }

  lemma Step(out: string, n: nat, t: Token, query: string, more: string)
    requires Tokens(query) == Before(t, Tokens(more))
    ensures Rest(out, n, query) == Rest(out + (if t.Param? then "?" else [t.c]), n + (if t.Param? then 1 else 0), more)
  {
    if Tokens(more).Some? {
      var ts := Tokens(more).value;
      var marks := Marks(Params([t] + ts));
      assert ([t] + ts)[1..] == ts;
      assert t.Param? ==> marks[1..] == Marks(Params(ts)) && marks[0] == "?";
      var first := if t.Param? then "?" else [t.c];
      assert Fill([t] + ts, marks) == first + Fill(ts, Marks(Params(ts)));
      assert out + (first + Fill(ts, Marks(Params(ts)))) == out + first + Fill(ts, Marks(Params(ts)));
    }
  }

  lemma Placeholder(out: string, n: nat, query: string)
    requires |query| >= 2 && query[0] == '%' && query[1] == 's'
    ensures Rest(out, n, query) == Rest(out + "?", n + 1, query[2..])
  {
    Step(out, n, Param, query, query[2..]);
  }

  lemma Percent(out: string, n: nat, query: string)
    requires |query| >= 2 && query[0] == '%' && query[1] == '%'
    ensures Rest(out, n, query) == Rest(out + "%", n, query[2..])
  {
    Step(out, n, Text('%'), query, query[2..]);
  }

  lemma {:induction false} PlainText(out: string, n: nat, plain: string, more: string)
    requires '%' !in plain
    ensures Rest(out, n, plain + more) == Rest(out + plain, n, more)
    decreases |plain|
  {
    if plain == "" {
      assert plain + more == more && out + plain == out;
    } else {
      assert (plain + more)[1..] == plain[1..] + more;
      Step(out, n, Text(plain[0]), plain + more, plain[1..] + more);
      PlainText(out + [plain[0]], n, plain[1..], more);
      assert out + [plain[0]] + plain[1..] == out + plain;
    }
  }
}
