// Fetching from a buffered cursor and from an unbuffered one.
module Cursors {
  import opened Binary
  import opened Framing
  import opened ResultSets
  import opened Receive
  import opened Results

  datatype Fetch = FetchOne | FetchMany(size: Option<nat>) | FetchAll

  // How many of the `left` rows a buffered fetch returns: a size of 0 counts as no size.
  function BufferedCount(op: Fetch, arraysize: nat, left: nat): (n: nat)
    ensures n <= left
  {
    var wanted := match op
      case FetchOne => 1
      case FetchMany(size) => if size.Some? && size.value != 0 then size.value else arraysize
      case FetchAll => left;
    if wanted < left then wanted else left
  }

  // How many an unbuffered fetch returns: a size of 0 is taken as it is.
  function UnbufferedCount(op: Fetch, arraysize: nat, left: nat): (n: nat)
    ensures n <= left
  {
    var wanted := match op
      case FetchOne => 1
      case FetchMany(size) => if size.Some? then size.value else arraysize
      case FetchAll => left;
    if wanted < left then wanted else left
  }

  // A fetch returns as many rows as it was asked for, or all that are left: one, the size given, or the
  // array size when no size is given (on a buffered cursor also when it is 0), or everything.
  lemma AskedForOrLeft(op: Fetch, arraysize: nat, left: nat, asked: nat)
    requires match op
             case FetchOne => asked == 1
             case FetchAll => asked >= left
             case FetchMany(None) => asked == arraysize
             case FetchMany(Some(size)) => asked == size
    ensures UnbufferedCount(op, arraysize, left) <= asked && UnbufferedCount(op, arraysize, left) in {asked, left}
    ensures op != FetchMany(Some(0)) ==>
              BufferedCount(op, arraysize, left) <= asked && BufferedCount(op, arraysize, left) in {asked, left}
    ensures BufferedCount(FetchMany(Some(0)), arraysize, left) == BufferedCount(FetchMany(None), arraysize, left)
  {
  }

  // The two kinds of cursor return the same rows whatever is left, except for an explicit size of 0.
  lemma CountsAgree(op: Fetch, arraysize: nat)
    requires arraysize > 0
    ensures (forall left: nat :: BufferedCount(op, arraysize, left) == UnbufferedCount(op, arraysize, left))
       <==> op != FetchMany(Some(0))
  {
    if op == FetchMany(Some(0)) {
      assert BufferedCount(op, arraysize, 1) != UnbufferedCount(op, arraysize, 1);
    }
  }

  // A fetch took n rows off the front of what was left.
  ghost predicate Splits<R>(before: seq<R>, n: nat, taken: seq<R>, after: seq<R>) {
    n <= |before| && taken == before[..n] && after == before[n..]
  }

  function Rows<R>(row: Option<R>): seq<R> {
    match row
    case None => []
    case Some(r) => [r]
  }

  class Cursor<R> {
    var rows: Option<seq<R>>
    var rownumber: nat
    var arraysize: nat

    ghost predicate Valid()
      reads this
    {
      rows.Some? ==> rownumber <= |rows.value|
    }

    ghost function Left(): seq<R>
      requires Valid()
      reads this
    {
      if rows.None? then [] else rows.value[rownumber..]
    }

    constructor (rows: Option<seq<R>>)
      ensures Valid() && this.rows == rows && rownumber == 0 && arraysize == 1
    {
      this.rows, rownumber, arraysize := rows, 0, 1;
    }

    method One() returns (row: Option<R>)
      requires Valid()
      modifies this`rownumber
      ensures Valid() && Splits(old(Left()), BufferedCount(FetchOne, arraysize, |old(Left())|), Rows(row), Left())
    {
      if rows.None? || rownumber >= |rows.value| {
        return None;
      }
      row := Some(rows.value[rownumber]);
      rownumber := rownumber + 1;
    }

    method Many(size: Option<nat>) returns (taken: seq<R>)
      requires Valid()
      modifies this`rownumber
      ensures Valid() && Splits(old(Left()), BufferedCount(FetchMany(size), arraysize, |old(Left())|), taken, Left())
    {
      if rows.None? {
        return [];
      }
      var end := rownumber + if size.Some? && size.value != 0 then size.value else arraysize;
      if end > |rows.value| {
        end := |rows.value|;
      }
      taken := rows.value[rownumber..end];
      rownumber := end;
    }

    method All() returns (taken: seq<R>)
      requires Valid()
      modifies this`rownumber
      ensures Valid() && Splits(old(Left()), BufferedCount(FetchAll, arraysize, |old(Left())|), taken, Left())
    {
      if rows.None? {
        return [];
      }
      taken := if rownumber != 0 then rows.value[rownumber..] else rows.value;
      rownumber := |rows.value|;
    }
  }

  class SSCursor<R> {
    const result: MySQLResult<R>
    var rownumber: nat
    var arraysize: nat

    // The rest of the result set can be read to its end.
    ghost predicate Valid()
      reads this, result, result.connection, result.connection.proto, result.connection.proto.buffer
    {
      result.Valid() && (result.unbufferedActive ==> result.Remaining().Done?)
    }

    ghost function Left(): seq<R>
      requires Valid()
      reads this, result, result.connection, result.connection.proto, result.connection.proto.buffer
    {
      if result.unbufferedActive then result.Remaining().value.rows else []
    }

    // Where the connection stands once the result set is finished.
    ghost function Finish(): (Bytes, Byte)
      requires Valid()
      reads this, result, result.connection, result.connection.proto, result.connection.proto.buffer
    {
      if result.unbufferedActive then (result.Remaining().rest, result.Remaining().seqId)
      else (result.Stream(), result.connection.nextSeqId)
    }

    constructor (result: MySQLResult<R>)
      requires result.Valid() && (result.unbufferedActive ==> result.Remaining().Done?)
      ensures Valid() && this.result == result && rownumber == 0 && arraysize == 1
    {
      this.result, rownumber, arraysize := result, 0, 1;
    }

    method One() returns (row: Option<R>)
      requires Valid()
      modifies this`rownumber, result, result.connection`nextSeqId, result.connection.proto, result.connection.proto.buffer
      ensures result.connection.proto.buffer == old(result.connection.proto.buffer) || fresh(result.connection.proto.buffer)
      ensures Valid() && Finish() == old(Finish())
      ensures Splits(old(Left()), UnbufferedCount(FetchOne, arraysize, |old(Left())|), Rows(row), Left())
      ensures rownumber == old(rownumber) + if row.Some? then 1 else 0
    {
      hide ReadRows, PrependRows;
      var error;
      row, error := result.ReadRowUnbuffered();
      if row.Some? {
        rownumber := rownumber + 1;
      }
    }

    method Many(size: Option<nat>) returns (taken: seq<R>)
      requires Valid()
      modifies this`rownumber, result, result.connection`nextSeqId, result.connection.proto, result.connection.proto.buffer
      ensures result.connection.proto.buffer == old(result.connection.proto.buffer) || fresh(result.connection.proto.buffer)
      ensures Valid() && Finish() == old(Finish())
      ensures var n := UnbufferedCount(FetchMany(size), arraysize, |old(Left())|);
              Splits(old(Left()), n, taken, Left()) && rownumber == old(rownumber) + n
    {
      hide ReadRows, PrependRows;
      taken := [];
      var count := if size.Some? then size.value else arraysize;
      ghost var left := Left();
      for i := 0 to count
        invariant result.connection.proto.buffer == old(result.connection.proto.buffer) || fresh(result.connection.proto.buffer)
        invariant Valid() && Finish() == old(Finish())
        invariant i <= |left| && taken == left[..i] && Left() == left[i..] && rownumber == old(rownumber) + i
      {
        var row := One();
        if row.None? {
          break;
        }
        taken := taken + [row.value];
      }
    }

    method All() returns (taken: seq<R>)
      requires Valid()
      modifies this`rownumber, result, result.connection`nextSeqId, result.connection.proto, result.connection.proto.buffer
      ensures result.connection.proto.buffer == old(result.connection.proto.buffer) || fresh(result.connection.proto.buffer)
      ensures Valid() && Finish() == old(Finish())
      ensures taken == old(Left()) && Left() == [] && rownumber == old(rownumber) + |taken|
    {
      hide ReadRows, PrependRows;
      taken := [];
      ghost var left := Left();
      while true
        invariant result.connection.proto.buffer == old(result.connection.proto.buffer) || fresh(result.connection.proto.buffer)
        invariant Valid() && Finish() == old(Finish())
        invariant |taken| <= |left| && taken == left[..|taken|] && Left() == left[|taken|..]
        invariant rownumber == old(rownumber) + |taken|
        decreases |left| - |taken|
      {
        var row := One();
        if row.None? {
          break;
        }
        taken := taken + [row.value];
      }
    }

    // Closing finishes the result set: the connection stands where a full read would leave it.
    method Close() returns (error: Option<ReadError>)
      requires Valid()
      modifies result, result.connection`nextSeqId, result.connection.proto, result.connection.proto.buffer
      ensures result.connection.proto.buffer == old(result.connection.proto.buffer) || fresh(result.connection.proto.buffer)
      ensures result.Valid() && error == None
      ensures (result.Stream(), result.connection.nextSeqId) == old(Finish())
    {
      hide ReadRows, PrependRows;
      error := result.FinishUnbufferedQuery();
    }
  }

  method Apply<R>(b: Cursor<R>, op: Fetch) returns (taken: seq<R>)
    requires b.Valid()
    modifies b`rownumber
    ensures b.Valid() && Splits(old(b.Left()), BufferedCount(op, b.arraysize, |old(b.Left())|), taken, b.Left())
  {
    match op {
      case FetchOne =>
        var row := b.One();
        taken := Rows(row);
      case FetchMany(size) =>
        taken := b.Many(size);
      case FetchAll =>
        taken := b.All();
    }
  }

  method ApplyUnbuffered<R>(u: SSCursor<R>, op: Fetch) returns (taken: seq<R>)
    requires u.Valid()
    modifies u`rownumber, u.result, u.result.connection`nextSeqId, u.result.connection.proto, u.result.connection.proto.buffer
    ensures u.result.connection.proto.buffer == old(u.result.connection.proto.buffer) || fresh(u.result.connection.proto.buffer)
    ensures u.Valid() && u.Finish() == old(u.Finish())
    ensures var n := UnbufferedCount(op, u.arraysize, |old(u.Left())|);
            Splits(old(u.Left()), n, taken, u.Left())
  {
    match op {
      case FetchOne =>
        var row := u.One();
        taken := Rows(row);
      case FetchMany(size) =>
        taken := u.Many(size);
      case FetchAll =>
        taken := u.All();
    }
  }

  // The same fetch from both, over the same rows.
  method FetchSame<R>(b: Cursor<R>, u: SSCursor<R>, op: Fetch) returns (x: seq<R>, y: seq<R>)
    requires b.Valid() && u.Valid() && b.Left() == u.Left() && b.arraysize == u.arraysize > 0
    requires op != FetchMany(Some(0))
    modifies b`rownumber
    modifies u`rownumber, u.result, u.result.connection`nextSeqId, u.result.connection.proto, u.result.connection.proto.buffer
    ensures u.result.connection.proto.buffer == old(u.result.connection.proto.buffer) || fresh(u.result.connection.proto.buffer)
    ensures b.Valid() && u.Valid() && b.Left() == u.Left() && u.Finish() == old(u.Finish())
    ensures x == y && x + b.Left() == old(b.Left())
  {
    hide ReadRows, PrependRows, BufferedCount, UnbufferedCount;
    ghost var left := b.Left();
    CountsAgree(op, b.arraysize);
    ghost var n := BufferedCount(op, b.arraysize, |left|);
    assert left[..n] + left[n..] == left;
    x := Apply(b, op);
    y := ApplyUnbuffered(u, op);
  }

  function Concat<R>(parts: seq<seq<R>>): seq<R> {
    if parts == [] then [] else Concat(parts[..|parts| - 1]) + parts[|parts| - 1]
  }

  // Any mix of fetches returns the same rows from a buffered cursor and from an unbuffered one over
  // the same result set: what they return, followed by what they leave, is what there was.
  method FetchFromBoth<R>(b: Cursor<R>, u: SSCursor<R>, ops: seq<Fetch>)
    returns (fromBuffered: seq<seq<R>>, fromUnbuffered: seq<seq<R>>)
    requires b.Valid() && u.Valid() && b.Left() == u.Left() && b.arraysize == u.arraysize > 0
    requires forall op :: op in ops ==> op != FetchMany(Some(0))
    modifies b`rownumber
    modifies u`rownumber, u.result, u.result.connection`nextSeqId, u.result.connection.proto, u.result.connection.proto.buffer
    ensures b.Valid() && u.Valid() && b.Left() == u.Left() && u.Finish() == old(u.Finish())
    ensures fromBuffered == fromUnbuffered && Concat(fromBuffered) + b.Left() == old(b.Left())
  {
    hide ReadRows, PrependRows, Concat;
    fromBuffered, fromUnbuffered := [], [];
    NoLists(b.Left());
    for i := 0 to |ops|
      invariant u.result.connection.proto.buffer == old(u.result.connection.proto.buffer) || fresh(u.result.connection.proto.buffer)
      invariant b.Valid() && u.Valid() && b.Left() == u.Left() && u.Finish() == old(u.Finish())
      invariant fromBuffered == fromUnbuffered && Concat(fromBuffered) + b.Left() == old(b.Left())
    {
      assert ops[i] in ops;
      var x, y := FetchSame(b, u, ops[i]);
      ConcatSnoc(fromBuffered, x, b.Left());
      fromBuffered, fromUnbuffered := fromBuffered + [x], fromUnbuffered + [y];
    }
  }

  lemma NoLists<R>(rest: seq<R>)
    ensures Concat<R>([]) + rest == rest
  {
  }

  lemma ConcatSnoc<R>(lists: seq<seq<R>>, x: seq<R>, rest: seq<R>)
    ensures Concat(lists + [x]) + rest == Concat(lists) + (x + rest)
  {
    assert (lists + [x])[..|lists + [x]| - 1] == lists;
  }
}
