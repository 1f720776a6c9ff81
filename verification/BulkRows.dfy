// Rows of COM_STMT_BULK_EXECUTE.
module BulkRows {
  import opened Binary
  import opened Readers
  import opened TextRows
  import opened BinaryValues

  type Rows = seq<seq<Param>>

  ghost predicate AllRowsPython(rows: Rows) {
    forall i :: 0 <= i < |rows| ==> AllPython(rows[i])
  }

  ghost predicate RightWidth(rows: Rows, n: nat) {
    forall i :: 0 <= i < |rows| ==> |rows[i]| == n
  }

  // Every value of column j, but for NULLs, has this type code.
  ghost predicate ColumnHas(rows: Rows, j: nat, code: Byte)
    requires forall i :: 0 <= i < |rows| ==> j < |rows[i]|
  {
    forall i :: 0 <= i < |rows| && !rows[i][j].PNone? ==> TypeCode(rows[i][j]) == code
  }

  ghost predicate ColumnSome(rows: Rows, j: nat)
    requires forall i :: 0 <= i < |rows| ==> j < |rows[i]|
  {
    exists i :: 0 <= i < |rows| && !rows[i][j].PNone?
  }

  // These are the columns' types: one each, shared by all its values, of which there is one at least.
  ghost predicate TypedBy(rows: Rows, types: seq<Byte>) {
    && RightWidth(rows, |types|)
    && forall j :: 0 <= j < |types| ==> ColumnSome(rows, j) && ColumnHas(rows, j, types[j])
  }

  lemma TypesUnique(rows: Rows, a: seq<Byte>, b: seq<Byte>)
    requires TypedBy(rows, a) && TypedBy(rows, b) && |a| == |b|
    ensures a == b
  {
    forall j | 0 <= j < |a|
      ensures a[j] == b[j]
    {
      assert ColumnSome(rows, j) && ColumnHas(rows, j, a[j]) && ColumnHas(rows, j, b[j]);
      var i :| 0 <= i < |rows| && !rows[i][j].PNone?;
    }
  }

  // The bytes of one row from column j on; an indicator byte stands before every value.
  function RowBytes(row: seq<Param>, j: nat): Option<Bytes>
    requires AllPython(row) && j <= |row|
    decreases |row| - j
  {
    if j == |row| then Some([])
    else Join(if row[j].PNone? then Some([1]) else Join(Some([0]), ValueBytes(row[j])), RowBytes(row, j + 1))
  }

  function RowsBytes(rows: Rows, i: nat): Option<Bytes>
    requires AllRowsPython(rows) && i <= |rows|
    decreases |rows| - i
  {
    if i == |rows| then Some([]) else Join(RowBytes(rows[i], 0), RowsBytes(rows, i + 1))
  }

  function TypePairs(types: seq<Byte>): (bs: Bytes)
    ensures |bs| == 2 * |types|
    ensures forall j :: 0 <= j < |types| ==> bs[2 * j] == types[j] && bs[2 * j + 1] == 0
  {
    if types == [] then [] else TypePairs(types[..|types| - 1]) + [types[|types| - 1], 0]
  }

  datatype Bulk = Packed(types: Bytes, rows: Bytes) | Fallback | Raised

  // ---- the method ----

  // What the first loop has found so far: -1 for a column without a value yet.
  ghost predicate Found(rows: Rows, colTypes: seq<int>) {
    && RightWidth(rows, |colTypes|)
    && forall j :: 0 <= j < |colTypes| ==>
         if colTypes[j] == -1 then !ColumnSome(rows, j)
         else 0 <= colTypes[j] < 256 && ColumnSome(rows, j) && ColumnHas(rows, j, colTypes[j])
  }

  // Within row `row`, columns before j are accounted for.
  ghost predicate FoundTo(done: Rows, row: seq<Param>, j: nat, colTypes: seq<int>) {
    && RightWidth(done, |colTypes|) && |row| == |colTypes| && j <= |row|
    && forall k :: 0 <= k < |colTypes| ==>
         var rows := if k < j then done + [row] else done;
         (if colTypes[k] == -1 then !ColumnSome(rows, k)
          else 0 <= colTypes[k] < 256 && ColumnSome(rows, k) && ColumnHas(rows, k, colTypes[k]))
  }

  // The types of the columns, or nothing when a row has the wrong length or a column mixes types.
  method FindTypes(rows: Rows, n: nat) returns (colTypes: seq<int>, ok: bool)
    ensures ok ==> |colTypes| == n && Found(rows, colTypes)
    ensures !ok ==> !exists types: seq<Byte> :: |types| == n && TypedBy(rows, types)
  {
    colTypes := seq(n, j => -1);
    NothingFound(n);
    hide ColumnSome, ColumnHas, TypeCode;
    for i := 0 to |rows|
      invariant |colTypes| == n && Found(rows[..i], colTypes)
    {
      var row := rows[i];
      if |row| != n {
        return colTypes, false;
      }
      assert rows[..i + 1] == rows[..i] + [row];
      for j := 0 to n
        invariant |colTypes| == n && FoundTo(rows[..i], row, j, colTypes)
      {
        var v := row[j];
        if v.PNone? {
          ColumnNull(rows[..i], row, j);
        } else {
          var t := TypeCode(v);
          ColumnValue(rows[..i], row, j);
          if colTypes[j] == -1 {
            colTypes := colTypes[j := t];
          } else if colTypes[j] != t {
            Mixed(rows, i, j, colTypes[j]);
            return colTypes, false;
          }
        }
      }
    }
    assert rows[..|rows|] == rows;
    ok := true;
  }

  lemma NothingFound(n: nat)
    ensures Found([], seq(n, j => -1))
  {
  }

  lemma ColumnNull(done: Rows, row: seq<Param>, j: nat)
    requires forall i :: 0 <= i < |done| ==> j < |done[i]|
    requires j < |row| && row[j].PNone?
    ensures ColumnSome(done + [row], j) <==> ColumnSome(done, j)
    ensures forall t: Byte :: ColumnHas(done + [row], j, t) <==> ColumnHas(done, j, t)
  {
    var all: Rows := done + [row];
    if ColumnSome(done, j) {
      var i :| 0 <= i < |done| && !done[i][j].PNone?;
      assert !all[i][j].PNone?;
    }
    forall t: Byte
      ensures ColumnHas(all, j, t) <==> ColumnHas(done, j, t)
    {
      if ColumnHas(all, j, t) {
        forall i | 0 <= i < |done| && !done[i][j].PNone?
          ensures TypeCode(done[i][j]) == t
        {
          assert all[i] == done[i];
        }
      }
    }
  }

  lemma ColumnValue(done: Rows, row: seq<Param>, j: nat)
    requires forall i :: 0 <= i < |done| ==> j < |done[i]|
    requires j < |row| && !row[j].PNone?
    ensures ColumnSome(done + [row], j)
    ensures ColumnHas(done, j, TypeCode(row[j])) || !ColumnSome(done, j) ==> ColumnHas(done + [row], j, TypeCode(row[j]))
  {
    var all: Rows := done + [row];
    assert all[|done|] == row;
    if ColumnHas(done, j, TypeCode(row[j])) || !ColumnSome(done, j) {
      forall i | 0 <= i < |all| && !all[i][j].PNone?
        ensures TypeCode(all[i][j]) == TypeCode(row[j])
      {
        if i < |done| {
          assert all[i] == done[i];
        }
      }
    }
  }

  // A column with two types has no type of its own.
  lemma Mixed(rows: Rows, i: nat, j: nat, t: int)
    requires i < |rows| && j < |rows[i]| && (forall k :: 0 <= k < i ==> j < |rows[k]|)
    requires 0 <= t < 256 && ColumnSome(rows[..i], j) && ColumnHas(rows[..i], j, t)
    requires !rows[i][j].PNone? && TypeCode(rows[i][j]) != t
    ensures !exists types: seq<Byte> :: |types| > j && TypedBy(rows, types)
  {
    var before: Rows := rows[..i];
    var k :| 0 <= k < i && !before[k][j].PNone?;
    assert TypeCode(rows[k][j]) == t && !rows[k][j].PNone?;
    if (forall l :: 0 <= l < |rows| ==> j < |rows[l]|) {
      assert ColumnSome(rows, j);
    }
  }

  // pack_bulk_rows
  method PackBulkRows(rows: Rows, n: nat) returns (r: Bulk)
    requires AllRowsPython(rows)
    ensures r.Fallback? ==> !exists types: seq<Byte> :: |types| == n && TypedBy(rows, types)
    ensures !r.Fallback? ==> exists types: seq<Byte> :: |types| == n && TypedBy(rows, types)
    ensures r.Raised? ==> RowsBytes(rows, 0).None?
    ensures r.Packed? ==> RowsBytes(rows, 0) == Some(r.rows)
    ensures r.Packed? ==> exists types: seq<Byte> :: |types| == n && TypedBy(rows, types) && r.types == TypePairs(types)
  {
    hide ValueBytes, TypePairs;
    var colTypes, ok := FindTypes(rows, n);
    if !ok {
      return Fallback;
    }
    var types: Bytes := [];
    ghost var found: seq<Byte> := [];
    assert TypePairs([]) == [] by { NoPairs(); }
    for j := 0 to n
      invariant |found| == j && forall k :: 0 <= k < j ==> found[k] == colTypes[k]
      invariant types == TypePairs(found)
    {
      var t := colTypes[j];
      if t == -1 {
        NoColumn(rows, j);
        return Fallback;
      }
      PairsSnoc(found, t);
      found := found + [t];
      types := types + [t, 0];
    }
    assert TypedBy(rows, found);
    var values: Bytes := [];
    JoinAssoc(None, None, RowsBytes(rows, 0));
    for i := 0 to |rows|
      invariant Join(Some(values), RowsBytes(rows, i)) == RowsBytes(rows, 0)
    {
      ghost var before := values;
      var row := rows[i];
      JoinAssoc(Some(before), RowBytes(row, 0), RowsBytes(rows, i + 1));
      assert before + [] == before;
      for j := 0 to n
        invariant Join(Some(values), RowBytes(row, j)) == Join(Some(before), RowBytes(row, 0))
      {
        var v := row[j];
        assert v in row;
        if v.PNone? {
          JoinAssoc(Some(values), Some([1]), RowBytes(row, j + 1));
          values := values + [1];
        } else {
          JoinAssoc(Some(values), Join(Some([0]), ValueBytes(v)), RowBytes(row, j + 1));
          JoinAssoc(Some(values), Some([0]), ValueBytes(v));
          var appended := AppendBinaryValue(values + [0], v);
          match appended {
            case None => return Raised;
            case Some(more) => values := more;
          }
        }
      }
      assert values + [] == values;
    }
    assert values + [] == values;
    return Packed(types, values);
  }

  lemma NoColumn(rows: Rows, j: nat)
    requires (forall i :: 0 <= i < |rows| ==> j < |rows[i]|) && !ColumnSome(rows, j)
    ensures !exists types: seq<Byte> :: |types| > j && TypedBy(rows, types)
  {
    assert !ColumnSome(rows, j);
  }

  lemma NoPairs()
    ensures TypePairs([]) == []
  {
  }

  lemma PairsSnoc(types: seq<Byte>, t: Byte)
    ensures TypePairs(types + [t]) == TypePairs(types) + [t, 0]
  {
    assert (types + [t])[..|types + [t]| - 1] == types;
  }

  // ---- the server's side ----

  // The flag byte of every type is zero, so integers are read with a sign.
  function DecodeRow(types: Bytes, j: nat, s: Bytes): Parsed<seq<ServerValue>>
    requires j <= |types| / 2
    decreases |types| / 2 - j
  {
    if j == |types| / 2 then Ok([], s)
    else if s == [] then Error
    else
      match if s[0] == 1 then Ok(SNull, s[1..]) else if s[0] == 0 then DecodeValue(types[2 * j], types[2 * j + 1] >= 128, s[1..]) else Error
      case Error => Error
      case Ok(v, rest) =>
        match DecodeRow(types, j + 1, rest)
        case Error => Error
        case Ok(vs, rest') => Ok([v] + vs, rest')
  }

  // count rows, one after another
  function DecodeRows(types: Bytes, count: nat, s: Bytes): Parsed<seq<seq<ServerValue>>>
    decreases count
  {
    if count == 0 then Ok([], s)
    else
      match DecodeRow(types, 0, s)
      case Error => Error
      case Ok(row, rest) =>
        match DecodeRows(types, count - 1, rest)
        case Error => Error
        case Ok(more, rest') => Ok([row] + more, rest')
  }

  // What the server reads: an integer above 2^63 - 1 loses 2^64.
  function BulkMeaning(v: Param): ServerValue {
    if v.PInt? && !Fits64(v.n) then SInt(v.n - 0x1_0000_0000_0000_0000) else Meaning(v)
  }

  function BulkMeanings(row: seq<Param>, j: nat): (vs: seq<ServerValue>)
    requires j <= |row|
    ensures |vs| == |row| - j
    decreases |row| - j
  {
    if j == |row| then [] else [BulkMeaning(row[j])] + BulkMeanings(row, j + 1)
  }

  function BulkRowsMeaning(rows: Rows, i: nat): (vs: seq<seq<ServerValue>>)
    requires i <= |rows|
    ensures |vs| == |rows| - i
    decreases |rows| - i
  {
    if i == |rows| then [] else [BulkMeanings(rows[i], 0)] + BulkRowsMeaning(rows, i + 1)
  }

  lemma BulkValueRead(v: Param, rest: Bytes)
    requires IsPython(v) && !v.PNone? && ValueBytes(v).Some?
    ensures DecodeValue(TypeCode(v), false, ValueBytes(v).value + rest) == Ok(BulkMeaning(v), rest)
  {
    if TypeFlag(v) == 0 {
      hide DecodeValue, ValueBytes, Meaning;
      ValueRoundTrip(v, rest);
    } else {
      hide LittleEndian, FromLittleEndian, Pow256;
      Widths();
      UIntRoundTrip(v.n, 8, rest);
    }
  }

  lemma {:induction false} DecodeRowRead(rows: Rows, types: seq<Byte>, i: nat, j: nat, rest: Bytes)
    requires AllRowsPython(rows) && TypedBy(rows, types) && i < |rows| && j <= |types|
    requires RowBytes(rows[i], j).Some?
    ensures DecodeRow(TypePairs(types), j, RowBytes(rows[i], j).value + rest) == Ok(BulkMeanings(rows[i], j), rest)
    decreases |types| - j
  {
    hide DecodeValue, ValueBytes, BulkMeaning, TypePairs;
    var row := rows[i];
    if j == |types| {
      assert RowBytes(row, j).value + rest == rest;
    } else {
      assert row[j] in row && ColumnHas(rows, j, types[j]);
      var tail := RowBytes(row, j + 1).value + rest;
      DecodeRowRead(rows, types, i, j + 1, rest);
      if row[j].PNone? {
        assert RowBytes(row, j).value + rest == [1] + tail;
        assert ([1] + tail)[1..] == tail;
        NoneMeans(row[j]);
      } else {
        var v := ValueBytes(row[j]).value;
        assert RowBytes(row, j).value + rest == [0] + (v + tail);
        assert ([0] + (v + tail))[1..] == v + tail;
        BulkValueRead(row[j], tail);
      }
    }
  }

  lemma NoneMeans(v: Param)
    requires v.PNone?
    ensures BulkMeaning(v) == SNull
  {
  }

  lemma {:induction false} DecodeRowsRead(rows: Rows, types: seq<Byte>, i: nat, rest: Bytes)
    requires AllRowsPython(rows) && TypedBy(rows, types) && i <= |rows| && RowsBytes(rows, i).Some?
    ensures DecodeRows(TypePairs(types), |rows| - i, RowsBytes(rows, i).value + rest) == Ok(BulkRowsMeaning(rows, i), rest)
    decreases |rows| - i
  {
    hide DecodeRow, RowBytes, TypePairs, BulkMeanings;
    if i == |rows| {
      assert RowsBytes(rows, i).value + rest == rest;
    } else {
      var tail := RowsBytes(rows, i + 1).value + rest;
      assert RowsBytes(rows, i).value + rest == RowBytes(rows[i], 0).value + tail;
      DecodeRowRead(rows, types, i, 0, tail);
      DecodeRowsRead(rows, types, i + 1, rest);
    }
  }

  function Meant(rows: Rows): (vs: seq<seq<ServerValue>>)
    ensures |vs| == |rows|
    ensures forall i :: 0 <= i < |rows| ==> vs[i] == Meanings(rows[i])
  {
    seq(|rows|, i requires 0 <= i < |rows| => Meanings(rows[i]))
  }

  ghost predicate AllFit64(rows: Rows) {
    forall i, j :: 0 <= i < |rows| && 0 <= j < |rows[i]| && rows[i][j].PInt? ==> Fits64(rows[i][j].n)
  }

  lemma {:induction false} BulkMeaningsAt(row: seq<Param>, j: nat, k: nat)
    requires j <= k < |row|
    ensures BulkMeanings(row, j)[k - j] == BulkMeaning(row[k])
    decreases k - j
  {
    if j < k {
      BulkMeaningsAt(row, j + 1, k);
    }
  }

  lemma {:induction false} BulkRowsAt(rows: Rows, i: nat, k: nat)
    requires i <= k < |rows|
    ensures BulkRowsMeaning(rows, i)[k - i] == BulkMeanings(rows[k], 0)
    decreases k - i
  {
    if i < k {
      BulkRowsAt(rows, i + 1, k);
    }
  }

  ghost predicate RowFits64(row: seq<Param>) {
    forall j :: 0 <= j < |row| && row[j].PInt? ==> Fits64(row[j].n)
  }

  lemma RowMeant(row: seq<Param>)
    ensures BulkMeanings(row, 0) == Meanings(row) <==> RowFits64(row)
  {
    forall j | 0 <= j < |row|
      ensures BulkMeanings(row, 0)[j] == BulkMeaning(row[j])
      ensures BulkMeaning(row[j]) == Meanings(row)[j] <==> (row[j].PInt? ==> Fits64(row[j].n))
    {
      BulkMeaningsAt(row, 0, j);
    }
    hide BulkMeanings, BulkMeaning, Meaning;
    if RowFits64(row) {
      forall j | 0 <= j < |row|
        ensures BulkMeanings(row, 0)[j] == Meanings(row)[j]
      {
      }
    } else {
      var j :| 0 <= j < |row| && row[j].PInt? && !Fits64(row[j].n);
      assert BulkMeanings(row, 0)[j] != Meanings(row)[j];
    }
  }

  lemma RowsMeant(rows: Rows)
    ensures BulkRowsMeaning(rows, 0) == Meant(rows) <==> AllFit64(rows)
  {
    hide BulkMeanings, BulkRowsMeaning, Meanings;
    forall i | 0 <= i < |rows|
      ensures BulkRowsMeaning(rows, 0)[i] == BulkMeanings(rows[i], 0)
      ensures BulkMeanings(rows[i], 0) == Meanings(rows[i]) <==> RowFits64(rows[i])
    {
      BulkRowsAt(rows, 0, i);
      RowMeant(rows[i]);
    }
    if AllFit64(rows) {
      forall i | 0 <= i < |rows|
        ensures BulkRowsMeaning(rows, 0)[i] == Meant(rows)[i]
      {
        assert RowFits64(rows[i]);
      }
    } else {
      var i, j :| 0 <= i < |rows| && 0 <= j < |rows[i]| && rows[i][j].PInt? && !Fits64(rows[i][j].n);
      assert !RowFits64(rows[i]);
      assert BulkRowsMeaning(rows, 0)[i] != Meant(rows)[i];
    }
  }

  // The server gets the rows that were meant if, and only if, no integer is above 2^63 - 1: the types
  // carry no unsigned flag.
  lemma BulkRoundTripIff(rows: Rows, types: seq<Byte>)
    requires AllRowsPython(rows) && TypedBy(rows, types) && RowsBytes(rows, 0).Some?
    ensures DecodeRows(TypePairs(types), |rows|, RowsBytes(rows, 0).value) == Ok(Meant(rows), []) <==> AllFit64(rows)
  {
    hide DecodeRows, RowsBytes, TypePairs, BulkRowsMeaning, TypedBy, AllFit64, AllRowsPython, Meant;
    var s := RowsBytes(rows, 0).value;
    assert s + [] == s;
    DecodeRowsRead(rows, types, 0, []);
    RowsMeant(rows);
  }
}
