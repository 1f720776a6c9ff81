// Rows of a rows event: two bitmaps and the cells of the columns present.
module RowEvents {
  import opened Binary
  import opened Bitmaps
  import opened Readers
  import opened BinLogPacket
  import opened ColumnValues

  datatype Column = Column(name: string, kind: Kind)

  type Values = map<string, Value>

  // ---- reading ----

  // The loop of _read_column_data from column i on, at bit k of the null bitmap.
  function ReadColumns(columns: seq<Column>, present: Bytes, nulls: Bytes, i: nat, k: nat, values: Values, c: Cursor):
      Step<Values>
    requires i <= |columns|
    decreases |columns| - i
  {
    if i == |columns| then Done(values, c)
    else
      var name := columns[i].name;
      if i / 8 >= |present| then Failed
      else if !BitGet(present, i) then ReadColumns(columns, present, nulls, i + 1, k, values[name := Null], c)
      else if k / 8 >= |nulls| then Failed
      else if BitGet(nulls, k) then ReadColumns(columns, present, nulls, i + 1, k + 1, values[name := Null], c)
      else
        match ReadCell(columns[i].kind, c)
        case Failed => Failed
        case Done(v, c') => ReadColumns(columns, present, nulls, i + 1, k + 1, values[name := v], c')
  }

  // _read_column_data
  function ReadImage(columns: seq<Column>, present: Bytes, c: Cursor): Step<Values> {
    match On(c, Take(c.rest, (BitCount(present) + 7) / 8))
    case Failed => Failed
    case Done(nulls, c') => ReadColumns(columns, present, nulls, 0, 0, map[], c')
  }

  // The columns-present bitmaps of an event: one to write or delete rows, two to update them.
  datatype Shape<P> = Single(present: P) | Pair(before: P, after: P)

  datatype Row = Whole(values: Values) | Change(before: Values, after: Values)

  // _fetch_one_row
  function FetchOneRow(columns: seq<Column>, shape: Shape<Bytes>, c: Cursor): Step<Row> {
    match shape
    case Single(present) =>
      (match ReadImage(columns, present, c)
       case Failed => Failed
       case Done(values, c') => Done(Whole(values), c'))
    case Pair(before, after) =>
      match ReadImage(columns, before, c)
      case Failed => Failed
      case Done(values, c') =>
        match ReadImage(columns, after, c')
        case Failed => Failed
        case Done(values', c'') => Done(Change(values, values'), c'')
  }

  // Some image has a column.
  predicate Advances(shape: Shape<Bytes>) {
    match shape
    case Single(present) => BitCount(present) > 0
    case Pair(before, after) => BitCount(before) > 0 || BitCount(after) > 0
  }

  // _fetch_rows; every row takes at least the byte of its null bitmap.
  function FetchRows(columns: seq<Column>, shape: Shape<Bytes>, c: Cursor, readBytes: int, eventSize: int): Step<seq<Row>>
    requires Advances(shape)
    decreases |c.rest|
  {
    if readBytes >= eventSize then Done([], c)
    else
      RowShrinks(columns, shape, c);
      match FetchOneRow(columns, shape, c)
      case Failed => Failed
      case Done(row, next) =>
        match FetchRows(columns, shape, next, readBytes + |c.rest| - |next.rest|, eventSize)
        case Failed => Failed
        case Done(rows, last) => Done([row] + rows, last)
  }

  // ---- reading takes bytes ----

  lemma ColumnsShrink(columns: seq<Column>, present: Bytes, nulls: Bytes, i: nat, k: nat, values: Values, c: Cursor)
    requires i <= |columns|
    ensures var r := ReadColumns(columns, present, nulls, i, k, values, c); r.Done? ==> |r.next.rest| <= |c.rest|
    decreases |columns| - i
  {
    hide ReadCell, BitGet;
    if i < |columns| && i / 8 < |present| {
      var name := columns[i].name;
      if !BitGet(present, i) {
        ColumnsShrink(columns, present, nulls, i + 1, k, values[name := Null], c);
      } else if k / 8 < |nulls| {
        if BitGet(nulls, k) {
          ColumnsShrink(columns, present, nulls, i + 1, k + 1, values[name := Null], c);
        } else {
          CellShrinks(columns[i].kind, c);
          var r := ReadCell(columns[i].kind, c);
          if r.Done? {
            ColumnsShrink(columns, present, nulls, i + 1, k + 1, values[name := r.value], r.next);
          }
        }
      }
    }
  }

  lemma ImageShrinks(columns: seq<Column>, present: Bytes, c: Cursor)
    ensures var r := ReadImage(columns, present, c);
            r.Done? ==> |r.next.rest| + (BitCount(present) + 7) / 8 <= |c.rest|
  {
    hide ReadColumns, BitCount;
    var r := On(c, Take(c.rest, (BitCount(present) + 7) / 8));
    if r.Done? {
      ColumnsShrink(columns, present, r.value, 0, 0, map[], r.next);
    }
  }

  lemma RowShrinks(columns: seq<Column>, shape: Shape<Bytes>, c: Cursor)
    requires Advances(shape)
    ensures var r := FetchOneRow(columns, shape, c); r.Done? ==> |r.next.rest| < |c.rest|
  {
    hide ReadImage, BitCount;
    match shape
    case Single(present) => ImageShrinks(columns, present, c);
    case Pair(before, after) =>
      ImageShrinks(columns, before, c);
      var r := ReadImage(columns, before, c);
      if r.Done? {
        ImageShrinks(columns, after, r.next);
      }
  }

  // With no column present a row takes nothing, so the loop would stay where it is: Advances is exactly
  // when it ends.
  lemma {:induction false} NoColumnsNoBytes(columns: seq<Column>, present: Bytes, i: nat, values: Values, c: Cursor)
    requires i <= |columns| <= 8 * |present|
    requires forall j :: 0 <= j < |columns| ==> !BitGet(present, j)
    ensures var r := ReadColumns(columns, present, [], i, 0, values, c); r.Done? && r.next == c
    decreases |columns| - i
  {
    if i < |columns| {
      NoColumnsNoBytes(columns, present, i + 1, values[columns[i].name := Null], c);
    }
  }

  lemma {:induction false} NoBitSet(bitmap: Bytes, j: nat)
    requires BitCount(bitmap) == 0 && j < 8 * |bitmap|
    ensures !BitGet(bitmap, j)
    decreases |bitmap|
  {
    var n := |bitmap| - 1;
    if j / 8 == n {
      assert Ones(bitmap[n]) == 0;
      NoOnes(bitmap[n], j % 8);
    } else {
      NoBitSet(bitmap[..n], j);
    }
  }

  lemma {:induction false} NoOnes(n: nat, k: nat)
    requires Ones(n) == 0
    ensures !Bit(n, k)
    decreases k
  {
    if n == 0 {
      NoBits(k);
    } else if k > 0 {
      NoOnes(n / 2, k - 1);
    }
  }

  lemma EmptyBitmapStalls(columns: seq<Column>, shape: Shape<Bytes>, c: Cursor)
    requires c.waiting <= |c.rest|
    requires match shape
             case Single(present) => |columns| <= 8 * |present|
             case Pair(before, after) => |columns| <= 8 * |before| && |columns| <= 8 * |after|
    ensures var r := FetchOneRow(columns, shape, c);
            if Advances(shape) then r.Done? ==> |r.next.rest| < |c.rest| else r.Done? && r.next == c
  {
    if Advances(shape) {
      RowShrinks(columns, shape, c);
    } else {
      match shape
      case Single(present) => ImageStalls(columns, present, c);
      case Pair(before, after) =>
        ImageStalls(columns, before, c);
        ImageStalls(columns, after, c);
    }
  }

  lemma ImageStalls(columns: seq<Column>, present: Bytes, c: Cursor)
    requires c.waiting <= |c.rest| && |columns| <= 8 * |present| && BitCount(present) == 0
    ensures var r := ReadImage(columns, present, c); r.Done? && r.next == c
  {
    hide BitCount, BitGet, ReadColumns;
    forall j | 0 <= j < |columns|
      ensures !BitGet(present, j)
    {
      NoBitSet(present, j);
    }
    assert c.rest[..0] == [] && c.rest[0..] == c.rest;
    NoColumnsNoBytes(columns, present, 0, map[], c);
  }

  // ---- the server's images ----

  type Image = seq<Option<Stored>>  // one cell per column, None for NULL

  ghost predicate ImageFits(columns: seq<Column>, present: Flags, image: Image) {
    && |present| == |columns| == |image|
    && forall i :: 0 <= i < |columns| && present[i] && image[i].Some? ==> Fits(columns[i].kind, image[i].value)
  }

  // From column i on every cell is read as what it is.
  ghost predicate ImageReadable(present: Flags, image: Image, i: nat)
    requires |present| == |image|
  {
    forall j :: i <= j < |image| && present[j] && image[j].Some? ==> CellReadable(image[j].value)
  }

  ghost predicate ImageDecided(present: Flags, image: Image)
    requires |present| == |image|
  {
    forall j :: 0 <= j < |image| && present[j] && image[j].Some? ==> Decided(image[j].value)
  }

  // The first cell that is not.
  ghost predicate FirstUnreadable(present: Flags, image: Image, m: nat)
    requires |present| == |image|
  {
    && m < |image| && present[m] && image[m].Some? && !CellReadable(image[m].value)
    && forall j :: 0 <= j < m && present[j] && image[j].Some? ==> CellReadable(image[j].value)
  }

  // Which of the columns present, from column i on, are NULL.
  function NullFlags(present: Flags, image: Image, i: nat): Flags
    requires |present| == |image| && i <= |image|
    decreases |image| - i
  {
    if i == |image| then []
    else (if present[i] then [image[i].None?] else []) + NullFlags(present, image, i + 1)
  }

  ghost function Cells(columns: seq<Column>, present: Flags, image: Image, i: nat): Bytes
    requires ImageFits(columns, present, image) && i <= |columns|
    decreases |columns| - i
  {
    if i == |columns| then []
    else (if present[i] && image[i].Some? then CellBytes(columns[i].kind, image[i].value) else [])
         + Cells(columns, present, image, i + 1)
  }

  ghost function EncodeImage(columns: seq<Column>, present: Flags, image: Image): Bytes
    requires ImageFits(columns, present, image)
  {
    Bitmap(NullFlags(present, image, 0)) + Cells(columns, present, image, 0)
  }

  // What the client has for column i; a column not present is None, like NULL.
  ghost function ClientCell(columns: seq<Column>, present: Flags, image: Image, i: nat): Value
    requires ImageFits(columns, present, image) && i < |columns|
  {
    if present[i] && image[i].Some? then ClientValue(columns[i].kind, image[i].value) else Null
  }

  ghost function ClientValues(columns: seq<Column>, present: Flags, image: Image, i: nat, values: Values): Values
    requires ImageFits(columns, present, image) && i <= |columns|
    decreases |columns| - i
  {
    if i == |columns| then values
    else ClientValues(columns, present, image, i + 1, values[columns[i].name := ClientCell(columns, present, image, i)])
  }

  ghost predicate DistinctNames(columns: seq<Column>) {
    forall i, j :: 0 <= i < j < |columns| ==> columns[i].name != columns[j].name
  }

  ghost function Names(columns: seq<Column>, i: nat): set<string>
    requires i <= |columns|
  {
    set j | 0 <= j < i :: columns[j].name
  }

  // The first i columns are in the dict, each with its own cell.
  ghost predicate Looks(columns: seq<Column>, present: Flags, image: Image, i: nat, values: Values)
    requires ImageFits(columns, present, image) && i <= |columns|
  {
    && values.Keys == Names(columns, i)
    && forall j :: 0 <= j < i ==>
         columns[j].name in values && values[columns[j].name] == ClientCell(columns, present, image, j)
  }

  // With distinct names the dict has one entry per column, and each is that column's cell.
  lemma {:induction false} ClientValuesLook(columns: seq<Column>, present: Flags, image: Image, i: nat, values: Values)
    requires ImageFits(columns, present, image) && i <= |columns| && DistinctNames(columns)
    requires Looks(columns, present, image, i, values)
    ensures Looks(columns, present, image, |columns|, ClientValues(columns, present, image, i, values))
    decreases |columns| - i
  {
    hide ImageFits, Looks, DistinctNames, ClientCell;
    if i < |columns| {
      var values' := values[columns[i].name := ClientCell(columns, present, image, i)];
      LooksStep(columns, present, image, i, values);
      ClientValuesLook(columns, present, image, i + 1, values');
    }
  }

  lemma LooksStep(columns: seq<Column>, present: Flags, image: Image, i: nat, values: Values)
    requires ImageFits(columns, present, image) && i < |columns| && DistinctNames(columns)
    requires Looks(columns, present, image, i, values)
    ensures Looks(columns, present, image, i + 1, values[columns[i].name := ClientCell(columns, present, image, i)])
  {
    hide ImageFits, ClientCell, Names;
    NamesStep(columns, i);
  }

  lemma NamesStep(columns: seq<Column>, i: nat)
    requires i < |columns|
    ensures Names(columns, i + 1) == Names(columns, i) + {columns[i].name}
  {
    forall x
      ensures x in Names(columns, i + 1) <==> x in Names(columns, i) + {columns[i].name}
    {
      if x != columns[i].name && x in Names(columns, i + 1) {
        var j :| 0 <= j < i + 1 && columns[j].name == x;
        assert j < i;
      }
    }
  }

  lemma {:induction false} NullFlagsCount(present: Flags, image: Image, i: nat)
    requires |present| == |image| && i <= |image|
    ensures |NullFlags(present, image, i)| == Count(present[i..])
    decreases |image| - i
  {
    if i < |image| {
      NullFlagsCount(present, image, i + 1);
      assert present[i..] == [present[i]] + present[i + 1..];
    }
  }

  // ---- reading inverts writing ----

  // `flags` are all null flags; those from bit k on belong to the columns from i on.
  lemma {:induction false} ColumnsRoundTrip(columns: seq<Column>, present: Flags, image: Image, flags: Flags, i: nat, k: nat,
                                            values: Values, rest: Bytes)
    requires ImageFits(columns, present, image) && i <= |columns| && ImageReadable(present, image, i)
    requires k <= |flags| && flags[k..] == NullFlags(present, image, i)
    ensures ReadColumns(columns, Bitmap(present), Bitmap(flags), i, k, values, Cursor(Cells(columns, present, image, i) + rest, 0))
         == Done(ClientValues(columns, present, image, i, values), Cursor(rest, 0))
    decreases |columns| - i
  {
    hide Cells, Bitmap, BitGet, ReadColumns, ImageFits, ImageReadable, NullFlags, ClientCell, ClientValues, ReadCell;
    if i == |columns| {
      ColumnsEnd(columns, present, image, Bitmap(flags), k, values, rest);
    } else {
      ReadableStep(columns, present, image, i);
      ClientValuesStep(columns, present, image, i, values);
      var k', c, c' := ReadCellStep(columns, present, image, flags, i, k, values, rest);
      var values' := values[columns[i].name := ClientCell(columns, present, image, i)];
      ColumnsRoundTrip(columns, present, image, flags, i + 1, k', values', rest);
    }
  }

  lemma ReadableStep(columns: seq<Column>, present: Flags, image: Image, i: nat)
    requires ImageFits(columns, present, image) && i < |columns| && ImageReadable(present, image, i)
    ensures |present| == |columns| == |image| && ImageReadable(present, image, i + 1)
    ensures present[i] && image[i].Some? ==> CellReadable(image[i].value)
  {
  }

  // One turn of the loop over a readable cell.
  lemma ReadCellStep(columns: seq<Column>, present: Flags, image: Image, flags: Flags, i: nat, k: nat, values: Values,
                     rest: Bytes) returns (k': nat, c: Cursor, c': Cursor)
    requires ImageFits(columns, present, image) && |present| == |columns| == |image| && i < |columns|
    requires k <= |flags| && flags[k..] == NullFlags(present, image, i)
    requires present[i] && image[i].Some? ==> CellReadable(image[i].value)
    ensures k' <= |flags| && flags[k'..] == NullFlags(present, image, i + 1)
    ensures c == Cursor(Cells(columns, present, image, i) + rest, 0)
    ensures c' == Cursor(Cells(columns, present, image, i + 1) + rest, 0)
    ensures ReadColumns(columns, Bitmap(present), Bitmap(flags), i, k, values, c)
         == ReadColumns(columns, Bitmap(present), Bitmap(flags), i + 1, k',
                        values[columns[i].name := ClientCell(columns, present, image, i)], c')
  {
    hide Cells, Bitmap, BitGet, ReadColumns, ImageFits, NullFlags, ClientCell, ReadCell, CellReadable;
    BitmapGet(present, i);
    NextFlag(flags, k, present, image, i);
    c, c' := CellsStep(columns, present, image, i, rest);
    ReadColumnsStep(columns, Bitmap(present), Bitmap(flags), i, k, values, c);
    k' := if present[i] then k + 1 else k;
    if present[i] {
      BitmapGet(flags, k);
    }
  }

  lemma ColumnsEnd(columns: seq<Column>, present: Flags, image: Image, nulls: Bytes, k: nat, values: Values, rest: Bytes)
    requires ImageFits(columns, present, image)
    ensures Cells(columns, present, image, |columns|) + rest == rest
    ensures ReadColumns(columns, Bitmap(present), nulls, |columns|, k, values, Cursor(rest, 0)) == Done(values, Cursor(rest, 0))
    ensures ClientValues(columns, present, image, |columns|, values) == values
  {
  }

  lemma ClientValuesStep(columns: seq<Column>, present: Flags, image: Image, i: nat, values: Values)
    requires ImageFits(columns, present, image) && i < |columns|
    ensures |present| == |columns| == |image|
    ensures ClientValues(columns, present, image, i, values)
         == ClientValues(columns, present, image, i + 1, values[columns[i].name := ClientCell(columns, present, image, i)])
  {
    hide ClientCell;
  }

  lemma NextFlag(flags: Flags, k: nat, present: Flags, image: Image, i: nat)
    requires |present| == |image| && i < |image| && k <= |flags| && flags[k..] == NullFlags(present, image, i)
    ensures if present[i] then k < |flags| && flags[k] == image[i].None? && flags[k + 1..] == NullFlags(present, image, i + 1)
            else flags[k..] == NullFlags(present, image, i + 1)
  {
    if present[i] {
      assert flags[k..][0] == flags[k] && flags[k..][1..] == flags[k + 1..];
    }
  }

  // The cells from column i on begin with column i's, when it has one.
  lemma CellsStep(columns: seq<Column>, present: Flags, image: Image, i: nat, rest: Bytes) returns (c: Cursor, c': Cursor)
    requires ImageFits(columns, present, image) && i < |columns| && |present| == |image| == |columns|
    requires present[i] && image[i].Some? ==> CellReadable(image[i].value)
    ensures c == Cursor(Cells(columns, present, image, i) + rest, 0)
    ensures c' == Cursor(Cells(columns, present, image, i + 1) + rest, 0)
    ensures if present[i] && image[i].Some? then ReadCell(columns[i].kind, c) == Done(ClientCell(columns, present, image, i), c')
            else c == c' && ClientCell(columns, present, image, i) == Null
  {
    hide ReadCell, Fits, CellBytes, ClientValue, CellReadable;
    var tail := Cells(columns, present, image, i + 1) + rest;
    c, c' := Cursor(Cells(columns, present, image, i) + rest, 0), Cursor(tail, 0);
    if present[i] && image[i].Some? {
      var kind, v := columns[i].kind, image[i].value;
      assert Cells(columns, present, image, i) + rest == CellBytes(kind, v) + tail;
      CellRoundTrip(kind, v, tail);
    } else {
      assert Cells(columns, present, image, i) + rest == tail;
    }
  }

  lemma ReadColumnsStep(columns: seq<Column>, present: Bytes, nulls: Bytes, i: nat, k: nat, values: Values, c: Cursor)
    requires i < |columns| && i / 8 < |present|
    ensures var name, r := columns[i].name, ReadColumns(columns, present, nulls, i, k, values, c);
            if !BitGet(present, i) then r == ReadColumns(columns, present, nulls, i + 1, k, values[name := Null], c)
            else if k / 8 >= |nulls| then r == Failed
            else if BitGet(nulls, k) then r == ReadColumns(columns, present, nulls, i + 1, k + 1, values[name := Null], c)
            else
              var v := ReadCell(columns[i].kind, c);
              if v.Done? then r == ReadColumns(columns, present, nulls, i + 1, k + 1, values[name := v.value], v.next)
              else r == Failed
  {
  }

  lemma ImageRoundTrip(columns: seq<Column>, present: Flags, image: Image, rest: Bytes)
    requires ImageFits(columns, present, image) && |present| == |columns| == |image|
    ensures ImageReadable(present, image, 0) ==>
              ReadImage(columns, Bitmap(present), Cursor(EncodeImage(columns, present, image) + rest, 0))
              == Done(ClientValues(columns, present, image, 0, map[]), Cursor(rest, 0))
    ensures DistinctNames(columns) && ImageDecided(present, image) && !ImageReadable(present, image, 0) ==>
              var r := ReadImage(columns, Bitmap(present), Cursor(EncodeImage(columns, present, image) + rest, 0));
              r.Done? ==> r.value != ClientValues(columns, present, image, 0, map[])
  {
    hide ReadColumns, Bitmap, Cells, ImageFits, ImageReadable, ImageDecided, DistinctNames, BitCount, ClientValues, NullFlags;
    var flags, cells := ReadNulls(columns, present, image, rest);
    if ImageReadable(present, image, 0) {
      ColumnsRoundTrip(columns, present, image, flags, 0, 0, map[], rest);
    } else if DistinctNames(columns) && ImageDecided(present, image) {
      var m := UnreadableCell(present, image);
      ColumnsMisread(columns, present, image, flags, 0, 0, map[], rest, m);
      ClientValuesLook(columns, present, image, 0, map[]);
    }
  }

  // The null bitmap is read, and the cells are left.
  lemma ReadNulls(columns: seq<Column>, present: Flags, image: Image, rest: Bytes) returns (flags: Flags, cells: Bytes)
    requires ImageFits(columns, present, image) && |present| == |columns| == |image|
    ensures flags == NullFlags(present, image, 0) && flags[0..] == flags && cells == Cells(columns, present, image, 0)
    ensures ReadImage(columns, Bitmap(present), Cursor(EncodeImage(columns, present, image) + rest, 0))
         == ReadColumns(columns, Bitmap(present), Bitmap(flags), 0, 0, map[], Cursor(cells + rest, 0))
  {
    hide ReadColumns, Bitmap, Cells, ImageFits, BitCount, NullFlags;
    flags, cells := NullFlags(present, image, 0), Cells(columns, present, image, 0);
    var nulls := Bitmap(flags);
    NullFlagsCount(present, image, 0);
    assert present[0..] == present && flags[0..] == flags;
    BitmapCount(present);
    assert nulls + cells + rest == nulls + (cells + rest);
    TakeFront(nulls, cells + rest);
  }

  lemma UnreadableCell(present: Flags, image: Image) returns (m: nat)
    requires |present| == |image| && ImageDecided(present, image) && !ImageReadable(present, image, 0)
    ensures FirstUnreadable(present, image, m) && Decided(image[m].value)
  {
    hide CellReadable, Decided;
    m := 0;
    while !(present[m] && image[m].Some? && !CellReadable(image[m].value))
      invariant m < |image|
      invariant forall j :: 0 <= j < m && present[j] && image[j].Some? ==> CellReadable(image[j].value)
      decreases |image| - m
    {
      m := m + 1;
    }
  }

  // With distinct names what an unreadable cell leaves in the dict stays there.
  lemma {:induction false} ColumnsMisread(columns: seq<Column>, present: Flags, image: Image, flags: Flags, i: nat, k: nat,
                                          values: Values, rest: Bytes, m: nat)
    requires ImageFits(columns, present, image) && |present| == |columns| == |image| && DistinctNames(columns)
    requires i <= m && FirstUnreadable(present, image, m) && Decided(image[m].value)
    requires k <= |flags| && flags[k..] == NullFlags(present, image, i)
    ensures m < |columns|
    ensures var r := ReadColumns(columns, Bitmap(present), Bitmap(flags), i, k, values,
                                 Cursor(Cells(columns, present, image, i) + rest, 0));
            r.Done? ==> columns[m].name in r.value && r.value[columns[m].name] != ClientCell(columns, present, image, m)
    decreases |columns| - i
  {
    hide Cells, Bitmap, BitGet, ReadColumns, ImageFits, DistinctNames, NullFlags, ClientCell, ReadCell, CellReadable, Decided;
    if i < m {
      var k', c, c' := ReadCellStep(columns, present, image, flags, i, k, values, rest);
      var values' := values[columns[i].name := ClientCell(columns, present, image, i)];
      ColumnsMisread(columns, present, image, flags, i + 1, k', values', rest, m);
    } else {
      BitmapGet(present, m);
      NextFlag(flags, k, present, image, m);
      BitmapGet(flags, k);
      var c := Cursor(Cells(columns, present, image, m) + rest, 0);
      CellsMisread(columns, present, image, m, rest);
      ReadColumnsStep(columns, Bitmap(present), Bitmap(flags), m, k, values, c);
      var v := ReadCell(columns[m].kind, c);
      if v.Done? {
        NamesBehind(columns, m);
        ColumnsKeep(columns, Bitmap(present), Bitmap(flags), m + 1, k + 1, values[columns[m].name := v.value], v.next,
                    columns[m].name);
      }
    }
  }

  lemma NamesBehind(columns: seq<Column>, m: nat)
    requires DistinctNames(columns) && m < |columns|
    ensures forall j :: m < j < |columns| ==> columns[j].name != columns[m].name
  {
  }

  lemma CellsMisread(columns: seq<Column>, present: Flags, image: Image, m: nat, rest: Bytes)
    requires ImageFits(columns, present, image) && |present| == |columns| == |image| && m < |columns|
    requires present[m] && image[m].Some? && !CellReadable(image[m].value) && Decided(image[m].value)
    ensures var r := ReadCell(columns[m].kind, Cursor(Cells(columns, present, image, m) + rest, 0));
            r.Done? ==> r.value != ClientCell(columns, present, image, m)
  {
    hide ReadCell, Fits, CellBytes, ClientValue, CellReadable, Decided;
    var kind, v, tail := columns[m].kind, image[m].value, Cells(columns, present, image, m + 1) + rest;
    assert Cells(columns, present, image, m) + rest == CellBytes(kind, v) + tail;
    CellRoundTrip(kind, v, tail);
  }

  // An entry under a name that does not come again stays as it is.
  lemma {:induction false} ColumnsKeep(columns: seq<Column>, present: Bytes, nulls: Bytes, i: nat, k: nat, values: Values,
                                       c: Cursor, name: string)
    requires i <= |columns| && name in values && forall j :: i <= j < |columns| ==> columns[j].name != name
    ensures var r := ReadColumns(columns, present, nulls, i, k, values, c);
            r.Done? ==> name in r.value && r.value[name] == values[name]
    decreases |columns| - i
  {
    hide ReadCell, BitGet;
    if i < |columns| && i / 8 < |present| {
      var other := columns[i].name;
      if !BitGet(present, i) {
        ColumnsKeep(columns, present, nulls, i + 1, k, values[other := Null], c, name);
      } else if k / 8 < |nulls| {
        if BitGet(nulls, k) {
          ColumnsKeep(columns, present, nulls, i + 1, k + 1, values[other := Null], c, name);
        } else {
          var r := ReadCell(columns[i].kind, c);
          if r.Done? {
            ColumnsKeep(columns, present, nulls, i + 1, k + 1, values[other := r.value], r.next, name);
          }
        }
      }
    }
  }

  // ---- events ----

  datatype StoredRow = StoredWhole(image: Image) | StoredChange(before: Image, after: Image)

  ghost predicate RowFits(columns: seq<Column>, shape: Shape<Flags>, row: StoredRow) {
    match (shape, row)
    case (Single(present), StoredWhole(image)) => ImageFits(columns, present, image)
    case (Pair(p, q), StoredChange(before, after)) => ImageFits(columns, p, before) && ImageFits(columns, q, after)
    case _ => false
  }

  ghost predicate RowReadable(columns: seq<Column>, shape: Shape<Flags>, row: StoredRow)
    requires RowFits(columns, shape, row)
  {
    match (shape, row)
    case (Single(present), StoredWhole(image)) => ImageReadable(present, image, 0)
    case (Pair(p, q), StoredChange(before, after)) => ImageReadable(p, before, 0) && ImageReadable(q, after, 0)
  }

  ghost predicate RowDecided(columns: seq<Column>, shape: Shape<Flags>, row: StoredRow)
    requires RowFits(columns, shape, row)
  {
    match (shape, row)
    case (Single(present), StoredWhole(image)) => ImageDecided(present, image)
    case (Pair(p, q), StoredChange(before, after)) => ImageDecided(p, before) && ImageDecided(q, after)
  }

  ghost function EncodeRow(columns: seq<Column>, shape: Shape<Flags>, row: StoredRow): Bytes
    requires RowFits(columns, shape, row)
  {
    match (shape, row)
    case (Single(present), StoredWhole(image)) => EncodeImage(columns, present, image)
    case (Pair(p, q), StoredChange(before, after)) => EncodeImage(columns, p, before) + EncodeImage(columns, q, after)
  }

  ghost function ClientRow(columns: seq<Column>, shape: Shape<Flags>, row: StoredRow): Row
    requires RowFits(columns, shape, row)
  {
    match (shape, row)
    case (Single(present), StoredWhole(image)) => Whole(ClientValues(columns, present, image, 0, map[]))
    case (Pair(p, q), StoredChange(before, after)) =>
      Change(ClientValues(columns, p, before, 0, map[]), ClientValues(columns, q, after, 0, map[]))
  }

  ghost predicate RowsFit(columns: seq<Column>, shape: Shape<Flags>, rows: seq<StoredRow>) {
    forall row :: row in rows ==> RowFits(columns, shape, row)
  }

  ghost predicate RowsReadable(columns: seq<Column>, shape: Shape<Flags>, rows: seq<StoredRow>)
    requires RowsFit(columns, shape, rows)
  {
    forall row :: row in rows ==> RowReadable(columns, shape, row)
  }

  ghost predicate RowsDecided(columns: seq<Column>, shape: Shape<Flags>, rows: seq<StoredRow>)
    requires RowsFit(columns, shape, rows)
  {
    forall row :: row in rows ==> RowDecided(columns, shape, row)
  }

  ghost function EncodeRows(columns: seq<Column>, shape: Shape<Flags>, rows: seq<StoredRow>): Bytes
    requires RowsFit(columns, shape, rows)
  {
    if rows == [] then [] else EncodeRow(columns, shape, rows[0]) + EncodeRows(columns, shape, rows[1..])
  }

  ghost function ClientRows(columns: seq<Column>, shape: Shape<Flags>, rows: seq<StoredRow>): (r: seq<Row>)
    requires RowsFit(columns, shape, rows)
    ensures |r| == |rows|
  {
    if rows == [] then [] else [ClientRow(columns, shape, rows[0])] + ClientRows(columns, shape, rows[1..])
  }

  function BitmapsOf(shape: Shape<Flags>): Shape<Bytes> {
    match shape
    case Single(present) => Single(Bitmap(present))
    case Pair(before, after) => Pair(Bitmap(before), Bitmap(after))
  }

  predicate SomeColumn(shape: Shape<Flags>) {
    match shape
    case Single(present) => true in present
    case Pair(before, after) => true in before || true in after
  }

  lemma {:induction false} CountSome(flags: Flags)
    ensures Count(flags) > 0 <==> true in flags
  {
    if flags != [] {
      assert flags == [flags[0]] + flags[1..];
      CountSome(flags[1..]);
    }
  }

  lemma SomeColumnAdvances(shape: Shape<Flags>)
    ensures Advances(BitmapsOf(shape)) <==> SomeColumn(shape)
  {
    match shape
    case Single(present) => BitmapCount(present); CountSome(present);
    case Pair(before, after) =>
      BitmapCount(before);
      BitmapCount(after);
      CountSome(before);
      CountSome(after);
  }

  lemma RowRoundTrip(columns: seq<Column>, shape: Shape<Flags>, row: StoredRow, rest: Bytes)
    requires RowFits(columns, shape, row)
    ensures RowReadable(columns, shape, row) ==>
              FetchOneRow(columns, BitmapsOf(shape), Cursor(EncodeRow(columns, shape, row) + rest, 0))
              == Done(ClientRow(columns, shape, row), Cursor(rest, 0))
    ensures DistinctNames(columns) && RowDecided(columns, shape, row) && !RowReadable(columns, shape, row) ==>
              var r := FetchOneRow(columns, BitmapsOf(shape), Cursor(EncodeRow(columns, shape, row) + rest, 0));
              r.Done? ==> r.value != ClientRow(columns, shape, row)
  {
    ImagesFit(columns, shape, row);
    hide ReadImage, EncodeImage, ImageFits, ImageReadable, ImageDecided, DistinctNames, ClientValues, Bitmap;
    match (shape, row)
    case (Single(present), StoredWhole(image)) => ImageRoundTrip(columns, present, image, rest);
    case (Pair(p, q), StoredChange(before, after)) =>
      var a, b := EncodeImage(columns, p, before), EncodeImage(columns, q, after);
      assert a + b + rest == a + (b + rest);
      ImageRoundTrip(columns, p, before, b + rest);
      ImageRoundTrip(columns, q, after, rest);
  }

  lemma ImagesFit(columns: seq<Column>, shape: Shape<Flags>, row: StoredRow)
    requires RowFits(columns, shape, row)
    ensures match (shape, row)
            case (Single(present), StoredWhole(image)) => |present| == |columns| == |image|
            case (Pair(p, q), StoredChange(before, after)) => |p| == |before| == |q| == |after| == |columns|
  {
  }

  // Whatever the rows, if all their cells are readable, the event yields them, with nothing read past its
  // end; with distinct column names and only decided cells it never yields them otherwise.
  lemma {:induction false} RowsRoundTrip(columns: seq<Column>, shape: Shape<Flags>, rows: seq<StoredRow>, rest: Bytes,
                                         readBytes: int)
    requires RowsFit(columns, shape, rows) && SomeColumn(shape)
    ensures Advances(BitmapsOf(shape))
    ensures RowsReadable(columns, shape, rows) ==>
              FetchRows(columns, BitmapsOf(shape), Cursor(EncodeRows(columns, shape, rows) + rest, 0), readBytes,
                        readBytes + |EncodeRows(columns, shape, rows)|)
              == Done(ClientRows(columns, shape, rows), Cursor(rest, 0))
    ensures DistinctNames(columns) && RowsDecided(columns, shape, rows) && !RowsReadable(columns, shape, rows) ==>
              var r := FetchRows(columns, BitmapsOf(shape), Cursor(EncodeRows(columns, shape, rows) + rest, 0), readBytes,
                                 readBytes + |EncodeRows(columns, shape, rows)|);
              r.Done? ==> r.value != ClientRows(columns, shape, rows)
    decreases |rows|
  {
    hide FetchOneRow, FetchRows, EncodeRow, RowFits, ClientRow, ClientRows, BitmapsOf, SomeColumn, Advances, EncodeRows,
         RowsFit, RowReadable, RowDecided, RowsReadable, RowsDecided, DistinctNames;
    SomeColumnAdvances(shape);
    if rows == [] {
      NoRows(columns, shape, rest, readBytes);
    } else {
      EncodeRowsStep(columns, shape, rows);
      ReadableRowsStep(columns, shape, rows);
      var first, more := EncodeRow(columns, shape, rows[0]), EncodeRows(columns, shape, rows[1..]);
      var s, eventSize := EncodeRows(columns, shape, rows) + rest, readBytes + |first| + |more|;
      assert s == first + (more + rest);
      RowTakes(columns, shape, rows[0]);
      RowRoundTrip(columns, shape, rows[0], more + rest);
      RowsRoundTrip(columns, shape, rows[1..], rest, readBytes + |first|);
      FetchRowsStep(columns, BitmapsOf(shape), Cursor(s, 0), readBytes, eventSize);
      RowsDiffer(FetchRows(columns, BitmapsOf(shape), Cursor(s, 0), readBytes, eventSize),
                 ClientRow(columns, shape, rows[0]), ClientRows(columns, shape, rows[1..]));
    }
  }

  // A list of rows is wrong when its first row or one of the others is.
  lemma RowsDiffer(r: Step<seq<Row>>, row: Row, rows: seq<Row>)
    ensures r.Done? && r.value != [] && r.value[0] != row ==> r.value != [row] + rows
    ensures r.Done? && r.value != [] && r.value[1..] != rows ==> r.value != [row] + rows
  {
    assert ([row] + rows)[1..] == rows;
  }

  lemma NoRows(columns: seq<Column>, shape: Shape<Flags>, rest: Bytes, readBytes: int)
    requires Advances(BitmapsOf(shape))
    ensures RowsFit(columns, shape, []) && EncodeRows(columns, shape, []) == [] && ClientRows(columns, shape, []) == []
    ensures RowsReadable(columns, shape, [])
    ensures [] + rest == rest && FetchRows(columns, BitmapsOf(shape), Cursor(rest, 0), readBytes, readBytes) == Done([], Cursor(rest, 0))
  {
  }

  lemma RowTakes(columns: seq<Column>, shape: Shape<Flags>, row: StoredRow)
    requires RowFits(columns, shape, row) && SomeColumn(shape)
    ensures |EncodeRow(columns, shape, row)| > 0
  {
    hide Bitmap, NullFlags, Cells;
    match (shape, row)
    case (Single(present), StoredWhole(image)) => ImageTakes(columns, present, image);
    case (Pair(p, q), StoredChange(before, after)) =>
      ImageTakes(columns, p, before);
      ImageTakes(columns, q, after);
  }

  lemma ImageTakes(columns: seq<Column>, present: Flags, image: Image)
    requires ImageFits(columns, present, image)
    ensures true in present ==> |EncodeImage(columns, present, image)| > 0
  {
    hide Bitmap, NullFlags, Cells;
    NullFlagsCount(present, image, 0);
    assert present[0..] == present;
    CountSome(present);
  }

  lemma FetchRowsStep(columns: seq<Column>, shape: Shape<Bytes>, c: Cursor, readBytes: int, eventSize: int)
    requires Advances(shape) && readBytes < eventSize
    ensures FetchOneRow(columns, shape, c).Failed? ==> FetchRows(columns, shape, c, readBytes, eventSize) == Failed
    ensures var one, all := FetchOneRow(columns, shape, c), FetchRows(columns, shape, c, readBytes, eventSize);
            one.Done? ==>
              var more := FetchRows(columns, shape, one.next, readBytes + |c.rest| - |one.next.rest|, eventSize);
              if more.Failed? then all == Failed else all == Done([one.value] + more.value, more.next)
  {
    hide FetchOneRow, Advances;
    RowShrinks(columns, shape, c);
  }

  lemma EncodeRowsStep(columns: seq<Column>, shape: Shape<Flags>, rows: seq<StoredRow>)
    requires RowsFit(columns, shape, rows) && rows != []
    ensures RowFits(columns, shape, rows[0]) && RowsFit(columns, shape, rows[1..])
    ensures EncodeRows(columns, shape, rows) == EncodeRow(columns, shape, rows[0]) + EncodeRows(columns, shape, rows[1..])
    ensures ClientRows(columns, shape, rows) == [ClientRow(columns, shape, rows[0])] + ClientRows(columns, shape, rows[1..])
  {
    assert rows[0] in rows && forall row :: row in rows[1..] ==> row in rows;
  }

  lemma ReadableRowsStep(columns: seq<Column>, shape: Shape<Flags>, rows: seq<StoredRow>)
    requires RowsFit(columns, shape, rows) && rows != [] && RowFits(columns, shape, rows[0]) && RowsFit(columns, shape, rows[1..])
    ensures RowsReadable(columns, shape, rows)
       <==> RowReadable(columns, shape, rows[0]) && RowsReadable(columns, shape, rows[1..])
    ensures RowsDecided(columns, shape, rows)
       <==> RowDecided(columns, shape, rows[0]) && RowsDecided(columns, shape, rows[1..])
  {
    hide RowReadable, RowDecided, RowFits;
    assert rows == [rows[0]] + rows[1..];
  }
}
