// Which documents the binary JSON reader gets wrong.
module BinaryJsonMisread {
  import opened Binary
  import opened Readers
  import opened BinLogPacket
  import opened BinaryJson
  import opened BinaryJsonProofs

  // As many keys are read as lengths are given, and as many entries as asked for.
  lemma {:induction false} KeyCount(lengths: seq<nat>, s: Bytes)
    ensures var r := ReadKeys(lengths, s); r.Ok? ==> |r.value| == |lengths|
    decreases |lengths|
  {
    hide Take;
    if lengths != [] && Take(s, lengths[0]).Ok? {
      KeyCount(lengths[1..], Take(s, lengths[0]).rest);
    }
  }

  lemma {:induction false} LengthCount(n: nat, large: bool, s: Bytes)
    ensures var r := ReadKeyLengths(n, large, s); r.Ok? ==> |r.value| == n
    decreases n
  {
    hide UInt;
    if n > 0 && UInt(s, Width(large)).Ok? && UInt(UInt(s, Width(large)).rest, 2).Ok? {
      LengthCount(n - 1, large, UInt(UInt(s, Width(large)).rest, 2).rest);
    }
  }

  lemma {:induction false} EntryCount(n: nat, large: bool, s: Bytes)
    ensures var r := ReadEntries(n, large, s); r.Ok? ==> |r.value| == n
    decreases n
  {
    hide ReadEntry;
    if n > 0 && ReadEntry(large, s).Ok? {
      EntryCount(n - 1, large, ReadEntry(large, s).rest);
    }
  }

  // ---- one misread integer ----

  // The first 32-bit integer in a large table.
  ghost predicate FirstMisread(ds: seq<Doc>, m: nat) {
    m < |ds| && Misread(ds[m], true) && forall i :: 0 <= i < m ==> !Misread(ds[i], true)
  }

  lemma {:induction false} LittleEndianAppend(a: Bytes, b: Bytes)
    ensures FromLittleEndian(a + b) == FromLittleEndian(a) + Pow256(|a|) * FromLittleEndian(b)
    decreases |a|
  {
    if a == [] {
      assert a + b == b;
    } else {
      LittleEndianAppend(a[1..], b);
      assert (a + b)[1..] == a[1..] + b;
      assert 256 * (Pow256(|a| - 1) * FromLittleEndian(b)) == Pow256(|a|) * FromLittleEndian(b);
    }
  }

  // Eight bytes of which the upper four begin with a byte from 1 to 254 are no 32-bit integer.
  lemma EightBytes(n: int, low: nat, high: nat)
    requires high < 0x1_0000_0000 && 1 <= high % 256 <= 254
    ensures FitsSigned(n, 4) && low == Unsigned(n, 4) ==> Signed(low + 0x1_0000_0000 * high, 8) != n
    ensures 0 <= n < Pow256(4) && low == n ==> low + 0x1_0000_0000 * high != n
  {
    assert Pow256(4) == 0x1_0000_0000 && Pow256(8) == 0x1_0000_0000_0000_0000;
  }

  lemma WrongInteger(d: Doc, offset: nat, tail: Bytes)
    requires Ranged(d) && Misread(d, true) && tail != [] && 1 <= tail[0] <= 254
    ensures var r := ReadEntry(true, EntryBytes(d, true, offset) + tail);
            r.Ok? ==> r.value.Inline? && r.value.value != ScalarValue(d)
  {
    hide LittleEndian, FromLittleEndian;
    var field := InlineBytes(d, true);
    var s := EntryBytes(d, true, offset) + tail;
    assert s[0] == TypeOf(d) && s[1..] == field + tail;
    if |tail| >= 4 {
      HighBytes(field, tail);
      var low: nat := if d.I32? then Unsigned(d.n, 4) else d.n;
      LittleEndianRoundTrip(low, 4);
      FromLittleEndianBound(tail[..4]);
      FirstByteLow(tail[..4]);
      assert Pow256(4) == 0x1_0000_0000;
      EightBytes(d.n, low, FromLittleEndian(tail[..4]));
    }
  }

  lemma HighBytes(field: Bytes, tail: Bytes)
    requires |field| == 4 && |tail| >= 4
    ensures Take(field + tail, 8).Ok?
    ensures FromLittleEndian(Take(field + tail, 8).value)
         == FromLittleEndian(field) + 0x1_0000_0000 * FromLittleEndian(tail[..4])
  {
    hide FromLittleEndian;
    assert (field + tail)[..8] == field + tail[..4];
    LittleEndianAppend(field, tail[..4]);
    assert Pow256(4) == 0x1_0000_0000;
  }

  lemma FirstByteLow(bs: Bytes)
    requires bs != []
    ensures FromLittleEndian(bs) % 256 == bs[0]
  {
  }

  // ---- one table ----

  lemma {:induction false} TableWrong(ds: seq<Doc>, m: nat, offset: nat, rest: Bytes)
    requires AllRanged(ds) && FirstMisread(ds, m) && m + 1 < |ds| && TypeOf(ds[m + 1]) != 0
    ensures var r := ReadEntries(|ds|, true, ValueTable(ds, true, offset) + rest);
            r.Ok? ==> |r.value| == |ds| && r.value[m].Inline? && r.value[m].value != ScalarValue(ds[m])
    decreases m
  {
    hide ReadEntry, EntryBytes, EntryOf, ValueTable;
    var offset' := TableStep(ds, true, offset, rest);
    var tail := ValueTable(ds[1..], true, offset') + rest;
    var s := EntryBytes(ds[0], true, offset) + tail;
    EntryCount(|ds|, true, s);
    if m == 0 {
      TableBegins(ds[1..], offset', rest);
      WrongInteger(ds[0], offset, tail);
    } else {
      EntryRoundTrip(ds[0], true, offset, tail);
      TableWrong(ds[1..], m - 1, offset', rest);
    }
  }

  // A table begins with the type of its first value.
  lemma TableBegins(ds: seq<Doc>, offset: nat, rest: Bytes)
    requires AllRanged(ds) && ds != []
    ensures var s := ValueTable(ds, true, offset) + rest; s != [] && s[0] == TypeOf(ds[0]) <= 12
  {
    assert ds[0] in ds;
    var offset' := TableStep(ds, true, offset, rest);
    assert (EntryBytes(ds[0], true, offset) + (ValueTable(ds[1..], true, offset') + rest))[0] == TypeOf(ds[0]);
  }

  lemma {:induction false} InlineStays(entries: seq<Entry>, length: int, s: Bytes, m: nat)
    requires m < |entries| && entries[m].Inline?
    ensures var r := ReadValues(entries, length, s); r.Ok? ==> |r.value| == |entries| && r.value[m] == entries[m].value
    decreases |entries|
  {
    hide ReadValue;
    ValueCount(entries, length, s);
    if m > 0 && ReadOne(entries[0], length, s).Ok? {
      InlineStays(entries[1..], length, ReadOne(entries[0], length, s).rest, m - 1);
    }
  }

  lemma {:induction false} ValueCount(entries: seq<Entry>, length: int, s: Bytes)
    ensures var r := ReadValues(entries, length, s); r.Ok? ==> |r.value| == |entries|
    decreases |entries|
  {
    hide ReadOne;
    if entries != [] && ReadOne(entries[0], length, s).Ok? {
      ValueCount(entries[1..], length, ReadOne(entries[0], length, s).rest);
    }
  }

  lemma {:induction false} ValuesAt(ds: seq<Doc>, m: nat)
    requires m < |ds|
    ensures ValuesOf(ds)[m] == ValueOf(ds[m])
    decreases m
  {
    hide ValueOf;
    if m > 0 {
      ValuesAt(ds[1..], m - 1);
    }
  }

  // A dict with as many members as were put into it holds them as they were.
  lemma {:induction false} DictSetGrows(out: seq<(Bytes, Json)>, key: Bytes, value: Json)
    ensures |DictSet(out, key, value)| == |out| || DictSet(out, key, value) == out + [(key, value)]
    decreases |out|
  {
    if out != [] && out[0].0 != key {
      DictSetGrows(out[1..], key, value);
      assert out == [out[0]] + out[1..];
    }
  }

  lemma {:induction false} FullDict(keys: seq<Bytes>, values: seq<Json>, out: seq<(Bytes, Json)>)
    requires |keys| == |values|
    ensures var r := FillDict(keys, values, out);
            |r| <= |out| + |keys| && (|r| == |out| + |keys| ==> r == out + Pairs(keys, values))
    decreases |keys|
  {
    hide DictSet;
    if keys == [] {
      assert out + [] == out;
    } else {
      DictSetGrows(out, keys[0], values[0]);
      var out' := DictSet(out, keys[0], values[0]);
      FullDict(keys[1..], values[1..], out');
      assert out + [(keys[0], values[0])] + Pairs(keys[1..], values[1..])
          == out + ([(keys[0], values[0])] + Pairs(keys[1..], values[1..]));
    }
  }

  lemma {:induction false} PairsAt(keys: seq<Bytes>, values: seq<Json>)
    requires |keys| == |values|
    ensures |Pairs(keys, values)| == |keys|
    ensures forall m :: 0 <= m < |keys| ==> Pairs(keys, values)[m].1 == values[m]
    decreases |keys|
  {
    if keys != [] {
      PairsAt(keys[1..], values[1..]);
    }
  }

  // With one value wrong the dict is wrong, whatever keys it got.
  lemma DictWrong(keys: seq<Bytes>, values: seq<Json>, keys': seq<Bytes>, values': seq<Json>, m: nat)
    requires |keys| == |values| == |keys'| == |values'| && m < |keys| && values[m] != values'[m]
    ensures FillDict(keys', values', []) != Pairs(keys, values)
  {
    hide FillDict, Pairs;
    FullDict(keys', values', []);
    PairsAt(keys, values);
    PairsAt(keys', values');
    assert [] + Pairs(keys', values') == Pairs(keys', values');
  }

  // In the table the first misread integer has an entry behind it that is no small object's.
  ghost predicate SpoiledTable(ds: seq<Doc>) {
    exists m: nat :: FirstMisread(ds, m) && m + 1 < |ds| && TypeOf(ds[m + 1]) != 0
  }

  lemma SpoilingEntry(ds: seq<Doc>) returns (m: nat)
    requires SpoiledTable(ds)
    ensures FirstMisread(ds, m) && m + 1 < |ds| && TypeOf(ds[m + 1]) != 0
  {
    m :| FirstMisread(ds, m) && m + 1 < |ds| && TypeOf(ds[m + 1]) != 0;
  }

  // ---- one container ----

  lemma ArrayTableWrong(d: Doc, length: int, rest: Bytes)
    requires d.Arr? && d.large && Ranged(d) && AllRanged(d.elements) && |Body(d)| < Pow256(4) && |d.elements| < Pow256(4)
    requires SpoiledTable(d.elements)
    ensures var r := ReadArray(length, true, Body(d) + rest); r.Ok? ==> r.value != JArray(ValuesOf(d.elements))
  {
    hide Pow256, Body, ReadArray, ReadHeader, ReadEntries, ReadValues, ValueTable, Bodies, LittleEndian, Ranged, AllRanged,
         ArrayHeader, FirstMisread, SpoiledTable, TypeOf, ValuesOf;
    var m := SpoilingEntry(d.elements);
    ArrayParts(d, rest);
    var ds, header, s := d.elements, ArrayHeader(d), Body(d) + rest;
    var tail := Bodies(ds, true) + rest;
    var s1 := ValueTable(ds, true, header) + tail;
    HeaderRoundTrip(|ds|, |Body(d)|, true, s1);
    TableWrong(ds, m, header, tail);
    MisreadValue(ds, m);
    if |Body(d)| > length {
      TooLong(length, true, s, |ds|, |Body(d)|, s1);
    } else {
      var r := ReadEntries(|ds|, true, s1);
      if r.Ok? {
        ReadArrayFrom(length, true, s, |ds|, |Body(d)|, s1, r.value, r.rest);
        InlineStays(r.value, length, r.rest, m);
      } else {
        ReadArrayFails(length, true, s, |ds|, |Body(d)|, s1);
      }
    }
  }

  lemma TooLong(length: int, large: bool, s: Bytes, n: nat, size: nat, s1: Bytes)
    requires ReadHeader(large, s) == Ok((n, size), s1) && size > length
    ensures ReadArray(length, large, s) == Error && ReadObject(length, large, s) == Error
  {
  }

  lemma MisreadValue(ds: seq<Doc>, m: nat)
    requires FirstMisread(ds, m)
    ensures m < |ds| && ValuesOf(ds)[m] == ScalarValue(ds[m])
  {
    ValuesAt(ds, m);
  }

  // The pieces of an object in front of its value table.
  lemma ObjectTable(d: Doc, rest: Bytes) returns (s1: Bytes, offset: nat, s2: Bytes, tail: Bytes)
    requires d.Obj? && d.large && Ranged(d) && AllRanged(d.elements) && |Body(d)| < Pow256(4) && |d.elements| < Pow256(4)
    requires |d.keys| == |d.elements| && forall k :: k in d.keys ==> |k| < Pow256(2)
    ensures ReadHeader(true, Body(d) + rest) == Ok((|d.keys|, |Body(d)|), s1)
    ensures ReadKeyLengths(|d.keys|, true, s1) == Ok(Lengths(d.keys), s2)
    ensures s2 == ValueTable(d.elements, true, offset) + tail
  {
    hide Pow256, Body, ReadHeader, ReadKeyLengths, Lengths, Concat, KeyTable, ValueTable, Bodies, LittleEndian, Ranged,
         AllRanged, ObjectHeader;
    ObjectParts(d, rest);
    var header := ObjectHeader(d);
    offset := header + |Concat(d.keys)|;
    tail := Concat(d.keys) + (Bodies(d.elements, true) + rest);
    s2 := ValueTable(d.elements, true, offset) + tail;
    s1 := KeyTable(d.keys, true, header) + s2;
    HeaderRoundTrip(|d.keys|, |Body(d)|, true, s1);
    KeyTableRoundTrip(d.keys, true, header, s2);
  }

  lemma ObjectTableWrong(d: Doc, length: int, rest: Bytes)
    requires d.Obj? && d.large && Ranged(d) && AllRanged(d.elements) && |Body(d)| < Pow256(4) && |d.elements| < Pow256(4)
    requires |d.keys| == |d.elements| && forall k :: k in d.keys ==> |k| < Pow256(2)
    requires SpoiledTable(d.elements)
    ensures var r := ReadObject(length, true, Body(d) + rest);
            r.Ok? ==> r.value != JObject(Pairs(d.keys, ValuesOf(d.elements)))
  {
    hide Pow256, Body, ReadObject, ReadHeader, ReadKeyLengths, ReadEntries, Lengths, ValueTable, Ranged, AllRanged,
         FirstMisread, SpoiledTable, TypeOf, ValuesOf, ScalarValue, Pairs;
    var m := SpoilingEntry(d.elements);
    var s1, offset, s2, tail := ObjectTable(d, rest);
    TableWrong(d.elements, m, offset, tail);
    MisreadValue(d.elements, m);
    if |Body(d)| > length {
      TooLong(length, true, Body(d) + rest, |d.keys|, |Body(d)|, s1);
    } else {
      ObjectFromWrongTable(d.keys, ValuesOf(d.elements), m, length, Body(d) + rest, |Body(d)|, s1, s2);
    }
  }

  lemma ObjectFromWrongTable(keys: seq<Bytes>, values: seq<Json>, m: nat, length: int, s: Bytes, size: nat, s1: Bytes, s2: Bytes)
    requires |keys| == |values| && m < |keys| && size <= length
    requires ReadHeader(true, s) == Ok((|keys|, size), s1) && ReadKeyLengths(|keys|, true, s1) == Ok(Lengths(keys), s2)
    requires var r := ReadEntries(|keys|, true, s2);
             r.Ok? ==> |r.value| == |keys| && r.value[m].Inline? && r.value[m].value != values[m]
    ensures var r := ReadObject(length, true, s); r.Ok? ==> r.value != JObject(Pairs(keys, values))
  {
    hide ReadObject, ReadHeader, ReadEntries, ReadValues, ReadKeyLengths, ReadKeys, FillDict, Lengths, Pairs;
    var r := ReadEntries(|keys|, true, s2);
    if r.Ok? {
      ReadObjectFrom(length, true, s, |keys|, size, s1, Lengths(keys), s2, r.value, r.rest);
      KeyCount(Lengths(keys), r.rest);
      var k := ReadKeys(Lengths(keys), r.rest);
      if k.Ok? {
        InlineStays(r.value, length, k.rest, m);
        var v := ReadValues(r.value, length, k.rest);
        if v.Ok? {
          DictWrong(keys, values, k.value, v.value, m);
        }
      }
    } else {
      ReadObjectFails(length, true, s, |keys|, size, s1, Lengths(keys), s2);
    }
  }

  // ---- any document ----

  // In reading order, which is a container's own table first and then its bodies one after another, the
  // first table with a misread integer in it is such a table.
  ghost predicate Spoiled(d: Doc) {
    IsContainer(d) &&
    if NoneMisread(d.elements, d.large) then
      exists j :: 0 <= j < |d.elements| && Spoiled(d.elements[j]) && forall i :: 0 <= i < j ==> Readable(d.elements[i])
    else
      SpoiledTable(d.elements)
  }

  // The first value behind its entry.
  lemma FirstValue(d: Doc, large: bool, length: int, s: Bytes, tail: Bytes)
    requires if Inlined(d, large) then s == tail else ReadValue(TypeOf(d), length, s) == Ok(ValueOf(d), tail)
    ensures ReadOne(EntryOf(d, large), length, s) == Ok(ValueOf(d), tail)
  {
    hide ReadValue, TypeOf;
  }

  lemma ValuesStep(entries: seq<Entry>, length: int, s: Bytes)
    requires entries != []
    ensures ReadOne(entries[0], length, s).Error? ==> ReadValues(entries, length, s) == Error
    ensures var v := ReadOne(entries[0], length, s);
            v.Ok? ==> ReadValues(entries, length, s) == Prepend(v.value, ReadValues(entries[1..], length, v.rest))
  {
    hide ReadOne;
  }

  function Prepend(v: Json, r: Parsed<seq<Json>>): Parsed<seq<Json>> {
    match r
    case Error => Error
    case Ok(vs, rest) => Ok([v] + vs, rest)
  }

  lemma BodiesStep(ds: seq<Doc>, large: bool, rest: Bytes)
    requires ds != [] && AllRanged(ds) && Ranged(ds[0]) && AllRanged(ds[1..])
    ensures var tail := Bodies(ds[1..], large) + rest;
            Bodies(ds, large) + rest == if Inlined(ds[0], large) then tail else Body(ds[0]) + tail
  {
    hide Body, Ranged, AllRanged, Inlined;
    var bodies := Bodies(ds[1..], large);
    if Inlined(ds[0], large) {
      assert Bodies(ds, large) == bodies;
    } else {
      assert Bodies(ds, large) == Body(ds[0]) + bodies;
      assert Body(ds[0]) + bodies + rest == Body(ds[0]) + (bodies + rest);
    }
  }

  lemma EntriesStep(ds: seq<Doc>, large: bool)
    requires ds != []
    ensures EntriesOf(ds, large)[0] == EntryOf(ds[0], large) && EntriesOf(ds, large)[1..] == EntriesOf(ds[1..], large)
    ensures ValuesOf(ds)[0] == ValueOf(ds[0]) && ValuesOf(ds)[1..] == ValuesOf(ds[1..])
  {
    hide EntryOf, ValueOf;
  }

  lemma FirstWrong(entries: seq<Entry>, length: int, s: Bytes, vs: seq<Json>)
    requires entries != [] && vs != []
    requires var v := ReadOne(entries[0], length, s); v.Ok? ==> v.value != vs[0]
    ensures var r := ReadValues(entries, length, s); r.Ok? ==> r.value != vs
  {
    hide ReadOne;
    ValuesStep(entries, length, s);
  }

  lemma RestWrong(entries: seq<Entry>, length: int, s: Bytes, v: Json, tail: Bytes, vs: seq<Json>)
    requires entries != [] && vs != [] && ReadOne(entries[0], length, s) == Ok(v, tail)
    requires var r := ReadValues(entries[1..], length, tail); r.Ok? ==> r.value != vs[1..]
    ensures var r := ReadValues(entries, length, s); r.Ok? ==> r.value != vs
  {
    hide ReadOne, ReadValues;
    ValuesStep(entries, length, s);
    var r := ReadValues(entries[1..], length, tail);
    assert r.Ok? ==> Prepend(v, r).value[1..] == r.value;
  }

  lemma ReadBehindEntry(d: Doc, large: bool, length: int, s: Bytes)
    requires IsContainer(d)
    ensures ReadOne(EntryOf(d, large), length, s) == ReadValue(TypeOf(d), length, s)
  {
    hide ReadValue, TypeOf;
  }

  lemma {:induction false} BodiesSpoiled(ds: seq<Doc>, j: nat, large: bool, length: int, rest: Bytes)
    requires AllRanged(ds) && (forall d :: d in ds ==> WellFormed(d)) && j < |ds|
    requires Spoiled(ds[j]) && forall i :: 0 <= i < j ==> Readable(ds[i])
    requires forall d :: d in ds && IsContainer(d) ==> |Body(d)| < length
    ensures var r := ReadValues(EntriesOf(ds, large), length, Bodies(ds, large) + rest); r.Ok? ==> r.value != ValuesOf(ds)
    decreases ds, 0
  {
    var d := ds[0];
    assert d in ds && forall e :: e in ds[1..] ==> e in ds;
    assert IsContainer(ds[j]);
    hide EntryOf, AllRanged, Body, Bodies, ReadOne, ReadValue, ReadValues, EntriesOf, ValuesOf, TypeOf, ValueOf, WellFormed,
         Readable, Ranged, Spoiled;
    BodiesStep(ds, large, rest);
    EntriesStep(ds, large);
    var s, tail := Bodies(ds, large) + rest, Bodies(ds[1..], large) + rest;
    if j == 0 {
      ReadBehindEntry(d, large, length, s);
      SpoiledNeverRead(d, length, tail);
      FirstWrong(EntriesOf(ds, large), length, s, ValuesOf(ds));
    } else {
      if !Inlined(d, large) {
        DocumentRoundTrip(d, length, tail);
      }
      FirstValue(d, large, length, s, tail);
      assert ds[1..][j - 1] == ds[j];
      BodiesSpoiled(ds[1..], j - 1, large, length, rest);
      RestWrong(EntriesOf(ds, large), length, s, ValueOf(d), tail, ValuesOf(ds));
    }
  }

  // Such a document is never read as what it is, wherever it is nested and whatever follows it.
  lemma {:induction false} SpoiledNeverRead(d: Doc, length: int, rest: Bytes)
    requires WellFormed(d) && Spoiled(d) && |Body(d)| < length
    ensures var r := ReadValue(TypeOf(d), length, Body(d) + rest); r.Ok? ==> r.value != ValueOf(d)
    decreases d, 1
  {
    hide ReadValue, TypeOf, ValueOf, ReadArray, ReadObject, Body, WellFormed, Readable, Spoiled, SpoiledTable, Ranged,
         AllRanged, Pow256, NoneMisread, Distinct, Pairs, ValuesOf;
    SpoiledCases(d);
    ContainerFacts(d);
    ReadContainer(d, length, Body(d) + rest);
    if NoneMisread(d.elements, d.large) {
      var j := SpoiledElement(d);
      if d.Arr? {
        ArraySpoiled(d, j, length, rest);
      } else {
        ObjectSpoiled(d, j, length, rest);
      }
    } else if d.Arr? {
      ArrayTableWrong(d, length - 1, rest);
    } else {
      ObjectTableWrong(d, length - 1, rest);
    }
  }

  lemma SpoiledCases(d: Doc)
    requires Spoiled(d)
    ensures IsContainer(d) && (!NoneMisread(d.elements, d.large) ==> SpoiledTable(d.elements))
  {
  }

  lemma SpoiledElement(d: Doc) returns (j: nat)
    requires Spoiled(d) && IsContainer(d) && NoneMisread(d.elements, d.large)
    ensures j < |d.elements| && Spoiled(d.elements[j]) && forall i :: 0 <= i < j ==> Readable(d.elements[i])
  {
    j :| 0 <= j < |d.elements| && Spoiled(d.elements[j]) && forall i :: 0 <= i < j ==> Readable(d.elements[i]);
  }

  lemma ContainerFacts(d: Doc)
    requires WellFormed(d) && IsContainer(d)
    ensures Ranged(d) && AllRanged(d.elements) && (forall e :: e in d.elements ==> WellFormed(e))
    ensures |Body(d)| < Pow256(Width(d.large)) && |d.elements| < Pow256(Width(d.large))
    ensures d.Obj? ==> |d.keys| == |d.elements| && Distinct(d.keys) && forall k :: k in d.keys ==> |k| < Pow256(2)
    ensures !NoneMisread(d.elements, d.large) ==> d.large
  {
  }

  lemma {:induction false} ArraySpoiled(d: Doc, j: nat, length: int, rest: Bytes)
    requires d.Arr? && Ranged(d) && AllRanged(d.elements) && (forall e :: e in d.elements ==> WellFormed(e))
    requires NoneMisread(d.elements, d.large) && j < |d.elements| && Spoiled(d.elements[j])
    requires forall i :: 0 <= i < j ==> Readable(d.elements[i])
    requires |Body(d)| < Pow256(Width(d.large)) && |d.elements| < Pow256(Width(d.large)) && |Body(d)| < length
    ensures var r := ReadArray(length - 1, d.large, Body(d) + rest); r.Ok? ==> r.value != JArray(ValuesOf(d.elements))
    decreases d, 0
  {
    hide WellFormed, Readable, Spoiled, Pow256, Body, ReadArray, ReadValues, ValueTable, Bodies, NoneMisread, AllRanged,
         EntriesOf, ValuesOf, LittleEndian, Ranged, ArrayHeader;
    ElementsWithin(d, length);
    ArrayParts(d, rest);
    var large, ds, header := d.large, d.elements, ArrayHeader(d);
    var tail := Bodies(ds, large) + rest;
    ArrayReads(ds, large, |Body(d)|, header, length - 1, Body(d) + rest, ValueTable(ds, large, header) + tail, tail);
    BodiesSpoiled(ds, j, large, length - 1, rest);
  }

  lemma {:induction false} ObjectSpoiled(d: Doc, j: nat, length: int, rest: Bytes)
    requires d.Obj? && Ranged(d) && AllRanged(d.elements) && (forall e :: e in d.elements ==> WellFormed(e))
    requires NoneMisread(d.elements, d.large) && j < |d.elements| && Spoiled(d.elements[j])
    requires forall i :: 0 <= i < j ==> Readable(d.elements[i])
    requires |Body(d)| < Pow256(Width(d.large)) && |d.elements| < Pow256(Width(d.large)) && |Body(d)| < length
    requires |d.keys| == |d.elements| && Distinct(d.keys) && forall k :: k in d.keys ==> |k| < Pow256(2)
    ensures var r := ReadObject(length - 1, d.large, Body(d) + rest);
            r.Ok? ==> r.value != JObject(Pairs(d.keys, ValuesOf(d.elements)))
    decreases d, 0
  {
    hide WellFormed, Readable, Spoiled, Pow256, Body, ReadObject, ReadValues, ReadKeys, FillDict, Pairs, Lengths, Concat,
         KeyTable, ValueTable, Bodies, NoneMisread, AllRanged, Distinct, EntriesOf, ValuesOf, LittleEndian, Ranged,
         ObjectHeader;
    ElementsWithin(d, length);
    ObjectParts(d, rest);
    var large, keys, ds, header := d.large, d.keys, d.elements, ObjectHeader(d);
    var bodies := Bodies(ds, large) + rest;
    var tail := Concat(keys) + bodies;
    var s2 := ValueTable(ds, large, header + |Concat(keys)|) + tail;
    ObjectReads(keys, ds, large, |Body(d)|, header, length - 1, Body(d) + rest, KeyTable(keys, large, header) + s2, s2, tail);
    KeysRoundTrip(keys, bodies);
    BodiesSpoiled(ds, j, large, length - 1, rest);
    var v := ReadValues(EntriesOf(ds, large), length - 1, bodies);
    if v.Ok? {
      ValueCount(EntriesOf(ds, large), length - 1, bodies);
      FillDictFromNothing(keys, v.value);
      PairsDiffer(keys, v.value, ValuesOf(ds));
    }
  }

  lemma PairsDiffer(keys: seq<Bytes>, a: seq<Json>, b: seq<Json>)
    requires |keys| == |a| == |b| && a != b
    ensures Pairs(keys, a) != Pairs(keys, b)
  {
    hide Pairs;
    PairsAt(keys, a);
    PairsAt(keys, b);
    var m :| 0 <= m < |a| && a[m] != b[m];
    assert Pairs(keys, a)[m].1 != Pairs(keys, b)[m].1;
  }

  // The same for a column value.
  lemma SpoiledColumnNeverRead(d: Doc, size: nat, rest: Bytes)
    requires WellFormed(d) && Spoiled(d) && 1 <= size <= 8 && 1 + |Body(d)| < Pow256(size)
    ensures var r := ReadJson(size, Cursor(JsonColumn(d, size) + rest, 0)); r.Done? ==> r.value != ValueOf(d)
  {
    assert Ranged(d);
    hide Body, Payload, ReadTyped, ReadJson, WellFormed, Spoiled, LittleEndian, Pow256, ValueOf, TypeOf, Ranged;
    SpoiledPayload(d, rest);
    hide JsonColumn;
    ColumnBytes(d, size, rest);
    ReadJsonWrong(size, Payload(d), ValueOf(d), JsonColumn(d, size) + rest, rest);
  }

  lemma ColumnBytes(d: Doc, size: nat, rest: Bytes)
    requires Ranged(d)
    ensures JsonColumn(d, size) + rest == LittleEndian(|Payload(d)|, size) + (Payload(d) + rest)
  {
    hide Ranged, Payload, LittleEndian;
    Regrouped(LittleEndian(|Payload(d)|, size), Payload(d), rest);
  }

  lemma Regrouped(a: Bytes, b: Bytes, c: Bytes)
    ensures a + b + c == a + (b + c)
  {
  }

  lemma ReadJsonWrong(size: nat, payload: Bytes, v: Json, s: Bytes, rest: Bytes)
    requires 1 <= size <= 8 && |payload| < Pow256(size) && s == LittleEndian(|payload|, size) + (payload + rest)
    requires var r := ReadTyped(|payload|, payload + rest); r.Ok? ==> r.value != v
    ensures var r := ReadJson(size, Cursor(s, 0)); r.Done? ==> r.value != v
  {
    hide ReadTyped, ReadJson, UIntBySize, LittleEndian, Pow256, On;
    var tail := payload + rest;
    SizeField(size, |payload|, tail);
    ReadJsonFrom(size, s, payload, rest);
    OnKeeps(Cursor(tail, |payload|), ReadTyped(|payload|, tail));
  }

  lemma SizeField(size: nat, n: nat, tail: Bytes)
    requires 1 <= size <= 8 && n < Pow256(size)
    ensures UIntBySize(LittleEndian(n, size) + tail, size) == Ok(n, tail)
  {
    hide UInt, LittleEndian, Pow256;
    UIntRoundTrip(n, size, tail);
  }

  lemma OnKeeps(c: Cursor, r: Parsed<Json>)
    ensures On(c, r).Done? == r.Ok? && (r.Ok? ==> On(c, r).value == r.value)
  {
  }

  lemma SpoiledPayload(d: Doc, rest: Bytes)
    requires WellFormed(d) && Spoiled(d) && Ranged(d)
    ensures var r := ReadTyped(|Payload(d)|, Payload(d) + rest); r.Ok? ==> r.value != ValueOf(d)
  {
    hide Body, ReadValue, WellFormed, Spoiled, TypeOf, ValueOf, Ranged;
    var s := Payload(d) + rest;
    assert s[0] == TypeOf(d) && s[1..] == Body(d) + rest;
    SpoiledNeverRead(d, |Payload(d)|, rest);
  }

  // ---- an array the server sends ----

  const COUNT: nat := 9362

  // 9362 times 70000, which needs 32 bits.
  ghost function ManyIntegers(n: nat): (ds: seq<Doc>)
    ensures |ds| == n && forall d :: d in ds ==> d == I32(70000)
  {
    seq(n, i => I32(70000))
  }

  lemma {:induction false} IntegerBodies(n: nat, large: bool)
    ensures AllRanged(ManyIntegers(n)) && |Bodies(ManyIntegers(n), large)| == if large then 0 else 4 * n
    decreases n
  {
    if n > 0 {
      IntegerBodies(n - 1, large);
      assert ManyIntegers(n)[1..] == ManyIntegers(n - 1);
    }
  }

  // The array is too long for the small form, so it goes out in the large one, as a column value with a
  // length of four bytes; it is never read as what it is.
  lemma ServedArrayMisread(rest: Bytes)
    ensures var small, large := Arr(false, ManyIntegers(COUNT)), Arr(true, ManyIntegers(COUNT));
            && Ranged(small) && |Body(small)| >= Pow256(2) && !WellFormed(small)
            && WellFormed(large) && 1 + |Body(large)| < Pow256(4)
            && var r := ReadJson(4, Cursor(JsonColumn(large, 4) + rest, 0)); (r.Done? ==> r.value != ValueOf(large))
  {
    IntegerSizes();
    hide Body, ReadJson, JsonColumn, WellFormed, Spoiled;
    SpoiledColumnNeverRead(Arr(true, ManyIntegers(COUNT)), 4, rest);
  }

  lemma IntegerSizes()
    ensures var small, large := Arr(false, ManyIntegers(COUNT)), Arr(true, ManyIntegers(COUNT));
            && Ranged(small) && |Body(small)| >= Pow256(2) && !WellFormed(small)
            && WellFormed(large) && Spoiled(large) && 1 + |Body(large)| < Pow256(4)
  {
    var ds := ManyIntegers(COUNT);
    IntegerBodies(COUNT, false);
    IntegerBodies(COUNT, true);
    assert Pow256(2) == 65536 && Pow256(4) == 0x1_0000_0000;
    hide Bodies, ValueTable, LittleEndian;
    assert |Body(Arr(false, ds))| == 4 + 3 * COUNT + 4 * COUNT;
    assert |Body(Arr(true, ds))| == 8 + 5 * COUNT;
    assert ds[0] in ds && ds[1] in ds;
    assert FirstMisread(ds, 0) && TypeOf(ds[1]) != 0;
  }

  // ---- an integer last in its table ----

  // Empty strings, then 70000.
  ghost function ThenNumber(n: nat): (ds: seq<Doc>)
    ensures |ds| == n + 1
  {
    if n == 0 then [I32(70000)] else [Str([])] + ThenNumber(n - 1)
  }

  function Zeros(n: nat): (bs: Bytes)
    ensures |bs| == n && forall i :: 0 <= i < n ==> bs[i] == 0
  {
    if n == 0 then [] else [0] + Zeros(n - 1)
  }

  lemma {:induction false} NumberBodies(n: nat)
    ensures AllRanged(ThenNumber(n)) && (forall d :: d in ThenNumber(n) ==> WellFormed(d))
    ensures I32(70000) in ThenNumber(n) && Bodies(ThenNumber(n), true) == Zeros(n)
    decreases n
  {
    if n > 0 {
      NumberBodies(n - 1);
      assert ThenNumber(n)[1..] == ThenNumber(n - 1);
      assert Body(Str([])) == [0];
    }
  }

  lemma Bytes70000()
    ensures LittleEndian(70000, 8) == LittleEndian(70000, 4) + [0, 0, 0, 0]
    ensures Unsigned(70000, 4) == Unsigned(70000, 8) == 70000 && FitsSigned(70000, 4) && FitsSigned(70000, 8)
  {
    assert LittleEndian(0, 1) == [0] && LittleEndian(0, 2) == [0, 0];
    assert LittleEndian(0, 3) == [0, 0, 0] && LittleEndian(0, 5) == [0, 0, 0, 0, 0];
    assert LittleEndian(273, 3) == [17, 1, 0] && LittleEndian(273, 7) == [17, 1, 0, 0, 0, 0, 0];
    assert Pow256(4) == 0x1_0000_0000 && Pow256(8) == 0x1_0000_0000_0000_0000;
  }

  lemma NumberEntry(offset: nat, more: Bytes)
    ensures Ranged(I32(70000))
    ensures ReadEntry(true, EntryBytes(I32(70000), true, offset) + ([0, 0, 0, 0] + more))
         == Ok(EntryOf(I32(70000), true), more)
  {
    Bytes70000();
    hide LittleEndian, FromLittleEndian, Int, Pow256;
    var four := LittleEndian(70000, 4);
    var s := EntryBytes(I32(70000), true, offset) + ([0, 0, 0, 0] + more);
    assert s == [7] + four + ([0, 0, 0, 0] + more);
    assert s[1..] == four + [0, 0, 0, 0] + more;
    IntRoundTrip(70000, 8, more);
  }

  lemma {:induction false} NumberEntries(n: nat, offset: nat, more: Bytes)
    requires AllRanged(ThenNumber(n))
    ensures ReadEntries(n + 1, true, ValueTable(ThenNumber(n), true, offset) + ([0, 0, 0, 0] + more))
         == Ok(EntriesOf(ThenNumber(n), true), more)
    decreases n
  {
    hide ReadEntry, EntryBytes, EntryOf, ValueTable;
    var ds, rest := ThenNumber(n), [0, 0, 0, 0] + more;
    var offset' := TableStep(ds, true, offset, rest);
    var tail := ValueTable(ds[1..], true, offset') + rest;
    if n == 0 {
      assert tail == rest;
      NumberEntry(offset, more);
    } else {
      assert ds[1..] == ThenNumber(n - 1);
      EntryRoundTrip(ds[0], true, offset, tail);
      NumberEntries(n - 1, offset', more);
    }
  }

  lemma {:induction false} NumberValues(n: nat, length: int, rest: Bytes)
    ensures ReadValues(EntriesOf(ThenNumber(n), true), length, Zeros(n) + rest) == Ok(ValuesOf(ThenNumber(n)), rest)
    decreases n
  {
    var ds, s := ThenNumber(n), Zeros(n) + rest;
    EntriesStep(ds, true);
    ValuesStep(EntriesOf(ds, true), length, s);
    if n == 0 {
      assert s == rest;
    } else {
      var tail := Zeros(n - 1) + rest;
      assert ds[1..] == ThenNumber(n - 1) && s == VariableLength(0) + [] + tail;
      StringRoundTrip([], tail);
      FirstValue(ds[0], true, length, s, tail);
      NumberValues(n - 1, length, rest);
    }
  }

  // Whether a document with such an integer comes out right is not its own affair: this one does when four
  // zero bytes follow it, which are then missing behind it.
  lemma LastIntegerReadRight(n: nat, rest: Bytes)
    requires 6 * n + 13 < Pow256(4)
    ensures var d := Arr(true, ThenNumber(n));
            && WellFormed(d) && !Readable(d)
            && ReadValue(TypeOf(d), 1 + |Body(d)|, Body(d) + ([0, 0, 0, 0] + rest)) == Ok(ValueOf(d), rest)
  {
    var d := Arr(true, ThenNumber(n));
    ThenNumberFacts(n);
    hide Pow256, Body, ReadValue, ReadArray, WellFormed, Readable, Ranged, AllRanged, TypeOf, ValueOf, ThenNumber;
    ReadThenNumber(d, n, rest);
    ReadContainer(d, 1 + |Body(d)|, Body(d) + ([0, 0, 0, 0] + rest));
  }

  lemma ThenNumberFacts(n: nat)
    requires 6 * n + 13 < Pow256(4)
    ensures var d := Arr(true, ThenNumber(n));
            WellFormed(d) && !Readable(d) && Ranged(d) && AllRanged(d.elements) && |Body(d)| < Pow256(4)
  {
    NumberBodies(n);
    var d := Arr(true, ThenNumber(n));
    hide Pow256, Bodies, LittleEndian, ValueTable, ThenNumber;
    assert |Body(d)| == 6 * n + 13;
    assert Misread(I32(70000), true);
  }

  lemma ReadThenNumber(d: Doc, n: nat, rest: Bytes)
    requires d == Arr(true, ThenNumber(n)) && Ranged(d) && AllRanged(d.elements) && |Body(d)| < Pow256(4)
    requires n + 1 < Pow256(4)
    ensures ReadArray(|Body(d)|, true, Body(d) + ([0, 0, 0, 0] + rest)) == Ok(JArray(ValuesOf(d.elements)), rest)
  {
    hide Pow256, Body, ReadArray, ReadHeader, ReadEntries, ReadValues, ValueTable, Bodies, LittleEndian, AllRanged, Ranged,
         EntriesOf, ValuesOf, ThenNumber, WellFormed, ArrayHeader;
    NumberBodies(n);
    ArrayParts(d, [0, 0, 0, 0] + rest);
    var more := Zeros(n) + rest;
    assert Zeros(n) + ([0, 0, 0, 0] + rest) == [0, 0, 0, 0] + more;
    var s, s1 := Body(d) + ([0, 0, 0, 0] + rest), ValueTable(d.elements, true, ArrayHeader(d)) + ([0, 0, 0, 0] + more);
    HeaderRoundTrip(n + 1, |Body(d)|, true, s1);
    NumberEntries(n, ArrayHeader(d), more);
    NumberValues(n, |Body(d)|, rest);
    ReadArrayFrom(|Body(d)|, true, s, n + 1, |Body(d)|, s1, EntriesOf(d.elements, true), more);
  }
}
