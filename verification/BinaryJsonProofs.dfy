// What the binary JSON reader makes of the server's bytes.
module BinaryJsonProofs {
  import opened Binary
  import opened Readers
  import opened BinLogPacket
  import opened BinaryJson

  // A 32-bit integer stored directly in a large container: four bytes on the wire, eight when read.
  predicate Misread(d: Doc, large: bool) {
    large && (d.I32? || d.U32?)
  }

  ghost predicate NoneMisread(ds: seq<Doc>, large: bool) {
    forall d :: d in ds ==> !Misread(d, large)
  }

  // No large container anywhere in the document has such an integer among its elements.
  ghost predicate Readable(d: Doc) {
    IsContainer(d) ==> NoneMisread(d.elements, d.large) && forall e :: e in d.elements ==> Readable(e)
  }

  function EntryOf(d: Doc, large: bool): Entry {
    if Inlined(d, large) then Inline(ScalarValue(d)) else Later(TypeOf(d))
  }

  // The value of a document that is no container.
  function ScalarValue(d: Doc): Json {
    match d
    case Literal(code) => if code == 0 then JNull else JBool(code == 1)
    case Double(bits) => JDouble(bits)
    case Str(s) => JString(s)
    case Arr(_, _) => JNull
    case Obj(_, _, _) => JNull
    case _ => JInt(d.n)
  }

  function EntriesOf(ds: seq<Doc>, large: bool): (es: seq<Entry>)
    ensures |es| == |ds|
  {
    if ds == [] then [] else [EntryOf(ds[0], large)] + EntriesOf(ds[1..], large)
  }

  // ---- scalars ----

  lemma {:induction false} VariableLengthRoundTrip(n: nat, rest: Bytes)
    ensures ReadLength(VariableLength(n) + rest) == Ok(n, rest)
    decreases n
  {
    var s := VariableLength(n) + rest;
    if n < 128 {
      assert s[1..] == rest;
    } else {
      VariableLengthRoundTrip(n / 128, rest);
      assert s[1..] == VariableLength(n / 128) + rest;
    }
  }

  lemma StringRoundTrip(text: Bytes, rest: Bytes)
    ensures ReadString(VariableLength(|text|) + text + rest) == Ok(JString(text), rest)
  {
    VariableLengthRoundTrip(|text|, text + rest);
    assert VariableLength(|text|) + text + rest == VariableLength(|text|) + (text + rest);
    TakeFront(text, rest);
  }

  // Read behind an offset, a scalar is itself, whatever length is passed along.
  lemma ScalarRoundTrip(d: Doc, length: int, rest: Bytes)
    requires Ranged(d) && !IsContainer(d)
    ensures ReadValue(TypeOf(d), length, Body(d) + rest) == Ok(ScalarValue(d), rest)
  {
    hide LittleEndian, FromLittleEndian, VariableLength, ReadObject, ReadArray, ReadString;
    match d
    case Literal(code) => assert FromLittleEndian([code]) == code by { OneByte(code); } TakeFront([code], rest);
    case I16(n) => IntRoundTrip(n, 2, rest);
    case U16(n) => UIntRoundTrip(n, 2, rest);
    case I32(n) => IntRoundTrip(n, 4, rest);
    case U32(n) => UIntRoundTrip(n, 4, rest);
    case I64(n) => IntRoundTrip(n, 8, rest);
    case U64(n) => UIntRoundTrip(n, 8, rest);
    case Double(bits) => TakeFront(bits, rest);
    case Str(s) => StringRoundTrip(s, rest);
  }

  lemma OneByte(b: Byte)
    ensures FromLittleEndian([b]) == b
  {
    assert [b][1..] == [];
  }

  // ---- entries of a value table ----

  ghost function EntryBytes(d: Doc, large: bool, offset: nat): (bs: Bytes)
    requires Ranged(d)
    ensures |bs| == 1 + Width(large)
  {
    if Inlined(d, large) then [TypeOf(d)] + InlineBytes(d, large) else [TypeOf(d)] + LittleEndian(offset, Width(large))
  }

  lemma SmallInLarge(n: int)
    ensures FitsSigned(n, 2) ==> FitsSigned(n, 4)
    ensures 0 <= n < Pow256(2) ==> n < Pow256(4)
  {
  }

  lemma LiteralFits(code: Byte, large: bool)
    ensures code < Pow256(Width(large))
  {
  }

  lemma InlineRoundTrip(d: Doc, large: bool, rest: Bytes)
    requires Ranged(d) && Inlined(d, large) && !Misread(d, large)
    ensures ReadInlined(TypeOf(d), large, InlineBytes(d, large) + rest) == Ok(ScalarValue(d), rest)
  {
    hide LittleEndian, FromLittleEndian;
    match d
    case Literal(code) => LiteralFits(code, large); UIntRoundTrip(code, Width(large), rest);
    case I16(n) => SmallInLarge(n); IntRoundTrip(n, Width(large), rest);
    case U16(n) => SmallInLarge(n); UIntRoundTrip(n, Width(large), rest);
  }

  lemma EntryRoundTrip(d: Doc, large: bool, offset: nat, rest: Bytes)
    requires Ranged(d) && !Misread(d, large)
    ensures ReadEntry(large, EntryBytes(d, large, offset) + rest) == Ok(EntryOf(d, large), rest)
  {
    var s := EntryBytes(d, large, offset) + rest;
    if Inlined(d, large) {
      assert s[1..] == InlineBytes(d, large) + rest;
      InlineRoundTrip(d, large, rest);
    } else {
      var field := LittleEndian(offset, Width(large));
      assert s[1..] == field + rest;
      TakeFront(field, rest);
    }
  }

  // Any entry of a large table takes at least five bytes, and a misread one takes nine.
  lemma EntryTakes(s: Bytes)
    ensures var r := ReadEntry(true, s);
            r.Ok? ==> |s| - |r.rest| >= 5 && (s[0] == 7 || s[0] == 8 ==> |s| - |r.rest| == 9)
  {
  }

  lemma {:induction false} EntriesTake(n: nat, s: Bytes)
    ensures var r := ReadEntries(n, true, s); r.Ok? ==> |s| - |r.rest| >= 5 * n
    decreases n
  {
    if n > 0 {
      EntryTakes(s);
      hide ReadEntry;
      if ReadEntry(true, s).Ok? {
        EntriesTake(n - 1, ReadEntry(true, s).rest);
      }
    }
  }

  lemma TableStep(ds: seq<Doc>, large: bool, offset: nat, rest: Bytes) returns (offset': nat)
    requires AllRanged(ds) && ds != []
    ensures AllRanged(ds[1..]) && Ranged(ds[0])
    ensures ValueTable(ds, large, offset) + rest
         == EntryBytes(ds[0], large, offset) + (ValueTable(ds[1..], large, offset') + rest)
  {
    assert ds[0] in ds && forall d :: d in ds[1..] ==> d in ds;
    offset' := if Inlined(ds[0], large) then offset else offset + |Body(ds[0])|;
    hide Body, InlineBytes, TypeOf;
    var entry, table := EntryBytes(ds[0], large, offset), ValueTable(ds[1..], large, offset');
    assert ValueTable(ds, large, offset) == entry + table;
    assert entry + table + rest == entry + (table + rest);
  }

  // Reading a value table ends exactly where the table ends, whatever follows it, if and only if it
  // is no large table with a 32-bit integer in it; and then the entries are the server's.
  lemma {:induction false} TableRoundTrip(ds: seq<Doc>, large: bool, offset: nat, rest: Bytes)
    requires AllRanged(ds)
    ensures NoneMisread(ds, large) ==>
              ReadEntries(|ds|, large, ValueTable(ds, large, offset) + rest) == Ok(EntriesOf(ds, large), rest)
    ensures !NoneMisread(ds, large) ==>
              var r := ReadEntries(|ds|, large, ValueTable(ds, large, offset) + rest);
              r.Ok? ==> |r.rest| < |rest|
    decreases |ds|
  {
    hide ReadEntry, EntryBytes, EntryOf, ValueTable;
    if ds == [] {
      assert ValueTable(ds, large, offset) + rest == rest;
    } else {
      var offset' := TableStep(ds, large, offset, rest);
      var tail := ValueTable(ds[1..], large, offset') + rest;
      assert ds == [ds[0]] + ds[1..];
      if !Misread(ds[0], large) {
        EntryRoundTrip(ds[0], large, offset, tail);
        TableRoundTrip(ds[1..], large, offset', rest);
      } else {
        MisreadEntry(ds[0], offset, tail);
        var r := ReadEntry(true, EntryBytes(ds[0], large, offset) + tail);
        if r.Ok? {
          EntriesTake(|ds| - 1, r.rest);
        }
      }
    }
  }

  lemma MisreadEntry(d: Doc, offset: nat, tail: Bytes)
    requires Ranged(d) && Misread(d, true)
    ensures var r := ReadEntry(true, EntryBytes(d, true, offset) + tail); r.Ok? ==> |r.rest| + 4 == |tail|
  {
    var s := EntryBytes(d, true, offset) + tail;
    assert s[0] == TypeOf(d);
    EntryTakes(s);
  }

  lemma TableReadIff(ds: seq<Doc>, large: bool, offset: nat, rest: Bytes)
    requires AllRanged(ds)
    ensures ReadEntries(|ds|, large, ValueTable(ds, large, offset) + rest) == Ok(EntriesOf(ds, large), rest)
       <==> NoneMisread(ds, large)
  {
    hide ReadEntries, ValueTable, EntriesOf;
    TableRoundTrip(ds, large, offset, rest);
  }

  // ---- keys ----

  function Lengths(keys: seq<Bytes>): (ns: seq<nat>)
    ensures |ns| == |keys|
  {
    if keys == [] then [] else [|keys[0]|] + Lengths(keys[1..])
  }

  lemma KeyEntryRoundTrip(key: Bytes, large: bool, offset: nat, tail: Bytes)
    requires |key| < Pow256(2)
    ensures var a := UInt(LittleEndian(offset, Width(large)) + (LittleEndian(|key|, 2) + tail), Width(large));
            a.Ok? && UInt(a.rest, 2) == Ok(|key|, tail)
  {
    hide LittleEndian, FromLittleEndian;
    TakeFront(LittleEndian(offset, Width(large)), LittleEndian(|key|, 2) + tail);
    UIntRoundTrip(|key|, 2, tail);
  }

  lemma {:induction false} KeyTableRoundTrip(keys: seq<Bytes>, large: bool, offset: nat, rest: Bytes)
    requires forall k :: k in keys ==> |k| < Pow256(2)
    ensures ReadKeyLengths(|keys|, large, KeyTable(keys, large, offset) + rest) == Ok(Lengths(keys), rest)
    decreases |keys|
  {
    hide LittleEndian, UInt;
    if keys == [] {
      assert KeyTable(keys, large, offset) + rest == rest;
    } else {
      assert keys[0] in keys && forall k :: k in keys[1..] ==> k in keys;
      KeyTableStep(keys, large, offset);
      hide KeyTable, Pow256;
      var a, b := LittleEndian(offset, Width(large)), LittleEndian(|keys[0]|, 2);
      var tail := KeyTable(keys[1..], large, offset + |keys[0]|) + rest;
      assert KeyTable(keys, large, offset) + rest == a + (b + tail);
      KeyEntryRoundTrip(keys[0], large, offset, tail);
      KeyTableRoundTrip(keys[1..], large, offset + |keys[0]|, rest);
    }
  }

  lemma KeyTableStep(keys: seq<Bytes>, large: bool, offset: nat)
    requires keys != []
    ensures KeyTable(keys, large, offset)
         == LittleEndian(offset, Width(large)) + LittleEndian(|keys[0]|, 2) + KeyTable(keys[1..], large, offset + |keys[0]|)
  {
  }

  lemma {:induction false} KeysRoundTrip(keys: seq<Bytes>, rest: Bytes)
    ensures ReadKeys(Lengths(keys), Concat(keys) + rest) == Ok(keys, rest)
    decreases |keys|
  {
    if keys == [] {
      assert Concat(keys) + rest == rest;
    } else {
      var tail := Concat(keys[1..]) + rest;
      assert Concat(keys) + rest == keys[0] + tail;
      TakeFront(keys[0], tail);
      KeysRoundTrip(keys[1..], rest);
      assert Lengths(keys)[1..] == Lengths(keys[1..]);
      assert keys == [keys[0]] + keys[1..];
    }
  }

  // However the bytes fall, the keys take as many as their lengths say.
  lemma {:induction false} KeysTake(keys: seq<Bytes>, s: Bytes)
    ensures var r := ReadKeys(Lengths(keys), s); r.Ok? ==> |r.rest| + |Concat(keys)| == |s|
    decreases |keys|
  {
    if keys != [] && |keys[0]| <= |s| {
      assert Lengths(keys)[1..] == Lengths(keys[1..]);
      KeysTake(keys[1..], s[|keys[0]|..]);
    }
  }

  lemma {:induction false} DictSetNew(out: seq<(Bytes, Json)>, key: Bytes, value: Json)
    requires forall i :: 0 <= i < |out| ==> out[i].0 != key
    ensures DictSet(out, key, value) == out + [(key, value)]
    decreases |out|
  {
    if out != [] {
      DictSetNew(out[1..], key, value);
      assert out == [out[0]] + out[1..];
    }
  }

  // With distinct keys the dict holds every member, in order.
  lemma {:induction false} FillDictDistinct(keys: seq<Bytes>, values: seq<Json>, out: seq<(Bytes, Json)>)
    requires |keys| == |values| && Distinct(keys)
    requires forall i, j :: 0 <= i < |out| && 0 <= j < |keys| ==> out[i].0 != keys[j]
    ensures FillDict(keys, values, out) == out + Pairs(keys, values)
    decreases |keys|
  {
    if keys == [] {
      assert out + [] == out;
    } else {
      DictSetNew(out, keys[0], values[0]);
      var out' := out + [(keys[0], values[0])];
      forall i, j | 0 <= i < |out'| && 0 <= j < |keys[1..]|
        ensures out'[i].0 != keys[1..][j]
      {
      }
      FillDictDistinct(keys[1..], values[1..], out');
      assert out' + Pairs(keys[1..], values[1..]) == out + ([(keys[0], values[0])] + Pairs(keys[1..], values[1..]));
    }
  }

  // ---- documents ----

  lemma HeaderRoundTrip(n: nat, size: nat, large: bool, rest: Bytes)
    requires n < Pow256(Width(large)) && size < Pow256(Width(large))
    ensures ReadHeader(large, LittleEndian(n, Width(large)) + LittleEndian(size, Width(large)) + rest) == Ok((n, size), rest)
  {
    hide LittleEndian, FromLittleEndian, UInt;
    var w := Width(large);
    var a, b := LittleEndian(n, w), LittleEndian(size, w);
    assert a + b + rest == a + (b + rest);
    UIntRoundTrip(n, w, b + rest);
    UIntRoundTrip(size, w, rest);
  }

  lemma {:induction false} BodyWithin(ds: seq<Doc>, large: bool, d: Doc)
    requires AllRanged(ds) && d in ds && !Inlined(d, large)
    ensures |Body(d)| <= |Bodies(ds, large)|
    decreases |ds|
  {
    hide Body;
    assert forall e :: e in ds[1..] ==> e in ds;
    if d != ds[0] {
      assert ds == [ds[0]] + ds[1..];
      BodyWithin(ds[1..], large, d);
    }
  }

  ghost predicate AllReadable(ds: seq<Doc>) {
    forall d :: d in ds ==> WellFormed(d) && Readable(d)
  }

  // The bodies, read one after another behind their entries.
  lemma {:induction false} BodiesRoundTrip(ds: seq<Doc>, large: bool, length: int, rest: Bytes)
    requires AllRanged(ds) && AllReadable(ds)
    requires forall d :: d in ds && IsContainer(d) ==> |Body(d)| < length
    ensures ReadValues(EntriesOf(ds, large), length, Bodies(ds, large) + rest) == Ok(ValuesOf(ds), rest)
    decreases ds, 0
  {
    hide Body, ReadValue, WellFormed, Readable, Ranged;
    if ds == [] {
      assert Bodies(ds, large) + rest == rest;
    } else {
      var d := ds[0];
      assert d in ds && forall e :: e in ds[1..] ==> e in ds;
      var tail := Bodies(ds[1..], large) + rest;
      if Inlined(d, large) {
        assert Bodies(ds, large) + rest == tail;
      } else {
        assert Bodies(ds, large) + rest == Body(d) + tail;
        DocumentRoundTrip(d, length, tail);
      }
      BodiesRoundTrip(ds[1..], large, length, rest);
      assert EntriesOf(ds, large)[1..] == EntriesOf(ds[1..], large);
    }
  }

  lemma Children(d: Doc)
    requires WellFormed(d) && Readable(d) && IsContainer(d)
    ensures Ranged(d) && AllRanged(d.elements) && AllReadable(d.elements) && NoneMisread(d.elements, d.large)
    ensures |Body(d)| < Pow256(Width(d.large)) && |d.elements| < Pow256(Width(d.large))
    ensures d.Obj? ==> |d.keys| == |d.elements| && Distinct(d.keys) && forall k :: k in d.keys ==> |k| < Pow256(2)
  {
  }

  // The reader inverts the serialiser on every readable document, wherever it is nested and whatever
  // follows it, taking exactly its bytes.
  lemma {:induction false} DocumentRoundTrip(d: Doc, length: int, rest: Bytes)
    requires WellFormed(d) && Readable(d)
    requires IsContainer(d) ==> |Body(d)| < length
    ensures ReadValue(TypeOf(d), length, Body(d) + rest) == Ok(ValueOf(d), rest)
    decreases d, 1
  {
    match d {
      case Arr(large, elements) =>
        Children(d);
        ArrayRoundTrip(d, length, rest);
      case Obj(large, keys, elements) =>
        Children(d);
        ObjectRoundTrip(d, length, rest);
      case _ =>
        hide Body, ReadValue;
        ScalarRoundTrip(d, length, rest);
    }
  }

  lemma ElementsWithin(d: Doc, length: int)
    requires Ranged(d) && IsContainer(d) && AllRanged(d.elements) && |Body(d)| < length
    ensures forall e :: e in d.elements && IsContainer(e) ==> |Body(e)| < length - 1
  {
    forall e | e in d.elements && IsContainer(e)
      ensures |Body(e)| < length - 1
    {
      BodyWithin(d.elements, d.large, e);
    }
  }

  // ---- putting the parts of a container together ----

  lemma ReadContainer(d: Doc, length: int, s: Bytes)
    requires IsContainer(d)
    ensures d.Arr? ==> ReadValue(TypeOf(d), length, s) == ReadArray(length - 1, d.large, s)
    ensures d.Obj? ==> ReadValue(TypeOf(d), length, s) == ReadObject(length - 1, d.large, s)
    ensures d.Arr? ==> ValueOf(d) == JArray(ValuesOf(d.elements))
    ensures d.Obj? ==> ValueOf(d) == JObject(Pairs(d.keys, ValuesOf(d.elements)))
  {
    hide ReadArray, ReadObject;
  }

  ghost function ArrayHeader(d: Doc): nat
    requires d.Arr?
  {
    2 * Width(d.large) + EntriesSize(|d.elements|, d.large)
  }

  lemma ArrayParts(d: Doc, rest: Bytes)
    requires d.Arr? && Ranged(d) && AllRanged(d.elements)
    ensures var w, bodies := Width(d.large), Bodies(d.elements, d.large);
            var size := ArrayHeader(d) + |bodies|;
            && |Body(d)| == size
            && Body(d) + rest
               == LittleEndian(|d.elements|, w) + LittleEndian(size, w)
                  + (ValueTable(d.elements, d.large, ArrayHeader(d)) + (bodies + rest))
  {
    hide Bodies, ValueTable, LittleEndian, Ranged;
    var w, bodies := Width(d.large), Bodies(d.elements, d.large);
    var a, b := LittleEndian(|d.elements|, w), LittleEndian(ArrayHeader(d) + |bodies|, w);
    var table := ValueTable(d.elements, d.large, ArrayHeader(d));
    assert Body(d) == a + b + (table + bodies);
    assert a + b + (table + bodies) + rest == a + b + (table + (bodies + rest));
  }

  lemma ReadArrayFrom(length: int, large: bool, s: Bytes, n: nat, size: nat, s1: Bytes, entries: seq<Entry>, s2: Bytes)
    requires ReadHeader(large, s) == Ok((n, size), s1) && size <= length
    requires ReadEntries(n, large, s1) == Ok(entries, s2)
    ensures ReadArray(length, large, s)
         == match ReadValues(entries, length, s2)
            case Error => Error
            case Ok(values, s3) => Ok(JArray(values), s3)
  {
  }

  // Up to the bodies, which start at tail.
  lemma ArrayReads(ds: seq<Doc>, large: bool, size: nat, header: nat, length: int, s: Bytes, s1: Bytes, tail: Bytes)
    requires AllRanged(ds) && NoneMisread(ds, large) && |ds| < Pow256(Width(large)) && size < Pow256(Width(large))
    requires s == LittleEndian(|ds|, Width(large)) + LittleEndian(size, Width(large)) + s1
    requires s1 == ValueTable(ds, large, header) + tail && size <= length
    ensures ReadArray(length, large, s)
         == match ReadValues(EntriesOf(ds, large), length, tail)
            case Error => Error
            case Ok(values, s3) => Ok(JArray(values), s3)
  {
    hide ReadArray, ReadHeader, ReadEntries, ReadValues, ValueTable, EntriesOf, LittleEndian, Pow256, AllRanged;
    HeaderRoundTrip(|ds|, size, large, s1);
    TableRoundTrip(ds, large, header, tail);
    ReadArrayFrom(length, large, s, |ds|, size, s1, EntriesOf(ds, large), tail);
  }

  lemma {:induction false} ArrayRoundTrip(d: Doc, length: int, rest: Bytes)
    requires d.Arr? && Ranged(d) && AllRanged(d.elements) && AllReadable(d.elements) && NoneMisread(d.elements, d.large)
    requires |Body(d)| < Pow256(Width(d.large)) && |d.elements| < Pow256(Width(d.large)) && |Body(d)| < length
    ensures ReadValue(TypeOf(d), length, Body(d) + rest) == Ok(ValueOf(d), rest)
    decreases d, 0
  {
    hide WellFormed, Readable, ReadValue, TypeOf, ValueOf, Pow256, Body, ReadArray, ReadValues, ValueTable, Bodies,
         AllReadable, NoneMisread, AllRanged, EntriesOf, ValuesOf, LittleEndian, Ranged, ArrayHeader;
    ElementsWithin(d, length);
    ArrayParts(d, rest);
    ReadContainer(d, length, Body(d) + rest);
    var large, ds, header := d.large, d.elements, ArrayHeader(d);
    var tail := Bodies(ds, large) + rest;
    ArrayReads(ds, large, |Body(d)|, header, length - 1, Body(d) + rest, ValueTable(ds, large, header) + tail, tail);
    BodiesRoundTrip(ds, large, length - 1, rest);
  }

  ghost function ObjectHeader(d: Doc): nat
    requires d.Obj?
  {
    2 * Width(d.large) + KeysSize(|d.keys|, d.large) + EntriesSize(|d.keys|, d.large)
  }

  lemma ObjectParts(d: Doc, rest: Bytes)
    requires d.Obj? && Ranged(d) && AllRanged(d.elements) && |d.keys| == |d.elements|
    ensures var w, names, bodies := Width(d.large), Concat(d.keys), Bodies(d.elements, d.large);
            var size := ObjectHeader(d) + |names| + |bodies|;
            && |Body(d)| == size
            && Body(d) + rest
               == LittleEndian(|d.elements|, w) + LittleEndian(size, w)
                  + (KeyTable(d.keys, d.large, ObjectHeader(d))
                     + (ValueTable(d.elements, d.large, ObjectHeader(d) + |names|) + (names + (bodies + rest))))
  {
    hide Bodies, ValueTable, KeyTable, LittleEndian, Ranged, Concat;
    var w, names, bodies := Width(d.large), Concat(d.keys), Bodies(d.elements, d.large);
    var a, b := LittleEndian(|d.keys|, w), LittleEndian(ObjectHeader(d) + |names| + |bodies|, w);
    var keyTable := KeyTable(d.keys, d.large, ObjectHeader(d));
    var table := ValueTable(d.elements, d.large, ObjectHeader(d) + |names|);
    assert Body(d) == a + b + (keyTable + (table + (names + bodies)));
    assert a + b + (keyTable + (table + (names + bodies))) + rest
        == a + b + (keyTable + (table + (names + (bodies + rest))));
  }

  lemma ReadObjectFrom(length: int, large: bool, s: Bytes, n: nat, size: nat, s1: Bytes, lengths: seq<nat>, s2: Bytes,
                       entries: seq<Entry>, s3: Bytes)
    requires ReadHeader(large, s) == Ok((n, size), s1) && size <= length
    requires ReadKeyLengths(n, large, s1) == Ok(lengths, s2)
    requires ReadEntries(n, large, s2) == Ok(entries, s3)
    ensures ReadObject(length, large, s)
         == match ReadKeys(lengths, s3)
            case Error => Error
            case Ok(keys, s4) =>
              match ReadValues(entries, length, s4)
              case Error => Error
              case Ok(values, s5) => Ok(JObject(FillDict(keys, values, [])), s5)
  {
  }

  // Up to the keys, which start at tail.
  lemma ObjectReads(keys: seq<Bytes>, ds: seq<Doc>, large: bool, size: nat, header: nat, length: int,
                    s: Bytes, s1: Bytes, s2: Bytes, tail: Bytes)
    requires AllRanged(ds) && NoneMisread(ds, large) && |ds| < Pow256(Width(large)) && size < Pow256(Width(large))
    requires |keys| == |ds| && forall k :: k in keys ==> |k| < Pow256(2)
    requires s == LittleEndian(|ds|, Width(large)) + LittleEndian(size, Width(large)) + s1
    requires s1 == KeyTable(keys, large, header) + s2
    requires s2 == ValueTable(ds, large, header + |Concat(keys)|) + tail && size <= length
    ensures ReadObject(length, large, s)
         == match ReadKeys(Lengths(keys), tail)
            case Error => Error
            case Ok(names, s4) =>
              match ReadValues(EntriesOf(ds, large), length, s4)
              case Error => Error
              case Ok(values, s5) => Ok(JObject(FillDict(names, values, [])), s5)
  {
    hide ReadObject, ReadHeader, ReadEntries, ReadValues, ReadKeyLengths, ReadKeys, FillDict, Lengths, Concat, KeyTable,
         ValueTable, EntriesOf, LittleEndian, Pow256, AllRanged;
    HeaderRoundTrip(|ds|, size, large, s1);
    KeyTableRoundTrip(keys, large, header, s2);
    TableRoundTrip(ds, large, header + |Concat(keys)|, tail);
    ReadObjectFrom(length, large, s, |ds|, size, s1, Lengths(keys), s2, EntriesOf(ds, large), tail);
  }

  lemma {:induction false} ObjectRoundTrip(d: Doc, length: int, rest: Bytes)
    requires d.Obj? && Ranged(d) && AllRanged(d.elements) && AllReadable(d.elements) && NoneMisread(d.elements, d.large)
    requires |Body(d)| < Pow256(Width(d.large)) && |d.elements| < Pow256(Width(d.large)) && |Body(d)| < length
    requires |d.keys| == |d.elements| && Distinct(d.keys) && forall k :: k in d.keys ==> |k| < Pow256(2)
    ensures ReadValue(TypeOf(d), length, Body(d) + rest) == Ok(ValueOf(d), rest)
    decreases d, 0
  {
    hide WellFormed, Readable, ReadValue, TypeOf, ValueOf, Pow256, Body, ReadObject, ReadValues, ReadKeys, FillDict, Pairs,
         Lengths, Concat, KeyTable, ValueTable, Bodies, AllReadable, NoneMisread, AllRanged, Distinct, EntriesOf, ValuesOf,
         LittleEndian, Ranged, ObjectHeader;
    ElementsWithin(d, length);
    ObjectParts(d, rest);
    ReadContainer(d, length, Body(d) + rest);
    var large, keys, ds, header := d.large, d.keys, d.elements, ObjectHeader(d);
    var bodies := Bodies(ds, large) + rest;
    var tail := Concat(keys) + bodies;
    var s2 := ValueTable(ds, large, header + |Concat(keys)|) + tail;
    ObjectReads(keys, ds, large, |Body(d)|, header, length - 1, Body(d) + rest, KeyTable(keys, large, header) + s2, s2, tail);
    KeysRoundTrip(keys, bodies);
    BodiesRoundTrip(ds, large, length - 1, rest);
    FillDictFromNothing(keys, ValuesOf(ds));
  }

  lemma FillDictFromNothing(keys: seq<Bytes>, values: seq<Json>)
    requires |keys| == |values| && Distinct(keys)
    ensures FillDict(keys, values, []) == Pairs(keys, values)
  {
    FillDictDistinct(keys, values, []);
    assert [] + Pairs(keys, values) == Pairs(keys, values);
  }

  // ---- a whole column value ----

  // read_binary_json: a length of `size` bytes and a payload, which is put back; then a type and a body.
  function ReadJson(size: nat, c: Cursor): Step<Json> {
    match On(c, UIntBySize(c.rest, size))
    case Failed => Failed
    case Done(length, c1) =>
      match On(c1, Take(c1.rest, length))
      case Failed => Failed
      case Done(payload, c2) =>
        if c2.waiting > |c2.rest| then Failed
        else
          var c3 := PutBack(c2, payload);
          On(c3, ReadTyped(length, c3.rest))
  }

  function ReadTyped(length: nat, s: Bytes): Parsed<Json> {
    if s == [] then Error else ReadValue(s[0], length, s[1..])
  }

  ghost function Payload(d: Doc): (bs: Bytes)
    requires Ranged(d)
    ensures |bs| == 1 + |Body(d)|
  {
    [TypeOf(d)] + Body(d)
  }

  ghost function JsonColumn(d: Doc, size: nat): Bytes
    requires Ranged(d)
  {
    LittleEndian(|Payload(d)|, size) + Payload(d)
  }

  lemma PayloadRoundTrip(d: Doc, rest: Bytes)
    requires WellFormed(d) && Readable(d)
    ensures ReadTyped(|Payload(d)|, Payload(d) + rest) == Ok(ValueOf(d), rest)
  {
    assert Ranged(d);
    hide Body, ReadValue, WellFormed, Readable, TypeOf, ValueOf, Ranged;
    assert (Payload(d) + rest)[1..] == Body(d) + rest;
    DocumentRoundTrip(d, |Payload(d)|, rest);
  }

  lemma JsonColumnRoundTrip(d: Doc, size: nat, rest: Bytes)
    requires WellFormed(d) && Readable(d) && 1 <= size <= 8 && 1 + |Body(d)| < Pow256(size)
    ensures ReadJson(size, Cursor(JsonColumn(d, size) + rest, 0)) == Done(ValueOf(d), Cursor(rest, 0))
  {
    PayloadRoundTrip(d, rest);
    hide Body, Payload, ReadTyped, ReadJson, WellFormed, Readable, LittleEndian, Pow256, ValueOf, TypeOf;
    ReadJsonOf(size, Payload(d), ValueOf(d), JsonColumn(d, size) + rest, rest);
  }

  lemma ReadJsonOf(size: nat, payload: Bytes, v: Json, s: Bytes, rest: Bytes)
    requires 1 <= size <= 8 && |payload| < Pow256(size) && s == LittleEndian(|payload|, size) + payload + rest
    requires ReadTyped(|payload|, payload + rest) == Ok(v, rest)
    ensures ReadJson(size, Cursor(s, 0)) == Done(v, Cursor(rest, 0))
  {
    hide ReadTyped, ReadJson, UInt, LittleEndian, Pow256;
    assert s == LittleEndian(|payload|, size) + (payload + rest);
    UIntRoundTrip(|payload|, size, payload + rest);
    ReadJsonFrom(size, s, payload, rest);
  }

  lemma ReadJsonFrom(size: nat, s: Bytes, payload: Bytes, rest: Bytes)
    requires UIntBySize(s, size) == Ok(|payload|, payload + rest) && |s| == size + |payload + rest| && 1 <= size <= 8
    ensures ReadJson(size, Cursor(s, 0))
         == On(Cursor(payload + rest, |payload|), ReadTyped(|payload|, payload + rest))
  {
    hide UIntBySize, ReadTyped;
    TakeFront(payload, rest);
    assert PutBack(Cursor(rest, 0), payload).rest == payload + rest;
  }

  // ---- where the reader fails ----

  // A large container whose elements all stand in its value table.
  ghost predicate FlatLarge(d: Doc) {
    WellFormed(d) && IsContainer(d) && d.large && forall e :: e in d.elements ==> Inlined(e, true)
  }

  // Such a document is read back, with exactly its bytes taken, if and only if it holds no 32-bit
  // integer: otherwise the reader raises or runs past its end.
  lemma FlatLargeReadIff(d: Doc, rest: Bytes)
    requires FlatLarge(d)
    ensures ReadValue(TypeOf(d), 1 + |Body(d)|, Body(d) + rest) == Ok(ValueOf(d), rest)
       <==> NoneMisread(d.elements, true)
  {
    FlatFacts(d);
    hide FlatLarge, WellFormed, Readable, Body, ReadValue, ValueOf, TypeOf, Ranged, NoneMisread;
    if NoneMisread(d.elements, true) {
      FlatRead(d, rest);
    } else {
      FlatMisread(d, rest);
    }
  }

  lemma FlatRead(d: Doc, rest: Bytes)
    requires FlatLarge(d) && NoneMisread(d.elements, true)
    ensures ReadValue(TypeOf(d), 1 + |Body(d)|, Body(d) + rest) == Ok(ValueOf(d), rest)
  {
    hide FlatLarge, WellFormed, Ranged, AllRanged, Readable, Body, Bodies, ReadValue, ValueOf, TypeOf, NoneMisread, Pow256;
    FlatReadable(d);
    FlatFacts(d);
    DocumentRoundTrip(d, 1 + |Body(d)|, rest);
  }

  lemma FlatReadable(d: Doc)
    requires FlatLarge(d) && NoneMisread(d.elements, true)
    ensures Readable(d)
  {
    forall e | e in d.elements
      ensures Readable(e)
    {
    }
  }

  lemma FlatMisread(d: Doc, rest: Bytes)
    requires FlatLarge(d) && !NoneMisread(d.elements, true)
    ensures var r := ReadValue(TypeOf(d), 1 + |Body(d)|, Body(d) + rest); r.Ok? ==> |r.rest| < |rest|
  {
    hide FlatLarge, ReadValue, TypeOf, ValueOf, ReadArray, ReadObject, Body, Bodies, WellFormed, Ranged, AllRanged, NoneMisread,
         Pow256;
    FlatFacts(d);
    ReadContainer(d, 1 + |Body(d)|, Body(d) + rest);
    if d.Arr? {
      FlatArrayMisread(d, rest);
    } else {
      FlatObjectMisread(d, rest);
    }
  }

  lemma FlatArrayMisread(d: Doc, rest: Bytes)
    requires d.Arr? && d.large && Ranged(d) && AllRanged(d.elements) && Bodies(d.elements, true) == []
    requires |Body(d)| < Pow256(4) && |d.elements| < Pow256(4) && !NoneMisread(d.elements, true)
    ensures var r := ReadArray(|Body(d)|, true, Body(d) + rest); r.Ok? ==> |r.rest| < |rest|
  {
    hide Pow256, TypeOf, ValueOf, Body, ReadArray, ValueTable, Bodies, NoneMisread, AllRanged, LittleEndian, Ranged,
         ArrayHeader;
    ArrayParts(d, rest);
    var ds, header := d.elements, ArrayHeader(d);
    assert Bodies(ds, true) + rest == rest;
    ArrayMisreads(ds, |Body(d)|, header, Body(d) + rest, ValueTable(ds, true, header) + rest, rest);
  }

  lemma ArrayMisreads(ds: seq<Doc>, size: nat, header: nat, s: Bytes, s1: Bytes, tail: Bytes)
    requires AllRanged(ds) && !NoneMisread(ds, true) && |ds| < Pow256(4) && size < Pow256(4)
    requires s == LittleEndian(|ds|, 4) + LittleEndian(size, 4) + s1
    requires s1 == ValueTable(ds, true, header) + tail
    ensures var r := ReadArray(size, true, s); r.Ok? ==> |r.rest| < |tail|
  {
    hide ReadArray, ReadHeader, ReadEntries, ReadValues, ValueTable, LittleEndian, Pow256, AllRanged, NoneMisread;
    HeaderRoundTrip(|ds|, size, true, s1);
    TableRoundTrip(ds, true, header, tail);
    var r := ReadEntries(|ds|, true, s1);
    if r.Ok? {
      ReadArrayFrom(size, true, s, |ds|, size, s1, r.value, r.rest);
    } else {
      ReadArrayFails(size, true, s, |ds|, size, s1);
    }
  }

  lemma FlatObjectMisread(d: Doc, rest: Bytes)
    requires d.Obj? && d.large && Ranged(d) && AllRanged(d.elements) && Bodies(d.elements, true) == []
    requires |Body(d)| < Pow256(4) && |d.elements| < Pow256(4) && !NoneMisread(d.elements, true)
    requires |d.keys| == |d.elements| && forall k :: k in d.keys ==> |k| < Pow256(2)
    ensures var r := ReadObject(|Body(d)|, true, Body(d) + rest); r.Ok? ==> |r.rest| < |rest|
  {
    hide Pow256, TypeOf, ValueOf, Body, ReadObject, Concat, KeyTable, ValueTable, Bodies, NoneMisread, AllRanged,
         LittleEndian, Ranged, ObjectHeader;
    ObjectParts(d, rest);
    var ds, names, header := d.elements, Concat(d.keys), ObjectHeader(d);
    assert Bodies(ds, true) + rest == rest;
    var tail := names + rest;
    var s2 := ValueTable(ds, true, header + |names|) + tail;
    ObjectMisreads(d.keys, ds, |Body(d)|, header, Body(d) + rest, KeyTable(d.keys, true, header) + s2, s2, tail);
  }

  lemma ObjectMisreads(keys: seq<Bytes>, ds: seq<Doc>, size: nat, header: nat, s: Bytes, s1: Bytes, s2: Bytes, tail: Bytes)
    requires AllRanged(ds) && !NoneMisread(ds, true) && |ds| < Pow256(4) && size < Pow256(4)
    requires |keys| == |ds| && forall k :: k in keys ==> |k| < Pow256(2)
    requires s == LittleEndian(|ds|, 4) + LittleEndian(size, 4) + s1
    requires s1 == KeyTable(keys, true, header) + s2
    requires s2 == ValueTable(ds, true, header + |Concat(keys)|) + tail
    ensures var r := ReadObject(size, true, s); r.Ok? ==> |r.rest| + |Concat(keys)| < |tail|
  {
    hide ReadObject, ReadHeader, ReadEntries, ReadValues, ReadKeyLengths, ReadKeys, FillDict, Lengths, Concat, KeyTable,
         ValueTable, LittleEndian, Pow256, AllRanged, NoneMisread;
    HeaderRoundTrip(|ds|, size, true, s1);
    KeyTableRoundTrip(keys, true, header, s2);
    TableRoundTrip(ds, true, header + |Concat(keys)|, tail);
    var r := ReadEntries(|ds|, true, s2);
    if r.Ok? {
      ReadObjectFrom(size, true, s, |ds|, size, s1, Lengths(keys), s2, r.value, r.rest);
      KeysTake(keys, r.rest);
    } else {
      ReadObjectFails(size, true, s, |ds|, size, s1, Lengths(keys), s2);
    }
  }

  lemma FlatFacts(d: Doc)
    requires FlatLarge(d)
    ensures WellFormed(d) && IsContainer(d) && d.large && Ranged(d) && AllRanged(d.elements) && Bodies(d.elements, true) == []
    ensures |Body(d)| < Pow256(4) && |d.elements| < Pow256(4)
    ensures d.Obj? ==> |d.keys| == |d.elements| && forall k :: k in d.keys ==> |k| < Pow256(2)
  {
    NoBodies(d.elements);
  }

  lemma {:induction false} NoBodies(ds: seq<Doc>)
    requires AllRanged(ds) && forall e :: e in ds ==> Inlined(e, true)
    ensures Bodies(ds, true) == []
    decreases |ds|
  {
    if ds != [] {
      assert ds[0] in ds && forall e :: e in ds[1..] ==> e in ds;
      NoBodies(ds[1..]);
    }
  }

  lemma ReadArrayFails(length: int, large: bool, s: Bytes, n: nat, size: nat, s1: Bytes)
    requires ReadHeader(large, s) == Ok((n, size), s1) && ReadEntries(n, large, s1) == Error
    ensures ReadArray(length, large, s) == Error
  {
  }

  lemma ReadObjectFails(length: int, large: bool, s: Bytes, n: nat, size: nat, s1: Bytes, lengths: seq<nat>, s2: Bytes)
    requires ReadHeader(large, s) == Ok((n, size), s1)
    requires ReadKeyLengths(n, large, s1) == Ok(lengths, s2) && ReadEntries(n, large, s2) == Error
    ensures ReadObject(length, large, s) == Error
  {
  }

  // The array [70000] in large form, at the end of a packet: the reader raises.
  lemma LargeArrayOf70000()
    ensures ReadJson(1, Cursor([14, 3, 1, 0, 0, 0, 13, 0, 0, 0, 7, 112, 17, 1, 0], 0)) == Failed
  {
    hide ReadTyped, FromLittleEndian, LittleEndian;
    var payload: Bytes := [3, 1, 0, 0, 0, 13, 0, 0, 0, 7, 112, 17, 1, 0];
    var s: Bytes := [14] + payload;
    FirstByte(s);
    assert s[1..] == payload && payload + [] == payload;
    PayloadOf70000(payload);
    ReadJsonFrom(1, s, payload, []);
    assert s == [14, 3, 1, 0, 0, 0, 13, 0, 0, 0, 7, 112, 17, 1, 0];
  }

  lemma PayloadOf70000(payload: Bytes)
    requires payload == [3, 1, 0, 0, 0, 13, 0, 0, 0, 7, 112, 17, 1, 0]
    ensures ReadTyped(14, payload) == Error
  {
    var body: Bytes := [1, 0, 0, 0, 13, 0, 0, 0, 7, 112, 17, 1, 0];
    var table: Bytes := [7, 112, 17, 1, 0];
    hide ReadHeader, ReadEntries, ReadArray, ReadObject, ReadString, UInt, FromLittleEndian, LittleEndian;
    assert payload[1..] == body;
    HeaderOf70000(body, table);
    TableOf70000(table);
    ReadArrayFails(13, true, body, 1, 13, table);
  }

  lemma FirstByte(s: Bytes)
    requires s != []
    ensures UInt(s, 1) == Ok(s[0], s[1..])
  {
    assert s[..1] == [s[0]];
    OneByte(s[0]);
  }

  lemma HeaderOf70000(body: Bytes, table: Bytes)
    requires body == [1, 0, 0, 0, 13, 0, 0, 0] + table
    ensures ReadHeader(true, body) == Ok((1, 13), table)
  {
    assert LittleEndian(1, 4) == [1, 0, 0, 0] && LittleEndian(13, 4) == [13, 0, 0, 0];
    assert body == LittleEndian(1, 4) + LittleEndian(13, 4) + table;
    HeaderRoundTrip(1, 13, true, table);
  }

  lemma TableOf70000(table: Bytes)
    requires table == [7, 112, 17, 1, 0]
    ensures ReadEntries(1, true, table) == Error
  {
    assert |table[1..]| == 4;
    assert Int(table[1..], 8) == Error;
    assert ReadEntry(true, table) == Error;
  }
}
