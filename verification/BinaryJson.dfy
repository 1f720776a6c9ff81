// Binary JSON: the server's serialiser, and the reader that ignores every offset in it.
module BinaryJson {
  import opened Binary
  import opened Readers
  import opened BinLogPacket

  datatype Json =
    | JNull
    | JBool(b: bool)
    | JInt(n: int)
    | JDouble(bits: Bytes)
    | JString(s: Bytes)
    | JArray(elements: seq<Json>)
    | JObject(members: seq<(Bytes, Json)>)  // a dict, in insertion order

  // out[key] := value
  function DictSet(out: seq<(Bytes, Json)>, key: Bytes, value: Json): seq<(Bytes, Json)> {
    if out == [] then [(key, value)]
    else if out[0].0 == key then [(key, value)] + out[1..]
    else [out[0]] + DictSet(out[1..], key, value)
  }

  // As in any dict, a key that is there keeps its place and gets the new value, and a new one comes last.
  lemma {:induction false} DictSetPlaces(out: seq<(Bytes, Json)>, key: Bytes, value: Json, i: nat)
    requires i <= |out| && (forall j :: 0 <= j < i ==> out[j].0 != key) && (i == |out| || out[i].0 == key)
    ensures DictSet(out, key, value) == if i < |out| then out[i := (key, value)] else out + [(key, value)]
    decreases |out|
  {
    if i > 0 {
      DictSetPlaces(out[1..], key, value, i - 1);
      assert out == [out[0]] + out[1..];
    } else if out != [] {
      assert out == [out[0]] + out[1..];
    }
  }

  // ---- the server's side ----

  // A document with the storage types the server chose; elements are an object's member values.
  datatype Doc =
    | Literal(code: Byte)
    | I16(n: int)
    | U16(n: int)
    | I32(n: int)
    | U32(n: int)
    | I64(n: int)
    | U64(n: int)
    | Double(bits: Bytes)
    | Str(s: Bytes)
    | Arr(large: bool, elements: seq<Doc>)
    | Obj(large: bool, keys: seq<Bytes>, elements: seq<Doc>)

  predicate IsContainer(d: Doc) {
    d.Arr? || d.Obj?
  }

  function TypeOf(d: Doc): Byte {
    match d
    case Obj(large, _, _) => if large then 1 else 0
    case Arr(large, _) => if large then 3 else 2
    case Literal(_) => 4
    case I16(_) => 5
    case U16(_) => 6
    case I32(_) => 7
    case U32(_) => 8
    case I64(_) => 9
    case U64(_) => 10
    case Double(_) => 11
    case Str(_) => 12
  }

  // Every number fits its storage type.
  ghost predicate Ranged(d: Doc) {
    match d
    case Literal(code) => code <= 2
    case I16(n) => FitsSigned(n, 2)
    case U16(n) => 0 <= n < Pow256(2)
    case I32(n) => FitsSigned(n, 4)
    case U32(n) => 0 <= n < Pow256(4)
    case I64(n) => FitsSigned(n, 8)
    case U64(n) => 0 <= n < Pow256(8)
    case Double(bits) => |bits| == 8
    case Str(_) => true
    case Arr(_, elements) => forall e :: e in elements ==> Ranged(e)
    case Obj(_, keys, elements) => |keys| == |elements| && forall e :: e in elements ==> Ranged(e)
  }

  function Width(large: bool): nat {
    if large then 4 else 2
  }

  // Values that stand in the value table itself instead of behind an offset.
  predicate Inlined(d: Doc, large: bool) {
    d.Literal? || d.I16? || d.U16? || (large && (d.I32? || d.U32?))
  }

  ghost function InlineBytes(d: Doc, large: bool): (bs: Bytes)
    requires Ranged(d) && Inlined(d, large)
    ensures |bs| == Width(large)
  {
    match d
    case Literal(code) => LittleEndian(code, Width(large))
    case I16(n) => LittleEndian(Unsigned(n, Width(large)), Width(large))
    case U16(n) => LittleEndian(n, Width(large))
    case I32(n) => LittleEndian(Unsigned(n, 4), 4)
    case U32(n) => LittleEndian(n, 4)
  }

  // A length in groups of seven bits, least significant first.
  function VariableLength(n: nat): Bytes {
    if n < 128 then [n] else [n % 128 + 128] + VariableLength(n / 128)
  }

  function Concat(parts: seq<Bytes>): Bytes {
    if parts == [] then [] else parts[0] + Concat(parts[1..])
  }

  ghost predicate AllRanged(ds: seq<Doc>) {
    forall d :: d in ds ==> Ranged(d)
  }

  // What follows the type byte of a document that is not inlined.
  ghost function Body(d: Doc): Bytes
    requires Ranged(d)
    decreases d, 2
  {
    match d
    case Literal(code) => [code]
    case I16(n) => LittleEndian(Unsigned(n, 2), 2)
    case U16(n) => LittleEndian(n, 2)
    case I32(n) => LittleEndian(Unsigned(n, 4), 4)
    case U32(n) => LittleEndian(n, 4)
    case I64(n) => LittleEndian(Unsigned(n, 8), 8)
    case U64(n) => LittleEndian(n, 8)
    case Double(bits) => bits
    case Str(s) => VariableLength(|s|) + s
    case Arr(large, elements) =>
      var w := Width(large);
      var header := 2 * w + EntriesSize(|elements|, large);
      var bodies := Bodies(elements, large);
      LittleEndian(|elements|, w) + LittleEndian(header + |bodies|, w)
      + (ValueTable(elements, large, header) + bodies)
    case Obj(large, keys, elements) =>
      var w := Width(large);
      var header := 2 * w + KeysSize(|keys|, large) + EntriesSize(|keys|, large);
      var names, bodies := Concat(keys), Bodies(elements, large);
      LittleEndian(|keys|, w) + LittleEndian(header + |names| + |bodies|, w)
      + (KeyTable(keys, large, header) + (ValueTable(elements, large, header + |names|) + (names + bodies)))
  }

  ghost function Bodies(ds: seq<Doc>, large: bool): Bytes
    requires AllRanged(ds)
    decreases ds, 1
  {
    if ds == [] then []
    else
      assert forall d :: d in ds[1..] ==> d in ds;
      (if Inlined(ds[0], large) then [] else Body(ds[0])) + Bodies(ds[1..], large)
  }

  // A type byte and a field of the container's width per value.
  function EntriesSize(n: nat, large: bool): nat {
    if large then 5 * n else 3 * n
  }

  // A field of the container's width and a length of two bytes per key.
  function KeysSize(n: nat, large: bool): nat {
    if large then 6 * n else 4 * n
  }

  // One entry per value: its type, then the value itself or the offset of its body.
  ghost function ValueTable(ds: seq<Doc>, large: bool, offset: nat): (bs: Bytes)
    requires AllRanged(ds)
    ensures |bs| == EntriesSize(|ds|, large)
    decreases ds, 1
  {
    if ds == [] then []
    else
      assert forall d :: d in ds[1..] ==> d in ds;
      assert |ds[1..]| == |ds| - 1;
      if Inlined(ds[0], large) then [TypeOf(ds[0])] + InlineBytes(ds[0], large) + ValueTable(ds[1..], large, offset)
      else [TypeOf(ds[0])] + LittleEndian(offset, Width(large)) + ValueTable(ds[1..], large, offset + |Body(ds[0])|)
  }

  ghost function KeyTable(keys: seq<Bytes>, large: bool, offset: nat): (bs: Bytes)
    ensures |bs| == KeysSize(|keys|, large)
  {
    if keys == [] then []
    else LittleEndian(offset, Width(large)) + LittleEndian(|keys[0]|, 2) + KeyTable(keys[1..], large, offset + |keys[0]|)
  }

  ghost predicate Distinct(keys: seq<Bytes>) {
    forall i, j :: 0 <= i < j < |keys| ==> keys[i] != keys[j]
  }

  // What the server can store: sizes fit their fields and keys are distinct.
  ghost predicate WellFormed(d: Doc)
  {
    && Ranged(d)
    && (IsContainer(d) ==>
          && |Body(d)| < Pow256(Width(d.large)) && |d.elements| < Pow256(Width(d.large))
          && forall e :: e in d.elements ==> WellFormed(e))
    && (d.Obj? ==> Distinct(d.keys) && forall k :: k in d.keys ==> |k| < Pow256(2))
  }

  // The value a document denotes.
  ghost function ValueOf(d: Doc): Json {
    match d
    case Literal(code) => if code == 0 then JNull else JBool(code == 1)
    case Double(bits) => JDouble(bits)
    case Str(s) => JString(s)
    case Arr(_, elements) => JArray(ValuesOf(elements))
    case Obj(_, keys, elements) => JObject(Pairs(keys, ValuesOf(elements)))
    case _ => JInt(d.n)
  }

  ghost function ValuesOf(ds: seq<Doc>): (vs: seq<Json>)
    ensures |vs| == |ds|
  {
    if ds == [] then [] else [ValueOf(ds[0])] + ValuesOf(ds[1..])
  }

  ghost function Pairs(keys: seq<Bytes>, values: seq<Json>): seq<(Bytes, Json)> {
    if keys == [] || values == [] then [] else [(keys[0], values[0])] + Pairs(keys[1..], values[1..])
  }

  // ---- the reader ----

  function LiteralValue(code: int): Option<Json> {
    if code == 0 then Some(JNull)
    else if code == 1 then Some(JBool(true))
    else if code == 2 then Some(JBool(false))
    else None
  }

  function AsLiteral(r: Parsed<nat>): Parsed<Json> {
    match r
    case Error => Error
    case Ok(code, rest) =>
      match LiteralValue(code)
      case None => Error
      case Some(v) => Ok(v, rest)
  }

  function AsInt(r: Parsed<int>): Parsed<Json> {
    match r
    case Error => Error
    case Ok(n, rest) => Ok(JInt(n), rest)
  }

  function ReadLength(s: Bytes): Parsed<nat> {
    if s == [] then Error
    else if s[0] < 128 then Ok(s[0], s[1..])
    else match ReadLength(s[1..])
         case Error => Error
         case Ok(n, rest) => Ok(s[0] - 128 + 128 * n, rest)
  }

  function ReadString(s: Bytes): Parsed<Json> {
    match ReadLength(s)
    case Error => Error
    case Ok(n, rest) =>
      match Take(rest, n)
      case Error => Error
      case Ok(bytes, rest') => Ok(JString(bytes), rest')
  }

  datatype Entry = Inline(value: Json) | Later(t: Byte)

  // read_binary_json_type_inlined; a 32-bit integer in a large container is read from eight bytes.
  function ReadInlined(t: Byte, large: bool, s: Bytes): Parsed<Json> {
    match t
    case 4 => AsLiteral(UInt(s, Width(large)))
    case 5 => AsInt(Int(s, Width(large)))
    case 6 => AsInt(UInt(s, Width(large)))
    case 7 => AsInt(Int(s, if large then 8 else 4))
    case 8 => AsInt(UInt(s, if large then 8 else 4))
    case _ => Error
  }

  // read_offset_or_inline
  function ReadEntry(large: bool, s: Bytes): Parsed<Entry> {
    if s == [] then Error
    else
      var t, s' := s[0], s[1..];
      if t == 4 || t == 5 || t == 6 || (large && (t == 7 || t == 8)) then
        match ReadInlined(t, large, s')
        case Error => Error
        case Ok(v, rest) => Ok(Inline(v), rest)
      else
        match UInt(s', Width(large))
        case Error => Error
        case Ok(_, rest) => Ok(Later(t), rest)
  }

  function ReadEntries(n: nat, large: bool, s: Bytes): Parsed<seq<Entry>> {
    if n == 0 then Ok([], s)
    else
      match ReadEntry(large, s)
      case Error => Error
      case Ok(e, rest) =>
        match ReadEntries(n - 1, large, rest)
        case Error => Error
        case Ok(es, rest') => Ok([e] + es, rest')
  }

  // The lengths of the keys; the offsets are read and dropped.
  function ReadKeyLengths(n: nat, large: bool, s: Bytes): Parsed<seq<nat>> {
    if n == 0 then Ok([], s)
    else
      match UInt(s, Width(large))
      case Error => Error
      case Ok(_, rest) =>
        match UInt(rest, 2)
        case Error => Error
        case Ok(len, rest') =>
          match ReadKeyLengths(n - 1, large, rest')
          case Error => Error
          case Ok(lens, rest'') => Ok([len] + lens, rest'')
  }

  function ReadKeys(lengths: seq<nat>, s: Bytes): Parsed<seq<Bytes>> {
    if lengths == [] then Ok([], s)
    else
      match Take(s, lengths[0])
      case Error => Error
      case Ok(key, rest) =>
        match ReadKeys(lengths[1..], rest)
        case Error => Error
        case Ok(keys, rest') => Ok([key] + keys, rest')
  }

  function FillDict(keys: seq<Bytes>, values: seq<Json>, out: seq<(Bytes, Json)>): seq<(Bytes, Json)> {
    if keys == [] || values == [] then out else FillDict(keys[1..], values[1..], DictSet(out, keys[0], values[0]))
  }

  // Reading never gets longer: the measure of the recursion below.
  lemma EntriesShrink(n: nat, large: bool, s: Bytes)
    ensures var r := ReadEntries(n, large, s); r.Ok? ==> |r.rest| <= |s|
  {
  }

  lemma KeyLengthsShrink(n: nat, large: bool, s: Bytes)
    ensures var r := ReadKeyLengths(n, large, s); r.Ok? ==> |r.rest| <= |s|
    decreases n
  {
    if n > 0 {
      var a := UInt(s, Width(large));
      if a.Ok? {
        var b := UInt(a.rest, 2);
        if b.Ok? {
          KeyLengthsShrink(n - 1, large, b.rest);
        }
      }
    }
  }

  lemma KeysShrink(lengths: seq<nat>, s: Bytes)
    ensures var r := ReadKeys(lengths, s); r.Ok? ==> |r.rest| <= |s|
    decreases |lengths|
  {
    if lengths != [] && Take(s, lengths[0]).Ok? {
      KeysShrink(lengths[1..], Take(s, lengths[0]).rest);
    }
  }

  lemma LengthShrinks(s: Bytes)
    ensures var r := ReadLength(s); r.Ok? ==> |r.rest| <= |s|
  {
  }

  // read_binary_json_type
  function ReadValue(t: Byte, length: int, s: Bytes): (r: Parsed<Json>)
    ensures r.Ok? ==> |r.rest| <= |s|
    decreases |s|, 2, 0
  {
    match t
    case 0 => ReadObject(length - 1, false, s)
    case 1 => ReadObject(length - 1, true, s)
    case 2 => ReadArray(length - 1, false, s)
    case 3 => ReadArray(length - 1, true, s)
    case 4 => AsLiteral(UInt(s, 1))
    case 5 => AsInt(Int(s, 2))
    case 6 => AsInt(UInt(s, 2))
    case 7 => AsInt(Int(s, 4))
    case 8 => AsInt(UInt(s, 4))
    case 9 => AsInt(Int(s, 8))
    case 10 => AsInt(UInt(s, 8))
    case 11 =>
      (match Take(s, 8)
       case Error => Error
       case Ok(bits, rest) => Ok(JDouble(bits), rest))
    case 12 => LengthShrinks(s); ReadString(s)
    case _ => Error
  }

  // Element count and size, in that order.
  function ReadHeader(large: bool, s: Bytes): (r: Parsed<(nat, nat)>)
    ensures r.Ok? ==> |r.rest| + 2 * Width(large) == |s|
  {
    match UInt(s, Width(large))
    case Error => Error
    case Ok(n, rest) =>
      match UInt(rest, Width(large))
      case Error => Error
      case Ok(size, rest') => Ok((n, size), rest')
  }

  function ReadArray(length: int, large: bool, s: Bytes): (r: Parsed<Json>)
    ensures r.Ok? ==> |r.rest| <= |s|
    decreases |s|, 1, 0
  {
    match ReadHeader(large, s)
    case Error => Error
    case Ok((n, size), rest) =>
      if size > length then Error
      else
        EntriesShrink(n, large, rest);
        match ReadEntries(n, large, rest)
        case Error => Error
        case Ok(entries, rest1) =>
          match ReadValues(entries, length, rest1)
          case Error => Error
          case Ok(values, rest2) => Ok(JArray(values), rest2)
  }

  function ReadObject(length: int, large: bool, s: Bytes): (r: Parsed<Json>)
    ensures r.Ok? ==> |r.rest| <= |s|
    decreases |s|, 1, 0
  {
    match ReadHeader(large, s)
    case Error => Error
    case Ok((n, size), rest) =>
      if size > length then Error
      else
        KeyLengthsShrink(n, large, rest);
        match ReadKeyLengths(n, large, rest)
        case Error => Error
        case Ok(lengths, rest1) =>
          EntriesShrink(n, large, rest1);
          match ReadEntries(n, large, rest1)
          case Error => Error
          case Ok(entries, rest2) =>
            KeysShrink(lengths, rest2);
            match ReadKeys(lengths, rest2)
            case Error => Error
            case Ok(keys, rest3) =>
              match ReadValues(entries, length, rest3)
              case Error => Error
              case Ok(values, rest4) => Ok(JObject(FillDict(keys, values, [])), rest4)
  }

  function ReadValues(entries: seq<Entry>, length: int, s: Bytes): (r: Parsed<seq<Json>>)
    ensures r.Ok? ==> |r.rest| <= |s|
    decreases |s|, 3, |entries|
  {
    if entries == [] then Ok([], s)
    else
      match ReadOne(entries[0], length, s)
      case Error => Error
      case Ok(v, rest) =>
        match ReadValues(entries[1..], length, rest)
        case Error => Error
        case Ok(vs, rest') => Ok([v] + vs, rest')
  }

  function ReadOne(entry: Entry, length: int, s: Bytes): (r: Parsed<Json>)
    ensures r.Ok? ==> |r.rest| <= |s|
    decreases |s|, 2, 1
  {
    match entry
    case Inline(v) => Ok(v, s)
    case Later(t) => ReadValue(t, length, s)
  }
}
