// read_binary_json and the methods under it, moving one packet cursor.
module BinaryJsonReader {
  import opened Binary
  import opened Readers
  import opened BinLogPacket
  import opened BinaryJson
  import opened BinaryJsonProofs
  import opened BinaryJsonMisread

  // What a list comprehension yields when `done` is already built and the rest reads as r.
  function After<T>(done: seq<T>, r: Parsed<seq<T>>): Parsed<seq<T>> {
    match r
    case Error => Error
    case Ok(more, rest) => Ok(done + more, rest)
  }

  lemma AfterNothing<T>(r: Parsed<seq<T>>)
    ensures After([], r) == r
  {
    if r.Ok? {
      assert [] + r.value == r.value;
    }
  }

  lemma AfterAll<T>(done: seq<T>, rest: Bytes)
    ensures After(done, Ok([], rest)) == Ok(done, rest)
  {
    assert done + [] == done;
  }

  lemma AfterOneMore<T>(done: seq<T>, x: T, r: Parsed<seq<T>>)
    ensures After(done + [x], r) == After(done, After([x], r))
  {
    if r.Ok? {
      assert done + [x] + r.value == done + ([x] + r.value);
    }
  }

  function Scaled(length: nat, scale: nat, r: Parsed<nat>): Parsed<nat> {
    match r
    case Error => Error
    case Ok(n, rest) => Ok(length + scale * n, rest)
  }

  lemma ScaledStep(length: nat, scale: nat, b: nat, r: Parsed<nat>)
    ensures Scaled(length, scale, Scaled(b, 128, r)) == Scaled(length + b * scale, scale * 128, r)
  {
    if r.Ok? {
      assert scale * (b + 128 * r.value) == b * scale + scale * 128 * r.value;
    }
  }

  lemma FitsStep(length: nat, scale: nat, b: nat)
    requires length < scale && b < 128
    ensures length + b * scale < scale * 128
  {
    assert b * scale <= 127 * scale;
  }

  // The length's groups of seven bits; length stays below scale, so or-ing a group in is adding it.
  method ReadVariableLength(packet: Packet) returns (length: nat, ok: bool)
    requires packet.Valid()
    modifies packet
    ensures packet.Valid()
    ensures ok == ReadLength(old(packet.Remaining())).Ok?
    ensures ok ==> ReadLength(old(packet.Remaining())) == Ok(length, packet.Remaining())
    ensures ok ==> packet.Moved(old(packet.Remaining()), old(packet.readBytes), |old(packet.dataBuffer)|)
  {
    ghost var s := packet.Remaining();
    var byte: nat, scale: nat := 128, 1;
    length, ok := 0, true;
    while byte >= 128
      invariant packet.Valid() && packet.Moved(s, old(packet.readBytes), |old(packet.dataBuffer)|)
      invariant length < scale
      invariant byte >= 128 ==> ReadLength(s) == Scaled(length, scale, ReadLength(packet.Remaining()))
      invariant byte < 128 ==> ReadLength(s) == Ok(length, packet.Remaining())
      decreases byte >= 128, |packet.Remaining()|
    {
      ghost var before := packet.Remaining();
      byte, ok := packet.ReadUInt(1);
      if !ok {
        return;
      }
      FirstByte(before);
      ghost var r := ReadLength(packet.Remaining());
      assert ReadLength(before) == if byte < 128 then Ok(byte, packet.Remaining()) else Scaled(byte - 128, 128, r);
      ScaledStep(length, scale, byte % 128, r);
      FitsStep(length, scale, byte % 128);
      assert scale * byte == byte * scale;
      length, scale := length + byte % 128 * scale, scale * 128;
    }
  }

  // read_variable_length_string
  method ReadVariableLengthString(packet: Packet) returns (v: Json, ok: bool)
    requires packet.Valid()
    modifies packet
    ensures packet.Valid()
    ensures ok == ReadString(old(packet.Remaining())).Ok?
    ensures ok ==> ReadString(old(packet.Remaining())) == Ok(v, packet.Remaining())
    ensures ok ==> packet.Moved(old(packet.Remaining()), old(packet.readBytes), |old(packet.dataBuffer)|)
  {
    v := JNull;
    var length;
    length, ok := ReadVariableLength(packet);
    if ok {
      var bytes;
      bytes, ok := packet.Read(length);
      v := JString(bytes);
    }
  }

  // Checked as the source checks a literal: any other code ends in its ValueError.
  method LiteralOf(code: nat) returns (v: Json, ok: bool)
    ensures ok == LiteralValue(code).Some?
    ensures ok ==> LiteralValue(code) == Some(v)
  {
    v := if code == 0 then JNull else JBool(code == 1);
    ok := code <= 2;
  }

  method ReadTypeInlined(packet: Packet, t: Byte, large: bool) returns (v: Json, ok: bool)
    requires packet.Valid()
    modifies packet
    ensures packet.Valid()
    ensures ok == ReadInlined(t, large, old(packet.Remaining())).Ok?
    ensures ok ==> ReadInlined(t, large, old(packet.Remaining())) == Ok(v, packet.Remaining())
    ensures ok ==> packet.Moved(old(packet.Remaining()), old(packet.readBytes), |old(packet.dataBuffer)|)
  {
    v := JNull;
    if t == 4 {
      var code;
      code, ok := packet.ReadUInt(if large then 4 else 2);
      if ok {
        v, ok := LiteralOf(code);
      }
    } else if t == 5 || t == 7 {
      var n;
      n, ok := packet.ReadInt(if t == 5 then (if large then 4 else 2) else if large then 8 else 4);
      v := JInt(n);
    } else if t == 6 || t == 8 {
      var n;
      n, ok := packet.ReadUInt(if t == 6 then (if large then 4 else 2) else if large then 8 else 4);
      v := JInt(n);
    } else {
      ok := false;
    }
  }

  method ReadOffsetOrInline(packet: Packet, large: bool) returns (e: Entry, ok: bool)
    requires packet.Valid()
    modifies packet
    ensures packet.Valid()
    ensures ok == ReadEntry(large, old(packet.Remaining())).Ok?
    ensures ok ==> ReadEntry(large, old(packet.Remaining())) == Ok(e, packet.Remaining())
    ensures ok ==> packet.Moved(old(packet.Remaining()), old(packet.readBytes), |old(packet.dataBuffer)|)
  {
    hide ReadInlined;
    ghost var s := packet.Remaining();
    e := Inline(JNull);
    var t;
    t, ok := packet.ReadUInt(1);
    if !ok {
      return;
    }
    FirstByte(s);
    if t == 4 || t == 5 || t == 6 || (large && (t == 7 || t == 8)) {
      var v;
      v, ok := ReadTypeInlined(packet, t, large);
      e := Inline(v);
    } else {
      var offset;
      offset, ok := packet.ReadUInt(if large then 4 else 2);
      e := Later(t);
    }
  }

  method ReadContainerHeader(packet: Packet, large: bool) returns (elements: nat, size: nat, ok: bool)
    requires packet.Valid()
    modifies packet
    ensures packet.Valid()
    ensures ok == ReadHeader(large, old(packet.Remaining())).Ok?
    ensures ok ==> ReadHeader(large, old(packet.Remaining())) == Ok((elements, size), packet.Remaining())
    ensures ok ==> packet.Moved(old(packet.Remaining()), old(packet.readBytes), |old(packet.dataBuffer)|)
  {
    size := 0;
    elements, ok := packet.ReadUInt(Width(large));
    if ok {
      size, ok := packet.ReadUInt(Width(large));
    }
  }

  method ReadTable(packet: Packet, n: nat, large: bool) returns (entries: seq<Entry>, ok: bool)
    requires packet.Valid()
    modifies packet
    ensures packet.Valid()
    ensures ok == ReadEntries(n, large, old(packet.Remaining())).Ok?
    ensures ok ==> ReadEntries(n, large, old(packet.Remaining())) == Ok(entries, packet.Remaining())
    ensures ok ==> packet.Moved(old(packet.Remaining()), old(packet.readBytes), |old(packet.dataBuffer)|)
  {
    hide ReadEntry;
    ghost var s := packet.Remaining();
    entries, ok := [], true;
    AfterNothing(ReadEntries(n, large, s));
    for i := 0 to n
      invariant packet.Valid() && packet.Moved(s, old(packet.readBytes), |old(packet.dataBuffer)|)
      invariant ReadEntries(n, large, s) == After(entries, ReadEntries(n - i, large, packet.Remaining()))
    {
      var e;
      e, ok := ReadOffsetOrInline(packet, large);
      if !ok {
        return;
      }
      AfterOneMore(entries, e, ReadEntries(n - i - 1, large, packet.Remaining()));
      entries := entries + [e];
    }
    AfterAll(entries, packet.Remaining());
    ok := true;
  }

  method ReadKeyTable(packet: Packet, n: nat, large: bool) returns (lengths: seq<nat>, ok: bool)
    requires packet.Valid()
    modifies packet
    ensures packet.Valid()
    ensures ok == ReadKeyLengths(n, large, old(packet.Remaining())).Ok?
    ensures ok ==> ReadKeyLengths(n, large, old(packet.Remaining())) == Ok(lengths, packet.Remaining())
    ensures ok ==> packet.Moved(old(packet.Remaining()), old(packet.readBytes), |old(packet.dataBuffer)|)
  {
    hide UInt;
    ghost var s := packet.Remaining();
    lengths, ok := [], true;
    AfterNothing(ReadKeyLengths(n, large, s));
    for i := 0 to n
      invariant packet.Valid() && packet.Moved(s, old(packet.readBytes), |old(packet.dataBuffer)|)
      invariant ReadKeyLengths(n, large, s) == After(lengths, ReadKeyLengths(n - i, large, packet.Remaining()))
    {
      var offset, length;
      offset, ok := packet.ReadUInt(Width(large));
      if !ok {
        return;
      }
      length, ok := packet.ReadUInt(2);
      if !ok {
        return;
      }
      AfterOneMore(lengths, length, ReadKeyLengths(n - i - 1, large, packet.Remaining()));
      lengths := lengths + [length];
    }
    AfterAll(lengths, packet.Remaining());
    ok := true;
  }

  method ReadNames(packet: Packet, lengths: seq<nat>) returns (keys: seq<Bytes>, ok: bool)
    requires packet.Valid()
    modifies packet
    ensures packet.Valid()
    ensures ok == ReadKeys(lengths, old(packet.Remaining())).Ok?
    ensures ok ==> ReadKeys(lengths, old(packet.Remaining())) == Ok(keys, packet.Remaining())
    ensures ok ==> packet.Moved(old(packet.Remaining()), old(packet.readBytes), |old(packet.dataBuffer)|)
  {
    hide Take;
    ghost var s := packet.Remaining();
    keys, ok := [], true;
    AfterNothing(ReadKeys(lengths, s));
    assert lengths[0..] == lengths;
    for i := 0 to |lengths|
      invariant packet.Valid() && packet.Moved(s, old(packet.readBytes), |old(packet.dataBuffer)|)
      invariant ReadKeys(lengths, s) == After(keys, ReadKeys(lengths[i..], packet.Remaining()))
    {
      var key;
      key, ok := packet.Read(lengths[i]);
      if !ok {
        return;
      }
      assert lengths[i..][1..] == lengths[i + 1..];
      AfterOneMore(keys, key, ReadKeys(lengths[i + 1..], packet.Remaining()));
      keys := keys + [key];
    }
    AfterAll(keys, packet.Remaining());
    ok := true;
  }

  lemma {:induction false} FillDictOneMore(keys: seq<Bytes>, values: seq<Json>, key: Bytes, value: Json,
                                           out: seq<(Bytes, Json)>)
    requires |keys| == |values|
    ensures FillDict(keys + [key], values + [value], out) == DictSet(FillDict(keys, values, out), key, value)
    decreases |keys|
  {
    assert (keys + [key])[1..] == if keys == [] then [] else keys[1..] + [key];
    assert (values + [value])[1..] == if values == [] then [] else values[1..] + [value];
    if keys != [] {
      FillDictOneMore(keys[1..], values[1..], key, value, DictSet(out, keys[0], values[0]));
    }
  }

  // read_binary_json_type
  method ReadBinaryJsonType(packet: Packet, t: Byte, length: int) returns (v: Json, ok: bool)
    requires packet.Valid()
    modifies packet
    ensures packet.Valid()
    ensures ok == ReadValue(t, length, old(packet.Remaining())).Ok?
    ensures ok ==> ReadValue(t, length, old(packet.Remaining())) == Ok(v, packet.Remaining())
    ensures ok ==> packet.Moved(old(packet.Remaining()), old(packet.readBytes), |old(packet.dataBuffer)|)
    decreases |packet.Remaining()|, 2
  {
    hide ReadObject, ReadArray, ReadString, FromLittleEndian, Signed;
    v := JNull;
    var large := t == 1 || t == 3;
    if t == 0 || t == 1 {
      v, ok := ReadBinaryJsonObject(packet, length - 1, large);
    } else if t == 2 || t == 3 {
      v, ok := ReadBinaryJsonArray(packet, length - 1, large);
    } else if t == 12 {
      v, ok := ReadVariableLengthString(packet);
    } else if t == 4 {
      var code;
      code, ok := packet.ReadUInt(1);
      if ok {
        v, ok := LiteralOf(code);
      }
    } else if t == 5 || t == 7 || t == 9 {
      var n;
      n, ok := packet.ReadInt(if t == 5 then 2 else if t == 7 then 4 else 8);
      v := JInt(n);
    } else if t == 6 || t == 8 || t == 10 {
      var n;
      n, ok := packet.ReadUInt(if t == 6 then 2 else if t == 8 then 4 else 8);
      v := JInt(n);
    } else if t == 11 {
      var bits;
      bits, ok := packet.Read(8);
      v := JDouble(bits);
    } else {
      ok := false;
    }
  }

  // read_binary_json_array
  method ReadBinaryJsonArray(packet: Packet, length: int, large: bool) returns (v: Json, ok: bool)
    requires packet.Valid()
    modifies packet
    ensures packet.Valid()
    ensures ok == ReadArray(length, large, old(packet.Remaining())).Ok?
    ensures ok ==> ReadArray(length, large, old(packet.Remaining())) == Ok(v, packet.Remaining())
    ensures ok ==> packet.Moved(old(packet.Remaining()), old(packet.readBytes), |old(packet.dataBuffer)|)
    decreases |packet.Remaining()|, 1
  {
    hide ReadHeader, ReadEntries, ReadValue, ReadValues;
    v := JNull;
    var elements, size;
    elements, size, ok := ReadContainerHeader(packet, large);
    if !ok || size > length {
      return v, false;
    }
    var entries;
    entries, ok := ReadTable(packet, elements, large);
    if !ok {
      return;
    }
    var values;
    values, ok := ReadElements(packet, entries, length);
    v := JArray(values);
  }

  // The comprehension over _read.
  method ReadElements(packet: Packet, entries: seq<Entry>, length: int) returns (values: seq<Json>, ok: bool)
    requires packet.Valid()
    modifies packet
    ensures packet.Valid()
    ensures ok == ReadValues(entries, length, old(packet.Remaining())).Ok?
    ensures ok ==> ReadValues(entries, length, old(packet.Remaining())) == Ok(values, packet.Remaining())
    ensures ok ==> packet.Moved(old(packet.Remaining()), old(packet.readBytes), |old(packet.dataBuffer)|)
    decreases |packet.Remaining()|, 3
  {
    hide ReadValue;
    ghost var s := packet.Remaining();
    values, ok := [], true;
    AfterNothing(ReadValues(entries, length, s));
    assert entries[0..] == entries;
    for i := 0 to |entries|
      invariant packet.Valid() && packet.Moved(s, old(packet.readBytes), |old(packet.dataBuffer)|)
      invariant ReadValues(entries, length, s) == After(values, ReadValues(entries[i..], length, packet.Remaining()))
    {
      var x;
      match entries[i] {
        case Inline(value) => x := value;
        case Later(t) =>
          x, ok := ReadBinaryJsonType(packet, t, length);
          if !ok {
            return;
          }
      }
      assert entries[i..][1..] == entries[i + 1..];
      AfterOneMore(values, x, ReadValues(entries[i + 1..], length, packet.Remaining()));
      values := values + [x];
    }
    AfterAll(values, packet.Remaining());
    ok := true;
  }

  // read_binary_json_object
  method ReadBinaryJsonObject(packet: Packet, length: int, large: bool) returns (v: Json, ok: bool)
    requires packet.Valid()
    modifies packet
    ensures packet.Valid()
    ensures ok == ReadObject(length, large, old(packet.Remaining())).Ok?
    ensures ok ==> ReadObject(length, large, old(packet.Remaining())) == Ok(v, packet.Remaining())
    ensures ok ==> packet.Moved(old(packet.Remaining()), old(packet.readBytes), |old(packet.dataBuffer)|)
    decreases |packet.Remaining()|, 1
  {
    hide ReadHeader, ReadEntries, ReadKeyLengths, ReadKeys, ReadValue, ReadValues, FillDict, DictSet;
    v := JNull;
    var elements, size;
    elements, size, ok := ReadContainerHeader(packet, large);
    if !ok || size > length {
      return v, false;
    }
    LengthCount(elements, large, packet.Remaining());
    var lengths, entries, keys;
    lengths, ok := ReadKeyTable(packet, elements, large);
    if !ok {
      return;
    }
    EntryCount(elements, large, packet.Remaining());
    entries, ok := ReadTable(packet, elements, large);
    if !ok {
      return;
    }
    KeyCount(lengths, packet.Remaining());
    keys, ok := ReadNames(packet, lengths);
    if !ok {
      return;
    }
    var out;
    out, ok := ReadMembers(packet, keys, entries, length);
    v := JObject(out);
  }

  // The loop that fills the dict.
  method ReadMembers(packet: Packet, keys: seq<Bytes>, entries: seq<Entry>, length: int)
    returns (out: seq<(Bytes, Json)>, ok: bool)
    requires packet.Valid() && |keys| == |entries|
    modifies packet
    ensures packet.Valid()
    ensures ok == ReadValues(entries, length, old(packet.Remaining())).Ok?
    ensures ok ==> var r := ReadValues(entries, length, old(packet.Remaining()));
                   (out == FillDict(keys, r.value, []) && packet.Remaining() == r.rest)
    ensures ok ==> packet.Moved(old(packet.Remaining()), old(packet.readBytes), |old(packet.dataBuffer)|)
    decreases |packet.Remaining()|, 3
  {
    hide ReadValue, FillDict, DictSet;
    ghost var s := packet.Remaining();
    out, ok := [], true;
    ghost var values := [];
    AfterNothing(ReadValues(entries, length, s));
    assert entries[0..] == entries;
    FillNothing();
    for i := 0 to |entries|
      invariant packet.Valid() && packet.Moved(s, old(packet.readBytes), |old(packet.dataBuffer)|)
      invariant ReadValues(entries, length, s) == After(values, ReadValues(entries[i..], length, packet.Remaining()))
      invariant |values| == i && out == FillDict(keys[..i], values, [])
    {
      var x;
      match entries[i] {
        case Inline(value) => x := value;
        case Later(t) =>
          x, ok := ReadBinaryJsonType(packet, t, length);
          if !ok {
            return;
          }
      }
      assert entries[i..][1..] == entries[i + 1..];
      AfterOneMore(values, x, ReadValues(entries[i + 1..], length, packet.Remaining()));
      FillDictOneMore(keys[..i], values, keys[i], x, []);
      assert keys[..i + 1] == keys[..i] + [keys[i]];
      values := values + [x];
      out := DictSet(out, keys[i], x);
    }
    AfterAll(values, packet.Remaining());
    assert keys[..|entries|] == keys;
    ok := true;
  }

  lemma FillNothing()
    ensures FillDict([], [], []) == []
  {
  }

  // read_binary_json: the payload is read whole, put back, and read again piece by piece.
  method ReadBinaryJson(packet: Packet, size: nat) returns (v: Json, ok: bool)
    requires packet.Valid()
    modifies packet
    ensures packet.Valid()
    ensures ok == ReadJson(size, old(packet.State())).Done?
    ensures ok ==> ReadJson(size, old(packet.State())) == Done(v, packet.State())
    ensures ok ==> packet.Total() == old(packet.Total())
  {
    hide ReadTyped;
    v := JNull;
    var length, payload;
    length, ok := packet.ReadUIntBySize(size);
    if !ok {
      return;
    }
    assert On(old(packet.State()), UIntBySize(old(packet.Remaining()), size)) == Done(length, packet.State());
    payload, ok := packet.Read(length);
    if !ok {
      return;
    }
    packet.Unread(payload);
    v, ok := ReadPayload(packet, length);
  }

  method ReadPayload(packet: Packet, length: nat) returns (v: Json, ok: bool)
    requires packet.Valid()
    modifies packet
    ensures packet.Valid()
    ensures ok == ReadTyped(length, old(packet.Remaining())).Ok?
    ensures ok ==> ReadTyped(length, old(packet.Remaining())) == Ok(v, packet.Remaining())
    ensures ok ==> packet.Moved(old(packet.Remaining()), old(packet.readBytes), |old(packet.dataBuffer)|)
  {
    hide ReadValue;
    ghost var s := packet.Remaining();
    v := JNull;
    var t;
    t, ok := packet.ReadUInt(1);
    if ok {
      FirstByte(s);
      v, ok := ReadBinaryJsonType(packet, t, length);
    }
  }
}
