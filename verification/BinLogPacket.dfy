// The cursor over a binlog packet and its integer readers.
module BinLogPacket {
  import opened Binary
  import opened Readers

  function LeftOver(n: nat, used: nat): nat {
    if used <= n then n - used else 0
  }

  // The bytes still to be read, of which the first `waiting` were put back by unread.
  datatype Cursor = Cursor(rest: Bytes, waiting: nat)

  // What reading through a cursor yields.
  datatype Step<+T> = Done(value: T, next: Cursor) | Failed

  function On<T>(c: Cursor, r: Parsed<T>): Step<T> {
    match r
    case Error => Failed
    case Ok(v, rest) => Done(v, Cursor(rest, if |rest| <= |c.rest| then LeftOver(c.waiting, |c.rest| - |rest|) else 0))
  }

  // unread puts bytes behind those that are already waiting.
  function PutBack(c: Cursor, bytes: Bytes): Cursor
    requires c.waiting <= |c.rest|
  {
    Cursor(c.rest[..c.waiting] + bytes + c.rest[c.waiting..], c.waiting + |bytes|)
  }

  // The packet's data and position, and bytes that were read and put back.
  class Packet {
    var dataBuffer: Bytes
    const data: Bytes
    var position: nat
    var readBytes: int

    ghost predicate Valid()
      reads this
    {
      position <= |data|
    }

    ghost function Remaining(): Bytes
      requires Valid()
      reads this
    {
      dataBuffer + data[position..]
    }

    ghost function State(): Cursor
      requires Valid()
      reads this
    {
      Cursor(Remaining(), |dataBuffer|)
    }

    // Bytes read so far and bytes to come: unread takes back what it adds.
    ghost function Total(): int
      requires Valid()
      reads this
    {
      readBytes + |Remaining()|
    }

    // The cursor has moved on from where `before` remained: readBytes counts the bytes in between,
    // and bytes put back are used up first.
    ghost predicate Moved(before: Bytes, readBefore: int, bufferedBefore: nat)
      reads this
    {
      && Valid()
      && |Remaining()| <= |before|
      && readBytes == readBefore + |before| - |Remaining()|
      && |dataBuffer| == LeftOver(bufferedBefore, |before| - |Remaining()|)
    }

    constructor (data: Bytes)
      ensures Valid() && Remaining() == data && dataBuffer == [] && readBytes == 0
    {
      this.data := data;
      dataBuffer, position, readBytes := [], 0, 0;
    }

    // The next size bytes; ok is false when the packet has fewer.
    method Read(size: nat) returns (bytes: Bytes, ok: bool)
      requires Valid()
      modifies this
      ensures Valid()
      ensures ok == Take(old(Remaining()), size).Ok?
      ensures ok ==> Take(old(Remaining()), size) == Ok(bytes, Remaining())
      ensures ok ==> Moved(old(Remaining()), old(readBytes), |old(dataBuffer)|)
    {
      ghost var all, buffered, p := Remaining(), dataBuffer, position;
      readBytes := readBytes + size;
      if |dataBuffer| > 0 {
        var n := if size <= |dataBuffer| then size else |dataBuffer|;
        bytes := dataBuffer[..n];
        dataBuffer := dataBuffer[n..];
        if |bytes| == size {
          assert all[..size] == bytes;
          assert all[size..] == buffered[size..] + data[p..];
          return bytes, true;
        }
        if position + (size - |bytes|) > |data| {
          return [], false;
        }
        bytes := bytes + data[position..position + (size - |bytes|)];
        position := position + (size - n);
        assert all[..size] == bytes;
        assert all[size..] == data[position..] && dataBuffer == [];
        return bytes, true;
      }
      if position + size > |data| {
        return [], false;
      }
      assert all == data[p..];
      bytes := data[position..position + size];
      position := position + size;
      assert all[..size] == bytes;
      assert all[size..] == data[position..];
      return bytes, true;
    }

    // Puts bytes back; they come next only when nothing else is waiting to be read again.
    method Unread(bytes: Bytes)
      requires Valid()
      modifies this`dataBuffer, this`readBytes
      ensures Valid()
      ensures dataBuffer == old(dataBuffer) + bytes && readBytes == old(readBytes) - |bytes|
      ensures State() == PutBack(old(State()), bytes) && Total() == old(Total())
    {
      readBytes := readBytes - |bytes|;
      dataBuffer := dataBuffer + bytes;
      assert old(Remaining())[..|old(dataBuffer)|] == old(dataBuffer);
      assert old(Remaining())[|old(dataBuffer)|..] == data[position..];
    }

    method ReadUInt(size: nat) returns (n: nat, ok: bool)
      requires Valid()
      modifies this
      ensures Valid()
      ensures ok == UInt(old(Remaining()), size).Ok?
      ensures ok ==> UInt(old(Remaining()), size) == Ok(n, Remaining())
      ensures ok ==> Moved(old(Remaining()), old(readBytes), |old(dataBuffer)|)
    {
      var bytes;
      bytes, ok := Read(size);
      n := FromLittleEndian(bytes);
    }

    method ReadUIntBySize(size: nat) returns (n: nat, ok: bool)
      requires Valid()
      modifies this
      ensures Valid()
      ensures ok == UIntBySize(old(Remaining()), size).Ok?
      ensures ok ==> UIntBySize(old(Remaining()), size) == Ok(n, Remaining())
      ensures ok ==> Moved(old(Remaining()), old(readBytes), |old(dataBuffer)|)
    {
      if size < 1 || size > 8 {
        return 0, false;
      }
      n, ok := ReadUInt(size);
    }

    method ReadInt(size: nat) returns (n: int, ok: bool)
      requires Valid()
      modifies this
      ensures Valid()
      ensures ok == Int(old(Remaining()), size).Ok?
      ensures ok ==> Int(old(Remaining()), size) == Ok(n, Remaining())
      ensures ok ==> Moved(old(Remaining()), old(readBytes), |old(dataBuffer)|)
    {
      var u;
      u, ok := ReadUInt(size);
      n := Signed(u, size);
    }

    method ReadIntBE(size: nat) returns (n: int, ok: bool)
      requires Valid()
      modifies this
      ensures Valid()
      ensures ok == IntBE(old(Remaining()), size).Ok?
      ensures ok ==> IntBE(old(Remaining()), size) == Ok(n, Remaining())
      ensures ok ==> Moved(old(Remaining()), old(readBytes), |old(dataBuffer)|)
    {
      var bytes;
      bytes, ok := Read(size);
      n := Signed(FromBigEndian(bytes), size);
    }

    // read_length_coded_pascal_string
    method ReadPascalString(size: nat) returns (bytes: Bytes, ok: bool)
      requires Valid()
      modifies this
      ensures Valid()
      ensures ok == PascalString(old(Remaining()), size).Ok?
      ensures ok ==> PascalString(old(Remaining()), size) == Ok(bytes, Remaining())
      ensures ok ==> Moved(old(Remaining()), old(readBytes), |old(dataBuffer)|)
    {
      var length;
      bytes := [];
      length, ok := ReadUIntBySize(size);
      if ok {
        bytes, ok := Read(length);
      }
    }
  }
}
