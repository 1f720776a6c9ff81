// Integers and strings read from the front of some bytes.
module Readers {
  import opened Binary

  // What reading from the front of some bytes yields; Error stands for any exception.
  datatype Parsed<+T> = Ok(value: T, rest: Bytes) | Error

  function Take(s: Bytes, n: nat): Parsed<Bytes> {
    if n <= |s| then Ok(s[..n], s[n..]) else Error
  }

  function UInt(s: Bytes, k: nat): Parsed<nat> {
    match Take(s, k)
    case Error => Error
    case Ok(bs, rest) => Ok(FromLittleEndian(bs), rest)
  }

  function Int(s: Bytes, k: nat): Parsed<int> {
    match UInt(s, k)
    case Error => Error
    case Ok(u, rest) => Ok(Signed(u, k), rest)
  }

  // read_uint_by_size: other sizes yield None, which no caller can use.
  function UIntBySize(s: Bytes, k: nat): Parsed<nat> {
    if 1 <= k <= 8 then UInt(s, k) else Error
  }

  // Big-endian two's complement, as read_int_be_by_size reads it for sizes 1 to 4.
  function IntBE(s: Bytes, k: nat): Parsed<int> {
    match Take(s, k)
    case Error => Error
    case Ok(bs, rest) => Ok(Signed(FromBigEndian(bs), k), rest)
  }

  // The same without a sign, as for size 5.
  function UIntBE(s: Bytes, k: nat): Parsed<nat> {
    match Take(s, k)
    case Error => Error
    case Ok(bs, rest) => Ok(FromBigEndian(bs), rest)
  }

  lemma TakeFront(a: Bytes, rest: Bytes)
    ensures Take(a + rest, |a|) == Ok(a, rest)
  {
  }

  lemma UIntRoundTrip(n: nat, k: nat, rest: Bytes)
    requires n < Pow256(k)
    ensures UInt(LittleEndian(n, k) + rest, k) == Ok(n, rest)
  {
    TakeFront(LittleEndian(n, k), rest);
    LittleEndianRoundTrip(n, k);
  }

  lemma IntRoundTrip(n: int, k: nat, rest: Bytes)
    requires FitsSigned(n, k)
    ensures Int(LittleEndian(Unsigned(n, k), k) + rest, k) == Ok(n, rest)
  {
    UIntRoundTrip(Unsigned(n, k), k, rest);
  }

  // read_length_coded_pascal_string
  function PascalString(s: Bytes, size: nat): Parsed<Bytes> {
    match UIntBySize(s, size)
    case Error => Error
    case Ok(length, rest) => Take(rest, length)
  }
}
