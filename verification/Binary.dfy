// Bytes and the fixed-width integers the MySQL protocol builds from them.
module Binary {
  type Byte = b: int | 0 <= b < 256

  type Bytes = seq<Byte>

  datatype Option<+T> = None | Some(value: T)

  // The number of values that fit in k bytes.
  function Pow256(k: nat): (r: nat)
    ensures r > 0
  {
    if k == 0 then 1 else 256 * Pow256(k - 1)
  }

  // The low k bytes of n, least significant first.
  function LittleEndian(n: nat, k: nat): (bs: Bytes)
    ensures |bs| == k
  {
    if k == 0 then [] else [n % 256] + LittleEndian(n / 256, k - 1)
  }

  function FromLittleEndian(bs: Bytes): nat {
    if bs == [] then 0 else bs[0] + 256 * FromLittleEndian(bs[1..])
  }

  // The low k bytes of n, most significant first.
  function BigEndian(n: nat, k: nat): (bs: Bytes)
    ensures |bs| == k
  {
    if k == 0 then [] else BigEndian(n / 256, k - 1) + [n % 256]
  }

  function FromBigEndian(bs: Bytes): nat {
    if bs == [] then 0 else FromBigEndian(bs[..|bs| - 1]) * 256 + bs[|bs| - 1]
  }

  lemma {:induction false} LittleEndianRoundTrip(n: nat, k: nat)
    requires n < Pow256(k)
    ensures FromLittleEndian(LittleEndian(n, k)) == n
  {
    if k > 0 {
      LittleEndianRoundTrip(n / 256, k - 1);
      assert LittleEndian(n, k)[1..] == LittleEndian(n / 256, k - 1);
    }
  }

  lemma LessTimes(a: nat, b: nat, d: nat)
    ensures a < b ==> (a + 1) * d <= b * d
  {
  }

  lemma QuotientIs(n: nat, d: nat, q: nat, r: nat)
    requires n == q * d + r && r < d
    ensures n / d == q && n % d == r
  {
    var q', r' := n / d, n % d;
    assert n == q' * d + r';
    LessTimes(q', q, d);
    LessTimes(q, q', d);
    assert q' == q;
  }

  lemma Regroup(a: nat, b: nat, q: nat, r: nat, s: nat)
    ensures a * (b * q + r) + s == q * (a * b) + (a * r + s)
  {
    assert a * (b * q + r) == a * (b * q) + a * r;
    assert a * (b * q) == q * (a * b);
  }

  lemma BelowProduct(a: nat, b: nat, r: nat, s: nat)
    requires r < b && s < a
    ensures a * r + s < a * b
  {
    LessTimes(r, b, a);
    assert (r + 1) * a == a * r + a;
  }

  lemma DivideTwice(n: nat, a: nat, b: nat)
    requires a > 0 && b > 0
    ensures a * b > 0 && n / a / b == n / (a * b)
  {
    var q, s := n / a, n % a;
    var q', r := q / b, q % b;
    Product(n, a, b, q, s, q', r);
  }

  lemma Product(n: nat, a: nat, b: nat, q: nat, s: nat, q': nat, r: nat)
    requires a > 0 && b > 0 && s < a && r < b && n == a * q + s && q == b * q' + r
    ensures a * b > 0 && q' == n / (a * b)
  {
    Regroup(a, b, q', r, s);
    BelowProduct(a, b, r, s);
    assert a * b > 0;
    QuotientIs(n, a * b, q', a * r + s);
  }

  // Byte i of the one form, and byte i from the end of the other, counts the 256^i.
  lemma {:induction false} LittleEndianAt(n: nat, k: nat, i: nat)
    requires i < k
    ensures LittleEndian(n, k)[i] == n / Pow256(i) % 256
    decreases i
  {
    if i > 0 {
      LittleEndianAt(n / 256, k - 1, i - 1);
      DivideTwice(n, 256, Pow256(i - 1));
    }
  }

  lemma {:induction false} BigEndianAt(n: nat, k: nat, i: nat)
    requires i < k
    ensures BigEndian(n, k)[k - 1 - i] == n / Pow256(i) % 256
    decreases i
  {
    if i > 0 {
      BigEndianAt(n / 256, k - 1, i - 1);
      DivideTwice(n, 256, Pow256(i - 1));
    }
  }

  lemma {:induction false} FromLittleEndianBound(bs: Bytes)
    ensures FromLittleEndian(bs) < Pow256(|bs|)
  {
    if bs != [] {
      FromLittleEndianBound(bs[1..]);
    }
  }

  lemma {:induction false} BigEndianRoundTrip(n: nat, k: nat)
    requires n < Pow256(k)
    ensures FromBigEndian(BigEndian(n, k)) == n
  {
    if k > 0 {
      BigEndianRoundTrip(n / 256, k - 1);
      assert BigEndian(n, k)[..k - 1] == BigEndian(n / 256, k - 1);
    }
  }

  lemma {:induction false} FromBigEndianBound(bs: Bytes)
    ensures FromBigEndian(bs) < Pow256(|bs|)
  {
    if bs != [] {
      FromBigEndianBound(bs[..|bs| - 1]);
    }
  }

  // Two's complement in k bytes, as the unsigned number with the same bits.
  function Unsigned(n: int, k: nat): nat
    requires 0 <= n + Pow256(k) && n < Pow256(k)
  {
    if n < 0 then n + Pow256(k) else n
  }

  function Signed(u: nat, k: nat): int {
    if 2 * u < Pow256(k) then u else u - Pow256(k)
  }

  ghost predicate FitsSigned(n: int, k: nat) {
    0 <= 2 * n + Pow256(k) && 2 * n < Pow256(k)
  }

  // Bit k of a number, counting from the least significant: n & (1 << k) is not zero.
  predicate Bit(n: nat, k: nat) {
    if k == 0 then n % 2 == 1 else Bit(n / 2, k - 1)
  }
}
