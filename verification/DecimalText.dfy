// Decimal numbers as text.
module DecimalText {
  predicate IsDigit(c: char) {
    '0' <= c <= '9'
  }

  predicate AllDigits(s: string) {
    forall c :: c in s ==> IsDigit(c)
  }

  function Show(n: nat): (s: string)
    ensures |s| >= 1 && AllDigits(s)
  {
    if n < 10 then [('0' as int + n) as char] else Show(n / 10) + Show(n % 10)
  }

  function ShowInt(n: int): string {
    if n < 0 then "-" + Show(-n) else Show(n)
  }

  function ReadNat(s: string): nat
    requires AllDigits(s)
  {
    if s == [] then 0
    else
      assert s[|s| - 1] in s;
      10 * ReadNat(s[..|s| - 1]) + (s[|s| - 1] as int - '0' as int)
  }

  lemma {:induction false} ReadShow(n: nat)
    ensures ReadNat(Show(n)) == n
    decreases n
  {
    if n >= 10 {
      ReadShow(n / 10);
      var s, d := Show(n / 10), Show(n % 10);
      assert (s + d)[..|s + d| - 1] == s;
    } else {
      assert Show(n)[..0] == [];
    }
  }

  // The position of the first c, or the length.
  function Find(s: string, c: char): (i: nat)
    ensures i <= |s| && (i < |s| ==> s[i] == c) && c !in s[..i]
  {
    if s == [] || s[0] == c then 0 else 1 + Find(s[1..], c)
  }

  lemma {:induction false} FindAfter(front: string, c: char, back: string)
    requires c !in front
    ensures Find(front + [c] + back, c) == |front|
    decreases |front|
  {
    var s := front + [c] + back;
    if front != [] {
      FindAfter(front[1..], c, back);
      assert s[1..] == front[1..] + [c] + back;
      assert s[0] == front[0] && front[0] in front;
    }
  }

  lemma {:induction false} FindNone(s: string, c: char)
    requires c !in s
    ensures Find(s, c) == |s|
    decreases |s|
  {
    if s != [] {
      assert s[0] in s;
      FindNone(s[1..], c);
    }
  }

  lemma Cut(s: string, k: nat)
    requires AllDigits(s) && k <= |s|
    ensures AllDigits(s[..k]) && AllDigits(s[k..])
  {
  }

  function Pow10(k: nat): (r: nat)
    ensures r > 0
  {
    if k == 0 then 1 else 10 * Pow10(k - 1)
  }

  function DigitOf(c: char): (d: nat)
    requires IsDigit(c)
    ensures d < 10
  {
    c as int - '0' as int
  }

  lemma ReadNatSnoc(a: string, c: char)
    requires AllDigits(a) && IsDigit(c)
    ensures AllDigits(a + [c]) && ReadNat(a + [c]) == 10 * ReadNat(a) + DigitOf(c)
  {
    assert (a + [c])[..|a + [c]| - 1] == a;
  }

  lemma Split(a: string) returns (front: string, last: char)
    requires AllDigits(a) && a != ""
    ensures a == front + [last] && |front| + 1 == |a| && AllDigits(front) && IsDigit(last)
  {
    front, last := a[..|a| - 1], a[|a| - 1];
    assert last in a;
  }

  lemma TimesTen(x: nat, p: nat)
    ensures 10 * (x * p) == x * (10 * p)
  {
  }

  lemma {:induction false} ReadNatAppend(a: string, b: string)
    requires AllDigits(a) && AllDigits(b)
    ensures AllDigits(a + b) && ReadNat(a + b) == ReadNat(a) * Pow10(|b|) + ReadNat(b)
    decreases |b|
  {
    if b == "" {
      assert a + b == a;
    } else {
      hide ReadNat;
      var front, last := Split(b);
      ReadNatAppend(a, front);
      ReadNatSnoc(front, last);
      ReadNatSnoc(a + front, last);
      assert a + b == a + front + [last];
      TimesTen(ReadNat(a), Pow10(|front|));
    }
  }

  lemma {:induction false} ReadNatBound(a: string)
    requires AllDigits(a)
    ensures ReadNat(a) < Pow10(|a|)
    decreases |a|
  {
    if a != "" {
      Cut(a, |a| - 1);
      assert a[|a| - 1] in a;
      ReadNatBound(a[..|a| - 1]);
    }
  }

  function Zeros(k: int): string
    decreases k
  {
    if k <= 0 then "" else "0" + Zeros(k - 1)
  }

  // "%0*d" % (width, n)
  function ZeroPad(width: nat, n: int): string {
    if n < 0 then "-" + Zeros(width - 1 - |Show(-n)|) + Show(-n) else Zeros(width - |Show(n)|) + Show(n)
  }

  lemma {:induction false} ZerosLength(k: int)
    ensures |Zeros(k)| == if k <= 0 then 0 else k
    decreases k
  {
    if k > 0 {
      ZerosLength(k - 1);
    }
  }

  // The width is met, sign included, and exceeded only by numbers that need more.
  lemma ZeroPadWidth(width: nat, n: int)
    ensures var w := |ShowInt(n)|; |ZeroPad(width, n)| == if width > w then width else w
  {
    if n < 0 {
      ZerosLength(width - 1 - |Show(-n)|);
    } else {
      ZerosLength(width - |Show(n)|);
    }
  }

  lemma ShowSnoc(n: nat, c: char)
    requires IsDigit(c)
    ensures Show(DigitOf(c)) == [c]
    ensures n > 0 ==> Show(10 * n + DigitOf(c)) == Show(n) + [c]
  {
    var m := 10 * n + DigitOf(c);
    assert m / 10 == n && m % 10 == DigitOf(c);
  }

  // Printed with its width, a number has its digits back.
  lemma {:induction false} ZeroPadRead(a: string)
    requires AllDigits(a) && a != ""
    ensures ZeroPad(|a|, ReadNat(a)) == a
    decreases |a|
  {
    var front, last := Split(a);
    ReadNatSnoc(front, last);
    var n := ReadNat(front);
    ShowSnoc(n, last);
    if front == "" {
      hide Show;
      assert n == 0;
    } else {
      ZeroPadRead(front);
      ShowSnoc(0, '0');
      hide Show, ReadNat, Zeros;
      if n == 0 {
        ZerosEnd(|front| - 1);
      } else {
        assert Zeros(|front| - |Show(n)|) + (Show(n) + [last]) == Zeros(|front| - |Show(n)|) + Show(n) + [last];
      }
    }
  }

  lemma {:induction false} ZerosEnd(k: nat)
    ensures Zeros(k) + "0" == Zeros(k + 1)
  {
    if k > 0 {
      ZerosEnd(k - 1);
      assert "0" + Zeros(k - 1) + "0" == "0" + (Zeros(k - 1) + "0");
    }
  }

  lemma {:induction false} ShowLength(n: nat, w: nat)
    requires w > 0 && n < Pow10(w)
    ensures |Show(n)| <= w
    decreases n
  {
    if n >= 10 {
      assert w > 1 by {
        assert Pow10(1) == 10;
      }
      ShowLength(n / 10, w - 1);
    }
  }

  lemma {:induction false} ZerosRead(k: nat)
    ensures |Zeros(k)| == k && AllDigits(Zeros(k)) && ReadNat(Zeros(k)) == 0
  {
    if k > 0 {
      ZerosRead(k - 1);
      ReadNatAppend("0", Zeros(k - 1));
      ReadNatSnoc("", '0');
      assert "" + ['0'] == "0";
    }
  }

  lemma AfterZeros(zeros: string, digits: string)
    requires AllDigits(zeros) && AllDigits(digits) && ReadNat(zeros) == 0
    ensures AllDigits(zeros + digits) && ReadNat(zeros + digits) == ReadNat(digits)
  {
    hide ReadNat;
    ReadNatAppend(zeros, digits);
    assert 0 * Pow10(|digits|) == 0;
  }

  // A number that fits is printed with exactly the width, and read back.
  lemma FixedWidth(n: nat, w: nat)
    requires w > 0 && n < Pow10(w)
    ensures |ZeroPad(w, n)| == w && AllDigits(ZeroPad(w, n)) && ReadNat(ZeroPad(w, n)) == n
  {
    hide Show, Zeros, ReadNat, Pow10, AllDigits;
    ShowLength(n, w);
    var k: nat := w - |Show(n)|;
    ZerosRead(k);
    ReadShow(n);
    AfterZeros(Zeros(k), Show(n));
  }
}
