// Bitmaps, least significant bit first.
module Bitmaps {
  import opened Binary

  type Flags = seq<bool>

  // The number with these bits.
  function Mask(flags: Flags): nat {
    if flags == [] then 0 else (if flags[0] then 1 else 0) + 2 * Mask(flags[1..])
  }

  function Count(flags: Flags): (n: nat)
    ensures n <= |flags|
  {
    if flags == [] then 0 else (if flags[0] then 1 else 0) + Count(flags[1..])
  }

  // Eight flags a byte; the unused bits of the last byte are zero.
  function Bitmap(flags: Flags): (bs: Bytes)
    ensures |bs| == (|flags| + 7) / 8
    decreases |flags|
  {
    if flags == [] then []
    else if |flags| <= 8 then
      MaskFits(flags);
      [Mask(flags)]
    else
      MaskFits(flags[..8]);
      [Mask(flags[..8])] + Bitmap(flags[8..])
  }

  lemma MaskFits(flags: Flags)
    requires |flags| <= 8
    ensures Mask(flags) < 256
  {
    MaskBound(flags);
    assert Power(8) == 256;
    PowerGrows(|flags|, 8);
  }

  function Power(k: nat): nat {
    if k == 0 then 1 else 2 * Power(k - 1)
  }

  // Bit k counts the 2^k.
  lemma {:induction false} BitIsDigit(n: nat, k: nat)
    ensures Power(k) > 0 && (Bit(n, k) <==> n / Power(k) % 2 == 1)
    decreases k
  {
    if k > 0 {
      BitIsDigit(n / 2, k - 1);
      DivideTwice(n, 2, Power(k - 1));
    }
  }

  lemma {:induction false} PowerGrows(i: nat, j: nat)
    requires i <= j
    ensures Power(i) <= Power(j)
    decreases j
  {
    if i < j {
      PowerGrows(i, j - 1);
    }
  }

  lemma {:induction false} MaskBound(flags: Flags)
    ensures Mask(flags) < Power(|flags|)
  {
    if flags != [] {
      MaskBound(flags[1..]);
    }
  }

  // bit_get
  predicate BitGet(bitmap: Bytes, i: nat)
    requires i / 8 < |bitmap|
  {
    Bit(bitmap[i / 8], i % 8)
  }

  // What BIT_COUNT_IN_BYTE tabulates.
  function Ones(n: nat): nat {
    if n == 0 then 0 else n % 2 + Ones(n / 2)
  }

  // bit_count
  function BitCount(bitmap: Bytes): nat {
    if bitmap == [] then 0 else BitCount(bitmap[..|bitmap| - 1]) + Ones(bitmap[|bitmap| - 1])
  }

  method CountBits(bitmap: Bytes) returns (n: nat)
    ensures n == BitCount(bitmap)
  {
    n := 0;
    for i := 0 to |bitmap|
      invariant n == BitCount(bitmap[..i])
    {
      assert bitmap[..i + 1][..i] == bitmap[..i];
      n := n + Ones(bitmap[i]);
    }
    assert bitmap[..|bitmap|] == bitmap;
  }

  // ---- a bitmap gives its flags back ----

  lemma {:induction false} MaskBit(flags: Flags, i: nat)
    ensures Bit(Mask(flags), i) <==> i < |flags| && flags[i]
    decreases i
  {
    if flags == [] {
      NoBits(i);
    } else if i > 0 {
      assert Mask(flags) / 2 == Mask(flags[1..]);
      MaskBit(flags[1..], i - 1);
    }
  }

  lemma {:induction false} NoBits(i: nat)
    ensures !Bit(0, i)
  {
    if i > 0 {
      NoBits(i - 1);
    }
  }

  lemma {:induction false} BitmapGet(flags: Flags, i: nat)
    requires i < |flags|
    ensures BitGet(Bitmap(flags), i) <==> flags[i]
    decreases |flags|
  {
    if |flags| <= 8 {
      MaskBit(flags, i);
    } else if i < 8 {
      MaskBit(flags[..8], i);
    } else {
      BitmapGet(flags[8..], i - 8);
      assert Bitmap(flags)[i / 8] == Bitmap(flags[8..])[(i - 8) / 8];
    }
  }

  lemma {:induction false} OnesOfMask(flags: Flags)
    ensures Ones(Mask(flags)) == Count(flags)
  {
    if flags != [] {
      OnesOfMask(flags[1..]);
      assert Mask(flags) / 2 == Mask(flags[1..]);
    }
  }

  lemma {:induction false} CountAppend(a: Flags, b: Flags)
    ensures Count(a + b) == Count(a) + Count(b)
    decreases |a|
  {
    if a == [] {
      assert a + b == b;
    } else {
      CountAppend(a[1..], b);
      assert (a + b)[1..] == a[1..] + b;
    }
  }

  lemma {:induction false} BitCountCons(b: Byte, bs: Bytes)
    ensures BitCount([b] + bs) == Ones(b) + BitCount(bs)
    decreases |bs|
  {
    var s := [b] + bs;
    if bs == [] {
      assert s[..|s| - 1] == [];
    } else {
      BitCountCons(b, bs[..|bs| - 1]);
      assert s[..|s| - 1] == [b] + bs[..|bs| - 1];
    }
  }

  lemma {:induction false} BitmapCount(flags: Flags)
    ensures BitCount(Bitmap(flags)) == Count(flags)
    decreases |flags|
  {
    if flags == [] {
    } else if |flags| <= 8 {
      OnesOfMask(flags);
      MaskFits(flags);
      BitCountCons(Mask(flags), []);
      assert [Mask(flags)] + [] == [Mask(flags)];
    } else {
      OnesOfMask(flags[..8]);
      MaskFits(flags[..8]);
      BitmapCount(flags[8..]);
      BitCountCons(Mask(flags[..8]), Bitmap(flags[8..]));
      CountAppend(flags[..8], flags[8..]);
      assert flags == flags[..8] + flags[8..];
    }
  }
}
