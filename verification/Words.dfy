/** 32-bit machine words seen as 32 separate bits.

    The word operations get a name each, and every fact about a symbolic bit
    position is proved by peeling off the lowest bit. */
module Words {
  function Half(w: bv32): bv32 { w >> 1 }

  function Twice(w: bv32): bv32 { w << 1 }

  predicate Odd(w: bv32) { w & 1 == 1 }

  function Or(w: bv32, m: bv32): bv32 { w | m }

  function AndNot(w: bv32, m: bv32): bv32 { w & !m }

  function Minus(w: bv32, m: bv32): bv32 { w - m }

  predicate Meets(w: bv32, m: bv32) { w & m != 0 }

  predicate Inside(m: bv32, w: bv32) { w & m == m }

  // Bit k of w, counting from the least significant one.
  predicate Bit(w: bv32, k: nat) { if k == 0 then Odd(w) else Bit(Half(w), k - 1) }

  // 1 << k; zero once the bit has left the word.
  function OneBit(k: nat): bv32 { if k == 0 then 1 else Twice(OneBit(k - 1)) }

  function LowMask(n: nat): bv32 { Minus(OneBit(n), 1) }

  // The mask that the source computes for the bit positions from..to.
  function RangeMask(from: nat, to: nat): bv32 { Minus(LowMask(to), LowMask(from)) }

  lemma OrStep(w: bv32, m: bv32)
    ensures Odd(Or(w, m)) <==> Odd(w) || Odd(m)
    ensures Half(Or(w, m)) == Or(Half(w), Half(m))
  {}

  lemma AndNotStep(w: bv32, m: bv32)
    ensures Odd(AndNot(w, m)) <==> Odd(w) && !Odd(m)
    ensures Half(AndNot(w, m)) == AndNot(Half(w), Half(m))
  {}

  lemma {:induction false} OrBit(w: bv32, m: bv32, k: nat)
    ensures Bit(Or(w, m), k) <==> Bit(w, k) || Bit(m, k)
  {
    OrStep(w, m);
    if k > 0 { OrBit(Half(w), Half(m), k - 1); }
  }

  lemma {:induction false} AndNotBit(w: bv32, m: bv32, k: nat)
    ensures Bit(AndNot(w, m), k) <==> Bit(w, k) && !Bit(m, k)
  {
    AndNotStep(w, m);
    if k > 0 { AndNotBit(Half(w), Half(m), k - 1); }
  }

  lemma MeetsStep(w: bv32, m: bv32)
    ensures Meets(w, Twice(m)) <==> Meets(Half(w), m)
    ensures Meets(w, 1) <==> Odd(w)
  {}

  // The source's single-bit test reads exactly bit k.
  lemma {:induction false} MeetsBit(w: bv32, k: nat)
    ensures Meets(w, OneBit(k)) <==> Bit(w, k)
  {
    if k == 0 {
      MeetsStep(w, 0);
    } else {
      MeetsStep(w, OneBit(k - 1));
      MeetsBit(Half(w), k - 1);
    }
  }

  // Shifting a one to a symbolic position is the same, one position at a time.
  lemma ShiftIsOneBit(k: nat)
    requires k < 32
    ensures (1 as bv32) << k == OneBit(k) && 1 <= OneBit(k) <= 0x8000_0000
  {
    assert OneBit(0) == 0x1; assert OneBit(1) == 0x2; assert OneBit(2) == 0x4;
    assert OneBit(3) == 0x8; assert OneBit(4) == 0x10; assert OneBit(5) == 0x20;
    assert OneBit(6) == 0x40; assert OneBit(7) == 0x80; assert OneBit(8) == 0x100;
    assert OneBit(9) == 0x200; assert OneBit(10) == 0x400; assert OneBit(11) == 0x800;
    assert OneBit(12) == 0x1000; assert OneBit(13) == 0x2000; assert OneBit(14) == 0x4000;
    assert OneBit(15) == 0x8000; assert OneBit(16) == 0x10000; assert OneBit(17) == 0x20000;
    assert OneBit(18) == 0x40000; assert OneBit(19) == 0x80000; assert OneBit(20) == 0x100000;
    assert OneBit(21) == 0x200000; assert OneBit(22) == 0x400000; assert OneBit(23) == 0x800000;
    assert OneBit(24) == 0x1000000; assert OneBit(25) == 0x2000000; assert OneBit(26) == 0x4000000;
    assert OneBit(27) == 0x8000000; assert OneBit(28) == 0x10000000; assert OneBit(29) == 0x20000000;
    assert OneBit(30) == 0x40000000; assert OneBit(31) == 0x80000000;
    if k == 0 { assert (1 as bv32) << 0 == 0x1; } if k == 1 { assert (1 as bv32) << 1 == 0x2; }
    if k == 2 { assert (1 as bv32) << 2 == 0x4; } if k == 3 { assert (1 as bv32) << 3 == 0x8; }
    if k == 4 { assert (1 as bv32) << 4 == 0x10; } if k == 5 { assert (1 as bv32) << 5 == 0x20; }
    if k == 6 { assert (1 as bv32) << 6 == 0x40; } if k == 7 { assert (1 as bv32) << 7 == 0x80; }
    if k == 8 { assert (1 as bv32) << 8 == 0x100; } if k == 9 { assert (1 as bv32) << 9 == 0x200; }
    if k == 10 { assert (1 as bv32) << 10 == 0x400; } if k == 11 { assert (1 as bv32) << 11 == 0x800; }
    if k == 12 { assert (1 as bv32) << 12 == 0x1000; } if k == 13 { assert (1 as bv32) << 13 == 0x2000; }
    if k == 14 { assert (1 as bv32) << 14 == 0x4000; } if k == 15 { assert (1 as bv32) << 15 == 0x8000; }
    if k == 16 { assert (1 as bv32) << 16 == 0x10000; } if k == 17 { assert (1 as bv32) << 17 == 0x20000; }
    if k == 18 { assert (1 as bv32) << 18 == 0x40000; } if k == 19 { assert (1 as bv32) << 19 == 0x80000; }
    if k == 20 { assert (1 as bv32) << 20 == 0x100000; } if k == 21 { assert (1 as bv32) << 21 == 0x200000; }
    if k == 22 { assert (1 as bv32) << 22 == 0x400000; } if k == 23 { assert (1 as bv32) << 23 == 0x800000; }
    if k == 24 { assert (1 as bv32) << 24 == 0x1000000; } if k == 25 { assert (1 as bv32) << 25 == 0x2000000; }
    if k == 26 { assert (1 as bv32) << 26 == 0x4000000; } if k == 27 { assert (1 as bv32) << 27 == 0x8000000; }
    if k == 28 { assert (1 as bv32) << 28 == 0x10000000; } if k == 29 { assert (1 as bv32) << 29 == 0x20000000; }
    if k == 30 { assert (1 as bv32) << 30 == 0x40000000; } if k == 31 { assert (1 as bv32) << 31 == 0x80000000; }
  }

  lemma HalfMask(p: bv32)
    requires 1 <= p <= 0x8000_0000
    ensures Odd(Minus(Twice(p), 1)) && Half(Minus(Twice(p), 1)) == Minus(p, 1)
  {}

  lemma LowMaskStep(n: nat)
    requires 1 <= n <= 32
    ensures Odd(LowMask(n)) && Half(LowMask(n)) == LowMask(n - 1)
  {
    ShiftIsOneBit(n - 1);
    HalfMask(OneBit(n - 1));
  }

  lemma ZeroBits(w: bv32, k: nat)
    requires w == 0
    ensures !Bit(w, k)
  {
    if k > 0 { ZeroBits(Half(w), k - 1); }
  }

  lemma {:induction false} LowMaskBit(n: nat, k: nat)
    requires n <= 32
    ensures Bit(LowMask(n), k) <==> k < n
  {
    if n == 0 {
      ZeroBits(LowMask(0), k);
    } else {
      LowMaskStep(n);
      if k > 0 { LowMaskBit(n - 1, k - 1); }
    }
  }

  lemma InsideRaw(m: bv32, w: bv32)
    requires (w >> 1) & (m >> 1) == m >> 1
    requires m & 1 == 1 ==> w & 1 == 1
    ensures w & m == m
  {}

  lemma InsideStep(m: bv32, w: bv32)
    requires Inside(Half(m), Half(w)) && (Odd(m) ==> Odd(w))
    ensures Inside(m, w)
  {
    InsideRaw(m, w);
  }

  lemma InsideZero(m: bv32, w: bv32)
    requires m == 0
    ensures Inside(m, w)
  {}

  lemma {:induction false} LowMasksNest(n: nat, m: nat)
    requires n <= m <= 32
    ensures Inside(LowMask(n), LowMask(m))
  {
    if n == 0 {
      InsideZero(LowMask(0), LowMask(m));
    } else {
      LowMaskStep(n);
      LowMaskStep(m);
      LowMasksNest(n - 1, m - 1);
      InsideStep(LowMask(n), LowMask(m));
    }
  }

  lemma MinusInsideRaw(w: bv32, m: bv32)
    requires w & m == m
    ensures w - m == w & !m
  {}

  lemma MinusInside(w: bv32, m: bv32)
    requires Inside(m, w)
    ensures Minus(w, m) == AndNot(w, m)
  {
    MinusInsideRaw(w, m);
  }

  // The subtraction of two low masks leaves exactly the bits from..to.
  lemma RangeMaskBit(from: nat, to: nat, k: nat)
    requires from <= to <= 32
    ensures Bit(RangeMask(from, to), k) <==> from <= k < to
  {
    LowMasksNest(from, to);
    MinusInside(LowMask(to), LowMask(from));
    AndNotBit(LowMask(to), LowMask(from), k);
    LowMaskBit(to, k);
    LowMaskBit(from, k);
  }

  // The source's text for the low masks, with its special case at 32.
  lemma LowMaskValue(n: nat)
    requires n <= 32
    ensures LowMask(n) == if n == 32 then 0xFFFF_FFFF else ((1 as bv32) << n) - 1
  {
    if n < 32 {
      ShiftIsOneBit(n);
    } else {
      ShiftIsOneBit(31);
      assert LowMask(32) == Minus(Twice((1 as bv32) << 31), 1);
    }
  }

  lemma InsideHalf(m: bv32, w: bv32)
    requires Inside(m, w)
    ensures Inside(Half(m), Half(w))
  {}

  lemma InsideWhole(w: bv32)
    ensures Inside(w, LowMask(32))
  {
    LowMaskValue(32);
    InsideAll(w, LowMask(32));
  }

  lemma InsideAll(m: bv32, w: bv32)
    requires w == 0xFFFF_FFFF
    ensures Inside(m, w)
  {}

  lemma OnlyZeroInside(w: bv32, w': bv32)
    requires Inside(w, LowMask(0)) && Inside(w', LowMask(0))
    ensures w == w'
  {}

  lemma HalfAndLowest(w: bv32, w': bv32)
    requires Half(w) == Half(w') && (Odd(w) <==> Odd(w'))
    ensures w == w'
  {}

  lemma BitStep(w: bv32, k: nat)
    ensures Bit(w, 0) == Odd(w) && Bit(w, k + 1) == Bit(Half(w), k)
  {
    hide Half; hide Odd;
  }

  // A word is determined by its bits.
  lemma {:induction false} SameBits(w: bv32, w': bv32, n: nat)
    requires n <= 32 && Inside(w, LowMask(n)) && Inside(w', LowMask(n))
    requires forall k: nat :: k < n ==> (Bit(w, k) <==> Bit(w', k))
    ensures w == w'
    decreases n
  {
    hide *;
    if n == 0 {
      OnlyZeroInside(w, w');
    } else {
      LowMaskStep(n);
      InsideHalf(w, LowMask(n));
      InsideHalf(w', LowMask(n));
      forall k: nat | k < n - 1 ensures Bit(Half(w), k) <==> Bit(Half(w'), k) {
        BitStep(w, k);
        BitStep(w', k);
      }
      SameBits(Half(w), Half(w'), n - 1);
      BitStep(w, 0);
      BitStep(w', 0);
      assert Bit(w, 0) <==> Bit(w', 0);
      HalfAndLowest(w, w');
    }
  }
}
