/** The hex printer of alt_printf, on 32-bit words with its masks and shifts. */
module AltPrintf {
  import opened Wrappers
  import opened Words
  import opened Digits
  import opened LogPrintf

  // ----- hexadecimal digits of a number

  // The digit at position k.
  function Nibble(v: nat, k: nat): (d: nat)
    ensures d < 16
  {
    PowPositive(16, k);
    Quot(v, Pow(16, k)) % 16
  }

  // Without the digits above position k, the one at k is the leading one.
  lemma NibbleLeads(v: nat, k: nat)
    ensures Pow(16, k) > 0 && Pow(16, k + 1) > 0
    ensures var w := Rem(v, Pow(16, k + 1));
            Nibble(v, k) == Quot(w, Pow(16, k)) && Rem(w, Pow(16, k)) == Rem(v, Pow(16, k))
  {
    PowPositive(16, k);
    PowPositive(16, k + 1);
    var p, q, w := Pow(16, k), Quot(v, Pow(16, k + 1)), Rem(v, Pow(16, k + 1));
    var a, r := Quot(w, p), Rem(w, p);
    Divided(v, p * 16);
    Divided(w, p);
    if a >= 16 { MulMonotone(p, 16, a); }
    assert v == (q * 16 + a) * p + r by { Regroup16(q, p, a, r); }
    QuotUnique(v, p, q * 16 + a, r);
  }

  lemma Regroup16(q: nat, p: nat, a: nat, r: nat)
    ensures (q * 16 + a) * p + r == q * (p * 16) + (a * p + r)
  {}

  lemma {:induction false} PowGrows(base: nat, j: nat, k: nat)
    requires 1 <= base && j <= k
    ensures Pow(base, j) <= Pow(base, k)
  {
    if j < k {
      PowGrows(base, j, k - 1);
      MulMonotone(Pow(base, k - 1), 1, base);
    }
  }

  lemma TopPower(v: nat)
    requires v < U32
    ensures Pow(16, 8) == U32 && v < Pow(16, 8)
  {}

  lemma ZeroNibble(v: nat, k: nat)
    requires v < Pow(16, k + 1)
    ensures Nibble(v, k) == 0 <==> v < Pow(16, k)
  {
    NibbleLeads(v, k);
    QuotUnique(v, Pow(16, k + 1), 0, v);
  }

  lemma HexLength(v: nat, k: nat)
    requires 0 < Pow(16, k) <= v < Pow(16, k + 1)
    ensures |Text(v, 16, false)| == k + 1
  {
    var n := |Text(v, 16, false)|;
    TextLength(v, 16, false);
    if n <= k { PowGrows(16, n, k); }
    if n > k + 1 { PowGrows(16, k + 1, n - 1); }
  }

  // What is still to come when position k is next.
  function HexTail(v: nat, k: int): string
    requires -1 <= k
  {
    PowPositive(16, k + 1);
    Tail(Rem(v, Pow(16, k + 1)), k + 1, 16, false)
  }

  lemma HexStep(v: nat, k: nat)
    ensures HexTail(v, k) == [DigitChar(Nibble(v, k), false)] + HexTail(v, k - 1)
  {
    NibbleLeads(v, k);
    TailStep(Rem(v, Pow(16, k + 1)), k + 1, 16, false);
  }

  lemma HexStart(v: nat, k: nat)
    requires 0 < Pow(16, k) <= v < Pow(16, k + 1)
    ensures HexTail(v, k) == Text(v, 16, false)
  {
    HexLength(v, k);
    WholeTail(v, 16, false);
    QuotUnique(v, Pow(16, k + 1), 0, v);
  }

  lemma HexEnd(v: nat)
    ensures HexTail(v, -1) == []
  {
    NoTail(Rem(v, 1), 16, false);
  }

  lemma FirstPower()
    ensures Pow(16, 0) == 1
  {}

  // ----- numbers in words

  function One(b: bool): nat { if b then 1 else 0 }

  // The number that the lowest n bits of a word spell in binary.
  function Number(w: bv32, n: nat): nat {
    if n == 0 then 0 else 2 * Number(Half(w), n - 1) + One(Odd(w))
  }

  function Value32(w: bv32): (v: nat)
    ensures v < U32
  {
    NumberFits(w, 8);
    TopPower(0);
    Number(w, 32)
  }

  // A word and its lowest four bits.
  function Fourth(w: bv32): bv32 { Half(Half(Half(Half(w)))) }

  function Low4(w: bv32): (d: nat)
    ensures d < 16
  {
    One(Odd(w)) + 2 * One(Odd(Half(w))) + 4 * One(Odd(Half(Half(w)))) + 8 * One(Odd(Half(Half(Half(w)))))
  }

  lemma FourBits(w: bv32, n: nat)
    ensures Number(w, n + 4) == 16 * Number(Fourth(w), n) + Low4(w)
  {
    hide Half; hide Odd;
    var w1, w2, w3 := Half(w), Half(Half(w)), Half(Half(Half(w)));
    assert Number(w, n + 4) == 2 * Number(w1, n + 3) + One(Odd(w));
    assert Number(w1, n + 3) == 2 * Number(w2, n + 2) + One(Odd(w1));
    assert Number(w2, n + 2) == 2 * Number(w3, n + 1) + One(Odd(w2));
    assert Number(w3, n + 1) == 2 * Number(Fourth(w), n) + One(Odd(w3));
  }

  lemma {:induction false} NumberFits(w: bv32, k: nat)
    ensures Number(w, 4 * k) < Pow(16, k)
    decreases k
  {
    if k > 0 {
      NumberFits(Fourth(w), k - 1);
      FourBits(w, 4 * (k - 1));
      PowBounds(Number(Fourth(w), 4 * (k - 1)), Low4(w), 16, k - 1);
    }
  }

  // What is left of a word above its lowest k digits.
  function Above(w: bv32, k: nat): bv32 { if k == 0 then w else Fourth(Above(w, k - 1)) }

  lemma {:induction false} AboveIsQuot(w: bv32, k: nat)
    requires k <= 8
    ensures Pow(16, k) > 0 && Quot(Value32(w), Pow(16, k)) == Number(Above(w, k), 32 - 4 * k)
    decreases k
  {
    PowPositive(16, k);
    if k == 0 {
      QuotUnique(Value32(w), 1, Value32(w), 0);
    } else {
      var p, rest := Pow(16, k - 1), Above(w, k - 1);
      AboveIsQuot(w, k - 1);
      SplitQuot(Value32(w), p, 16);
      FourBits(rest, 32 - 4 * k);
      hide Quot; hide Number; hide Low4;
      QuotUnique(Number(rest, 32 - 4 * k + 4), 16, Number(Fourth(rest), 32 - 4 * k), Low4(rest));
    }
  }

  lemma SplitQuot(v: nat, p: nat, base: nat)
    requires 1 <= p && 2 <= base && 1 <= p * base
    ensures Quot(v, p * base) == Quot(Quot(v, p), base)
  {
    if p == 1 {
      QuotUnique(v, 1, v, 0);
    } else {
      SplitTwice(v, base, p);
      assert base * p == p * base;
    }
  }

  // ----- the masks and shifts

  // The positions of digit_shift.
  predicate DigitShift(s: int) { 0 <= s <= 28 && s % 4 == 0 }

  // v & (0xF << s)
  function Masked(v: bv32, s: nat): bv32
    requires s < 32
  {
    v & ((0xF as bv32) << s)
  }

  // (v & (0xF << s)) >> s
  function Digit(v: bv32, s: nat): bv32
    requires s < 32
  {
    (v & ((0xF as bv32) << s)) >> s
  }

  function Shifted(v: bv32, s: nat): bv32
    requires s < 32
  {
    v >> s
  }

  function LowNibble(w: bv32): bv32 { w & 0xF }

  function Int(d: bv32): nat { d as nat }

  lemma DigitAt0(v: bv32)
    ensures Digit(v, 0) == LowNibble(Shifted(v, 0)) && (Masked(v, 0) == 0 <==> Digit(v, 0) == 0)
  {
    assert (0xF as bv32) << 0 == 0xF;
    assert (v & 0xF) >> 0 == (v >> 0) & 0xF;
  }

  lemma DigitAt4(v: bv32)
    ensures Digit(v, 4) == LowNibble(Shifted(v, 4)) && (Masked(v, 4) == 0 <==> Digit(v, 4) == 0)
  {
    assert (0xF as bv32) << 4 == 0xF0;
    assert (v & 0xF0) >> 4 == (v >> 4) & 0xF;
  }

  lemma DigitAt8(v: bv32)
    ensures Digit(v, 8) == LowNibble(Shifted(v, 8)) && (Masked(v, 8) == 0 <==> Digit(v, 8) == 0)
  {
    assert (0xF as bv32) << 8 == 0xF00;
    assert (v & 0xF00) >> 8 == (v >> 8) & 0xF;
  }

  lemma DigitAt12(v: bv32)
    ensures Digit(v, 12) == LowNibble(Shifted(v, 12)) && (Masked(v, 12) == 0 <==> Digit(v, 12) == 0)
  {
    assert (0xF as bv32) << 12 == 0xF000;
    assert (v & 0xF000) >> 12 == (v >> 12) & 0xF;
  }

  lemma DigitAt16(v: bv32)
    ensures Digit(v, 16) == LowNibble(Shifted(v, 16)) && (Masked(v, 16) == 0 <==> Digit(v, 16) == 0)
  {
    assert (0xF as bv32) << 16 == 0xF0000;
    assert (v & 0xF0000) >> 16 == (v >> 16) & 0xF;
  }

  lemma DigitAt20(v: bv32)
    ensures Digit(v, 20) == LowNibble(Shifted(v, 20)) && (Masked(v, 20) == 0 <==> Digit(v, 20) == 0)
  {
    assert (0xF as bv32) << 20 == 0xF00000;
    assert (v & 0xF00000) >> 20 == (v >> 20) & 0xF;
  }

  lemma DigitAt24(v: bv32)
    ensures Digit(v, 24) == LowNibble(Shifted(v, 24)) && (Masked(v, 24) == 0 <==> Digit(v, 24) == 0)
  {
    assert (0xF as bv32) << 24 == 0xF000000;
    assert (v & 0xF000000) >> 24 == (v >> 24) & 0xF;
  }

  lemma DigitAt28(v: bv32)
    ensures Digit(v, 28) == LowNibble(Shifted(v, 28)) && (Masked(v, 28) == 0 <==> Digit(v, 28) == 0)
  {
    assert (0xF as bv32) << 28 == 0xF0000000;
    assert (v & 0xF0000000) >> 28 == (v >> 28) & 0xF;
  }

  // Masking before the shift is masking after it, and the mask leaves nothing exactly when the
  // digit is zero.
  lemma DigitIsLow(v: bv32, s: nat)
    requires DigitShift(s)
    ensures Digit(v, s) == LowNibble(Shifted(v, s)) && (Masked(v, s) == 0 <==> Digit(v, s) == 0)
  {
    hide Digit; hide LowNibble; hide Shifted; hide Masked;
    if s == 0 { DigitAt0(v); }
    if s == 4 { DigitAt4(v); }
    if s == 8 { DigitAt8(v); }
    if s == 12 { DigitAt12(v); }
    if s == 16 { DigitAt16(v); }
    if s == 20 { DigitAt20(v); }
    if s == 24 { DigitAt24(v); }
    if s == 28 { DigitAt28(v); }
  }

  lemma ShiftFurther(v: bv32, s: nat)
    requires DigitShift(s) && s < 28
    ensures Shifted(v, s + 4) == Fourth(Shifted(v, s))
  {
    FourthIsShift(v >> s);
    ShiftFurtherRaw(v, s);
  }

  lemma FourthIsShift(w: bv32)
    ensures Fourth(w) == w >> 4
  {}

  lemma ShiftFurtherRaw(v: bv32, s: nat)
    requires DigitShift(s) && s < 28
    ensures v >> (s + 4) == (v >> s) >> 4
  {
    if s == 0 {} else if s == 4 {} else if s == 8 {} else if s == 12 {} else if s == 16 {} else if s == 20 {} else {}
  }

  lemma NoShift(v: bv32)
    ensures Shifted(v, 0) == v
  {}

  lemma LowBits(x: bv32, d: bv32)
    requires d == LowNibble(x)
    ensures d <= 15 && (Odd(x) <==> d & 1 == 1) && (Odd(Half(x)) <==> d & 2 == 2)
    ensures (Odd(Half(Half(x))) <==> d & 4 == 4) && (Odd(Half(Half(Half(x)))) <==> d & 8 == 8)
  {}

  lemma SmallValue(d: bv32)
    requires d <= 15
    ensures Int(d) == One(d & 1 == 1) + 2 * One(d & 2 == 2) + 4 * One(d & 4 == 4) + 8 * One(d & 8 == 8)
    ensures Int(d) == 0 <==> d == 0
  {
    if d == 0 {} else if d == 1 {} else if d == 2 {} else if d == 3 {} else if d == 4 {} else if d == 5 {}
    else if d == 6 {} else if d == 7 {} else if d == 8 {} else if d == 9 {} else if d == 10 {} else if d == 11 {}
    else if d == 12 {} else if d == 13 {} else if d == 14 {} else { assert d == 15; }
  }

  lemma LowDigit(x: bv32)
    ensures LowNibble(x) <= 15 && Int(LowNibble(x)) == Low4(x) && (Low4(x) == 0 <==> LowNibble(x) == 0)
  {
    hide LowNibble; hide Odd; hide Half; hide Int;
    LowBits(x, LowNibble(x));
    SmallValue(LowNibble(x));
  }

  lemma {:induction false} ShiftIsAbove(v: bv32, k: nat)
    requires k <= 7
    ensures Shifted(v, 4 * k) == Above(v, k)
    decreases k
  {
    hide Shifted; hide Fourth;
    if k == 0 {
      NoShift(v);
    } else {
      ShiftIsAbove(v, k - 1);
      ShiftFurther(v, 4 * (k - 1));
    }
  }

  // Masking and shifting yields the digit of the number.
  lemma DigitIsNibble(v: bv32, k: nat)
    requires k <= 7
    ensures Digit(v, 4 * k) <= 15
    ensures Int(Digit(v, 4 * k)) == Nibble(Value32(v), k)
    ensures Masked(v, 4 * k) == 0 <==> Nibble(Value32(v), k) == 0
  {
    hide Masked; hide Shifted; hide Digit; hide LowNibble; hide Int; hide Low4; hide Number;
    hide Fourth; hide Quot; hide Above;
    var rest := Above(v, k);
    DigitIsLow(v, 4 * k);
    ShiftIsAbove(v, k);
    LowDigit(rest);
    AboveIsQuot(v, k);
    FourBits(rest, 28 - 4 * k);
    assert Quot(Value32(v), Pow(16, k)) == 16 * Number(Fourth(rest), 28 - 4 * k) + Low4(rest);
  }

  lemma NonZero(v: bv32)
    requires Value32(v) == 0
    ensures v == 0
  {
    hide Masked; hide Value32; hide Shifted; hide Digit; hide Int; hide Pow; hide Nibble; hide Quot;
    forall k: nat | k <= 7 ensures Masked(v, 4 * k) == 0 {
      DigitIsNibble(v, k);
      NoDigits(k);
    }
    assert Masked(v, 4 * 0) == 0 && Masked(v, 4 * 1) == 0 && Masked(v, 4 * 2) == 0 && Masked(v, 4 * 3) == 0;
    assert Masked(v, 4 * 4) == 0 && Masked(v, 4 * 5) == 0 && Masked(v, 4 * 6) == 0 && Masked(v, 4 * 7) == 0;
    AllMasked(v);
  }

  lemma NoDigits(k: nat)
    ensures Nibble(0, k) == 0
  {
    PowPositive(16, k);
    QuotUnique(0, Pow(16, k), 0, 0);
  }

  lemma AllMasked(v: bv32)
    requires Masked(v, 0) == 0 && Masked(v, 4) == 0 && Masked(v, 8) == 0 && Masked(v, 12) == 0
    requires Masked(v, 16) == 0 && Masked(v, 20) == 0 && Masked(v, 24) == 0 && Masked(v, 28) == 0
    ensures v == 0
  {}

  // ----- the printer

  // "Find first non-zero digit."
  method FirstDigit(v: bv32) returns (digitShift: nat)
    requires Value32(v) != 0
    ensures DigitShift(digitShift)
    ensures var k := digitShift / 4; 0 < Pow(16, k) <= Value32(v) < Pow(16, k + 1)
  {
    hide Value32; hide Masked; hide Shifted; hide Digit; hide Int; hide Nibble; hide Pow;
    ghost var n := Value32(v);
    ghost var k: nat := 7;
    digitShift := 28;
    TopPower(n);
    FirstPower();
    DigitIsNibble(v, 7);
    while Masked(v, digitShift) == 0
      invariant k <= 7 && digitShift == 4 * k && n < Pow(16, k + 1)
      decreases k
    {
      DigitIsNibble(v, k);
      ZeroNibble(n, k);
      digitShift, k := digitShift - 4, k - 1;
    }
    DigitIsNibble(v, k);
    ZeroNibble(n, k);
    PowPositive(16, k);
  }

  // "Print digits."
  method PrintFrom(v: bv32, first: nat) returns (out: string)
    requires DigitShift(first)
    ensures out == HexTail(Value32(v), first / 4)
  {
    hide *;
    ghost var n, k: int := Value32(v), first / 4;
    var digitShift: int := first;
    out := "";
    Positions(first);
    while digitShift >= 0
      invariant -1 <= k <= 7 && digitShift == 4 * k
      invariant out + HexTail(n, k) == HexTail(n, first / 4)
      decreases digitShift
    {
      HexStep(n, k);
      DigitIsNibble(v, k);
      var c := PrintDigit(Digit(v, digitShift));
      out := out + [c];
      digitShift, k := digitShift - 4, k - 1;
    }
    HexEnd(n);
  }

  lemma Positions(s: nat)
    requires DigitShift(s)
    ensures s / 4 <= 7 && s == 4 * (s / 4)
  {}

  // '0' + digit, or 'a' + digit - 10.
  method PrintDigit(digit: bv32) returns (c: char)
    requires digit <= 15
    ensures Int(digit) < 16 && c == DigitChar(Int(digit), false)
  {
    SmallValue(digit);
    hide Int;
    var d := Int(digit);
    if d <= 9 {
      c := (48 + d) as char;
    } else {
      c := (97 + d - 10) as char;
    }
  }

  // The %x conversion of alt_printf.
  method PrintHex(v: bv32) returns (out: string)
    ensures out == Text(Value32(v), 16, false)
  {
    if v == 0 {
      ZeroValue(32);
      return "0";
    }
    if Value32(v) == 0 { NonZero(v); }
    hide Value32; hide Text; hide HexTail; hide Pow;
    var first := FirstDigit(v);
    HexStart(Value32(v), first / 4);
    out := PrintFrom(v, first);
  }

  lemma {:induction false} ZeroValue(n: nat)
    ensures Number(0, n) == 0
  {
    if n > 0 { ZeroValue(n - 1); }
  }

  // Both printers print the same text for %x without a width, whatever the word.
  method HexPrintersAgree(v: bv32) returns (logged: string, printed: string)
    ensures logged == printed == Text(Value32(v), 16, false)
  {
    logged := PrintInteger(Value32(v), 16, false, false, false, -1);
    printed := PrintHex(v);
    assert "" + "" + Text(Value32(v), 16, false) == Text(Value32(v), 16, false);
  }
}
