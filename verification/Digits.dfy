/** Canonical digit strings, and the place-value form in which the printers emit them. */
module Digits {
  import opened Wrappers

  // An unsigned char d + '0', moved up to the letters when it is past '9'.
  function DigitChar(d: nat, upper: bool): char
    requires d < 16
  {
    if d <= 9 then (48 + d) as char else (48 + d + (if upper then 65 else 97) - 48 - 10) as char
  }

  function CharDigit(c: char): nat {
    if '0' <= c <= '9' then c as nat - 48
    else if 'A' <= c <= 'F' then c as nat - 55
    else if 'a' <= c <= 'f' then c as nat - 87
    else 0
  }

  lemma CharDigitInverse(d: nat, upper: bool)
    requires d < 16
    ensures CharDigit(DigitChar(d, upper)) == d && (DigitChar(d, upper) == '0' <==> d == 0)
    ensures d <= 9 ==> '0' <= DigitChar(d, upper) <= '9'
    ensures d > 9 ==> if upper then 'A' <= DigitChar(d, upper) <= 'F' else 'a' <= DigitChar(d, upper) <= 'f'
  {}

  // Quotient and remainder of unsigned division.
  function Quot(v: nat, b: nat): (q: nat)
    requires 1 <= b
    ensures q <= v && (2 <= b && v > 0 ==> q < v) && (q == 0 <==> v < b)
  {
    QuotFacts(v, b);
    v / b
  }

  function Rem(v: nat, b: nat): (r: nat)
    requires 1 <= b
    ensures r < b
  {
    v % b
  }

  lemma Divided(v: nat, b: nat)
    requires 1 <= b
    ensures Quot(v, b) * b + Rem(v, b) == v
  {
    QuotFacts(v, b);
  }

  lemma QuotFacts(v: nat, b: nat)
    requires 1 <= b
    ensures (v / b) * b + v % b == v && v / b <= v && (2 <= b && v > 0 ==> v / b < v) && (v / b == 0 <==> v < b)
  {
    assert v == b * (v / b) + v % b;
    DivisionBounds(v, b, v / b, v % b);
  }

  lemma DivisionBounds(v: nat, b: nat, q: nat, r: nat)
    requires v == b * q + r && r < b
    ensures q * b + r == v && q <= v && (2 <= b && v > 0 ==> q < v) && (q == 0 <==> v < b)
  {
    if q > 0 {
      MulMonotone(q, 1, b);
      MulMonotone(b, 1, q);
      if 2 <= b { MulMonotone(q, 2, b); }
    }
  }

  lemma MulMonotone(p: nat, a: nat, b: nat)
    requires a <= b
    ensures p * a <= p * b
  {}

  // Division has only one answer.
  lemma QuotUnique(v: nat, b: nat, q: nat, r: nat)
    requires 1 <= b && v == q * b + r && r < b
    ensures Quot(v, b) == q && Rem(v, b) == r
  {
    Divided(v, b);
    hide Quot; hide Rem;
    var q', r' := Quot(v, b), Rem(v, b);
    if q < q' { MulMonotone(b, q + 1, q'); }
    if q' < q { MulMonotone(b, q' + 1, q); }
  }

  // The canonical digits of v: no leading zero, one digit for zero.
  function Text(v: nat, base: nat, upper: bool): (s: string)
    requires 2 <= base <= 16
    ensures |s| >= 1
    decreases v
  {
    if v < base then [DigitChar(v, upper)] else Text(Quot(v, base), base, upper) + [DigitChar(Rem(v, base), upper)]
  }

  // A digit of the base, with its letters in the given case.
  predicate IsDigit(c: char, base: nat, upper: bool) {
    ('0' <= c <= '9' || (if upper then 'A' <= c <= 'F' else 'a' <= c <= 'f')) && CharDigit(c) < base
  }

  // Canonical digits are digits of the base, all letters in the case asked for.
  lemma {:induction false} TextIsDigits(v: nat, base: nat, upper: bool)
    requires 2 <= base <= 16
    ensures forall i :: 0 <= i < |Text(v, base, upper)| ==> IsDigit(Text(v, base, upper)[i], base, upper)
    decreases v
  {
    if v < base {
      CharDigitInverse(v, upper);
    } else {
      CharDigitInverse(Rem(v, base), upper);
      TextIsDigits(Quot(v, base), base, upper);
    }
  }

  function Parse(s: string, base: nat): nat {
    if s == [] then 0 else Parse(s[..|s| - 1], base) * base + CharDigit(s[|s| - 1])
  }

  lemma ParseSnoc(t: string, c: char, base: nat)
    ensures Parse(t + [c], base) == Parse(t, base) * base + CharDigit(c)
  {
    assert (t + [c])[..|t|] == t;
  }

  // The digits parse back to the value, and start with 0 only for zero.
  lemma {:induction false} ParseText(v: nat, base: nat, upper: bool)
    requires 2 <= base <= 16
    ensures Parse(Text(v, base, upper), base) == v
    ensures Text(v, base, upper)[0] == '0' <==> v == 0
    decreases v
  {
    if v < base {
      CharDigitInverse(v, upper);
      ParseOne(DigitChar(v, upper), base);
    } else {
      CharDigitInverse(Rem(v, base), upper);
      Divided(v, base);
      hide Quot; hide Rem; hide Parse;
      ParseText(Quot(v, base), base, upper);
      ParseSnoc(Text(Quot(v, base), base, upper), DigitChar(Rem(v, base), upper), base);
    }
  }

  lemma ParseOne(c: char, base: nat)
    ensures Parse([c], base) == CharDigit(c)
  {
    assert [c][..0] == [];
    assert Parse([], base) == 0;
  }

  function Pow(base: nat, k: nat): nat { if k == 0 then 1 else Pow(base, k - 1) * base }

  lemma PowPositive(base: nat, k: nat)
    requires base > 0
    ensures Pow(base, k) > 0
  {
    if k > 0 { PowPositive(base, k - 1); }
  }

  lemma PowBounds(q: nat, r: nat, base: nat, n: nat)
    requires r < base && q < Pow(base, n)
    ensures q * base + r < Pow(base, n + 1)
    ensures n > 0 && Pow(base, n - 1) <= q ==> Pow(base, n) <= q * base + r
  {
    MulMonotone(base, q + 1, Pow(base, n));
    if n > 0 && Pow(base, n - 1) <= q { MulMonotone(base, Pow(base, n - 1), q); }
  }

  // v has as many digits as the powers of the base say.
  lemma {:induction false} TextLength(v: nat, base: nat, upper: bool)
    requires 2 <= base <= 16
    ensures var n := |Text(v, base, upper)|;
            v < Pow(base, n) && (v > 0 ==> Pow(base, n - 1) <= v)
    decreases v
  {
    if v >= base {
      var n := |Text(Quot(v, base), base, upper)|;
      TextLength(Quot(v, base), base, upper);
      Divided(v, base);
      PowBounds(Quot(v, base), Rem(v, base), base, n);
    } else {
      assert Pow(base, 0) == 1 && Pow(base, 1) == base;
    }
  }

  // What the loop over the falling powers p emits for v.
  function Emit(v: nat, p: nat, base: nat, upper: bool): string
    requires 2 <= base <= 16
    decreases p
  {
    if p == 0 then [] else [DigitChar(Quot(v, p) % 16, upper)] + Emit(Rem(v, p), Quot(p, base), base, upper)
  }

  lemma Regroup(q: nat, p: nat, base: nat, a: nat, d: nat)
    ensures (q * p + a) * base + d == q * (p * base) + (a * base + d)
  {}

  lemma EmitStep(v: nat, p: nat, base: nat, upper: bool)
    requires 2 <= base <= 16 && 1 <= p && Quot(v, p) < 16
    ensures Emit(v, p, base, upper) == [DigitChar(Quot(v, p), upper)] + Emit(Rem(v, p), Quot(p, base), base, upper)
  {
    hide Quot; hide Rem;
  }

  // Splitting v at the power p * base and at base leads to the same pieces.
  lemma SplitTwice(v: nat, p: nat, base: nat)
    requires 1 <= p && 2 <= base && 1 <= p * base
    ensures Quot(Quot(v, base), p) == Quot(v, p * base)
    ensures Rem(Quot(v, base), p) == Quot(Rem(v, p * base), base)
    ensures Rem(Rem(v, p * base), base) == Rem(v, base)
  {
    hide Quot; hide Rem;
    var q, r := Quot(v, p * base), Rem(v, p * base);
    var a, d := Quot(r, base), Rem(r, base);
    Divided(v, p * base);
    Divided(r, base);
    Regroup(q, p, base, a, d);
    QuotUnique(v, base, q * p + a, d);
    if a >= p { MulMonotone(base, p, a); }
    QuotUnique(q * p + a, p, q, a);
  }

  lemma QuotPow(base: nat, k: nat)
    requires 2 <= base && 1 <= k
    ensures Quot(Pow(base, k), base) == Pow(base, k - 1)
  {
    QuotUnique(Pow(base, k), base, Pow(base, k - 1), 0);
  }

  lemma EmitOne(v: nat, base: nat, upper: bool)
    requires 2 <= base <= 16 && v < base
    ensures Emit(v, 1, base, upper) == [DigitChar(v, upper)]
  {
    QuotUnique(v, 1, v, 0);
    assert Quot(1, base) == 0;
    assert Emit(0, 0, base, upper) == [];
  }

  // Emitting k + 1 digits is emitting k digits of the quotient and then the remainder.
  lemma {:induction false} EmitSnoc(v: nat, base: nat, k: nat, upper: bool)
    requires 2 <= base <= 16 && 1 <= k && v < Pow(base, k + 1)
    ensures Emit(v, Pow(base, k), base, upper) ==
            Emit(Quot(v, base), Pow(base, k - 1), base, upper) + [DigitChar(Rem(v, base), upper)]
    decreases k
  {
    hide Quot; hide Rem;
    var p, p' := Pow(base, k), Pow(base, k - 1);
    PowPositive(base, k);
    PowPositive(base, k - 1);
    SplitTwice(v, p', base);
    QuotPow(base, k);
    if k == 1 {
      EmitOne(Rem(v, p), base, upper);
      QuotPow1(base);
    } else {
      QuotPow(base, k - 1);
      EmitSnoc(Rem(v, p), base, k - 1, upper);
    }
    hide Pow;
    assert Emit(v, p, base, upper) == [DigitChar(Quot(v, p) % 16, upper)] + Emit(Rem(v, p), p', base, upper);
  }

  lemma QuotPow1(base: nat)
    requires 2 <= base
    ensures Quot(1, base) == 0 && Pow(base, 0) == 1 && Pow(base, 1) == base
  {}

  // From the largest power on, the loop emits the canonical digits.
  lemma {:induction false} EmitIsText(v: nat, base: nat, upper: bool)
    requires 2 <= base <= 16
    ensures Emit(v, Pow(base, |Text(v, base, upper)| - 1), base, upper) == Text(v, base, upper)
    decreases v
  {
    if v < base {
      EmitOne(v, base, upper);
    } else {
      EmitIsText(Quot(v, base), base, upper);
      TextLength(v, base, upper);
      EmitSnoc(v, base, |Text(v, base, upper)| - 1, upper);
    }
  }

  // The last k digits, as the loop emits them when the power k - 1 is next.
  function Tail(v: nat, k: nat, base: nat, upper: bool): string
    requires 2 <= base <= 16
  {
    if k == 0 then [] else Emit(v, Pow(base, k - 1), base, upper)
  }

  lemma TailStep(v: nat, k: nat, base: nat, upper: bool)
    requires 2 <= base <= 16 && 1 <= k && v < Pow(base, k)
    ensures var p := Pow(base, k - 1);
            && 1 <= p && Quot(v, p) < base
            && Tail(v, k, base, upper) == [DigitChar(Quot(v, p), upper)] + Tail(Rem(v, p), k - 1, base, upper)
            && Quot(p, base) == if k > 1 then Pow(base, k - 2) else 0
  {
    var p, q := Pow(base, k - 1), Quot(v, Pow(base, k - 1));
    PowPositive(base, k - 1);
    Divided(v, p);
    if k > 1 { QuotPow(base, k - 1); } else { QuotPow1(base); }
    hide Quot; hide Rem;
    if q >= base { MulMonotone(p, base, q); }
    EmitStep(v, p, base, upper);
  }

  // All digits of v, from the largest power on.
  lemma WholeTail(v: nat, base: nat, upper: bool)
    requires 2 <= base <= 16
    ensures var n := |Text(v, base, upper)|;
            v < Pow(base, n) && Tail(v, n, base, upper) == Text(v, base, upper)
  {
    TextLength(v, base, upper);
    EmitIsText(v, base, upper);
  }
}
