/** The integer printer of alt_log_private_printf. */
module LogPrintf {
  import opened Wrappers
  import opened Digits

  function Repeat(c: char, r: int): (s: string)
    ensures |s| == if r > 0 then r else 0
  {
    if r > 0 then seq(r, _ => c) else []
  }

  // Two's complement of a 32-bit argument: the sign and the magnitude that is printed.
  predicate Negative(v: nat, signed: bool) { signed && v >= 0x8000_0000 }

  function Magnitude(v: nat, signed: bool): (m: nat)
    requires v < U32
    ensures m < U32
  {
    if Negative(v, signed) then U32 - v else v
  }

  function Value(v: nat, signed: bool): int { if Negative(v, signed) then v - U32 else v }

  // Sign, padding to the width, canonical digits.
  function IntegerText(v: nat, base: nat, signed: bool, upper: bool, zeros: bool, width: int): string
    requires v < U32 && 2 <= base <= 16
  {
    var digits := Text(Magnitude(v, signed), base, upper);
    var minus := if Negative(v, signed) then "-" else "";
    var pad := width - |digits| - |minus|;
    if zeros then minus + Repeat('0', pad) + digits else Repeat(' ', pad) + minus + digits
  }

  // alt_log_repchar.
  method RepChar(c: char, r: int) returns (out: string)
    ensures out == Repeat(c, r)
  {
    out := "";
    var n := r;
    while n > 0
      invariant out + Repeat(c, n) == Repeat(c, r)
    {
      out := out + [c];
      n := n - 1;
    }
  }

  // Counting the digits: p ends as the largest power of the base that fits, and no
  // product on the way leaves 32 bits.
  method CountDigits(v: nat, base: nat, ghost upper: bool) returns (digitCount: nat, p: nat)
    requires v < U32 && 2 <= base <= 16
    ensures digitCount == |Text(v, base, upper)| && p == Pow(base, digitCount - 1)
    ensures p == 1 || p <= v
  {
    hide Quot; hide Rem;
    ghost var before := v;
    var vShrink := Quot(v, base);
    p, digitCount := 1, 1;
    assert Pow(base, 0) == 1;
    while vShrink > 0
      invariant digitCount >= 1 && p == Pow(base, digitCount - 1) && 1 <= p < U32
      invariant vShrink == Quot(before, base) && p * before <= v
      invariant |Text(v, base, upper)| == digitCount - 1 + |Text(before, base, upper)|
      invariant p == 1 || p <= v
      decreases vShrink
    {
      PowerFits(p, base, before, v);
      digitCount := digitCount + 1;
      p := (p * base) % U32;
      before := vShrink;
      vShrink := Quot(vShrink, base);
    }
  }

  lemma PowerFits(p: nat, base: nat, before: nat, v: nat)
    requires 1 <= p && 1 <= base <= before && p * before <= v < U32
    ensures 1 <= p * base <= v && (p * base) % U32 == p * base
    ensures (p * base) * Quot(before, base) <= v
  {
    Divided(before, base);
    MulMonotone(p, base, before);
    MulMonotone(p, 1, base);
    MulMonotone(p, Quot(before, base) * base, before);
    assert (p * base) * Quot(before, base) == p * (Quot(before, base) * base);
  }

  // The loop that prints the numbery parts of a value with n digits.
  method PrintDigits(v0: nat, p0: nat, base: nat, upper: bool, ghost n: nat) returns (out: string)
    requires 2 <= base <= 16 && 1 <= n && p0 == Pow(base, n - 1) && v0 < Pow(base, n)
    ensures out == Tail(v0, n, base, upper)
  {
    var v: nat, p: nat := v0, p0;
    ghost var k := n;
    out := "";
    NoTail(v, base, upper);
    PowPositive(base, n - 1);
    hide *;
    while p > 0
      invariant p == if k > 0 then Pow(base, k - 1) else 0
      invariant k > 0 ==> v < Pow(base, k)
      invariant out + Tail(v, k, base, upper) == Tail(v0, n, base, upper)
      decreases p
    {
      TailStep(v, k, base, upper);
      out := out + [DigitChar(Quot(v, p), upper)];
      v, p, k := Rem(v, p), Quot(p, base), k - 1;
    }
    PowersPositive(base, k);
    NoTail(v, base, upper);
  }

  lemma NoTail(v: nat, base: nat, upper: bool)
    requires 2 <= base <= 16
    ensures Tail(v, 0, base, upper) == []
  {}

  lemma PowersPositive(base: nat, k: nat)
    requires 1 <= base
    ensures k > 0 ==> Pow(base, k - 1) > 0
  {
    if k > 0 { PowPositive(base, k - 1); }
  }

  // doIntegerPrint.
  method DoIntegerPrint(arg: nat, fmtBase: nat, fmtSigned: bool, fmtCase: bool, fmtLeadingZero: bool, width: int)
    returns (out: string)
    requires arg < U32 && 2 <= fmtBase <= 16
    ensures out == IntegerText(arg, fmtBase, fmtSigned, fmtCase, fmtLeadingZero, width)
  {
    hide Text; hide Tail; hide Pow; hide Repeat;
    var v, sign, fmtBeforeDecimal := arg, false, width;
    if fmtSigned && v >= 0x8000_0000 {
      v := (0xFFFF_FFFF - v + 1) % U32;  // ~v + 1
      sign := true;
    }
    assert v == Magnitude(arg, fmtSigned) && sign == Negative(arg, fmtSigned);
    hide Magnitude; hide Negative;
    var digitCount, p := CountDigits(v, fmtBase, fmtCase);
    fmtBeforeDecimal := fmtBeforeDecimal - digitCount;
    out := "";
    var padding;
    if fmtLeadingZero {
      if sign {
        out := out + "-";
        fmtBeforeDecimal := fmtBeforeDecimal - 1;
      }
      padding := RepChar('0', fmtBeforeDecimal);
      out := out + padding;
    } else {
      if sign {
        fmtBeforeDecimal := fmtBeforeDecimal - 1;
      }
      padding := RepChar(' ', fmtBeforeDecimal);
      out := out + padding;
      if sign {
        out := out + "-";
      }
    }
    assert out == if fmtLeadingZero then (if sign then "-" else "") + padding else padding + if sign then "-" else "";
    WholeTail(v, fmtBase, fmtCase);
    var digits := PrintDigits(v, p, fmtBase, fmtCase, digitCount);
    out := out + digits;
  }

  // ----- what the text means

  // Character by character: blanks, a minus for a negative number, zeros, and digits that begin with
  // 0 only for zero. There is padding only where it fills the text up to the width.
  ghost predicate LaidOut(s: string, blanks: nat, zeros: nat, v: nat, signed: bool,
                          base: nat, upper: bool, width: int) {
    var negative := signed && v >= 0x8000_0000;
    var sign := blanks + if negative then 1 else 0;
    var first := sign + zeros;
    && first < |s|
    && (forall i :: 0 <= i < blanks ==> s[i] == ' ')
    && (negative ==> s[blanks] == '-')
    && (forall i :: sign <= i < first ==> s[i] == '0')
    && (forall i :: first <= i < |s| ==> IsDigit(s[i], base, upper))
    && (s[first] == '0' <==> v == 0)
    && width <= |s| && (blanks + zeros > 0 ==> |s| == width)
  }

  lemma PiecesLaidOut(blanks: nat, minus: string, zeros: nat, digits: string,
                      v: nat, signed: bool, base: nat, upper: bool, width: int)
    requires digits != [] && (digits[0] == '0' <==> v == 0)
    requires forall i :: 0 <= i < |digits| ==> IsDigit(digits[i], base, upper)
    requires minus == if signed && v >= 0x8000_0000 then "-" else ""
    requires var n := blanks + |minus| + zeros + |digits|; width <= n && (blanks + zeros > 0 ==> n == width)
    ensures LaidOut(Repeat(' ', blanks) + minus + Repeat('0', zeros) + digits, blanks, zeros,
                    v, signed, base, upper, width)
  {
    var head := Repeat(' ', blanks) + minus + Repeat('0', zeros);
    var s := head + digits;
    hide IsDigit;
    forall i | |head| <= i < |s| ensures IsDigit(s[i], base, upper) { assert s[i] == digits[i - |head|]; }
  }

  lemma PadIsRepeat(minus: string, pad: int, digits: string)
    ensures var n := if pad > 0 then pad else 0;
            && minus + Repeat('0', pad) + digits == Repeat(' ', 0) + minus + Repeat('0', n) + digits
            && Repeat(' ', pad) + minus + digits == Repeat(' ', n) + minus + Repeat('0', 0) + digits
  {}

  lemma DigitFacts(v: nat, base: nat, signed: bool, upper: bool)
    requires v < U32 && 2 <= base <= 16
    ensures var digits := Text(Magnitude(v, signed), base, upper);
            (digits[0] == '0' <==> v == 0) && forall i :: 0 <= i < |digits| ==> IsDigit(digits[i], base, upper)
  {
    ParseText(Magnitude(v, signed), base, upper);
    TextIsDigits(Magnitude(v, signed), base, upper);
  }

  lemma IntegerShape(v: nat, base: nat, signed: bool, upper: bool, zeros: bool, width: int)
    returns (b: nat, z: nat)
    requires v < U32 && 2 <= base <= 16
    ensures if zeros then b == 0 else z == 0
    ensures LaidOut(IntegerText(v, base, signed, upper, zeros, width), b, z, v, signed, base, upper, width)
  {
    hide Text; hide IsDigit; hide LaidOut; hide Repeat; hide Magnitude;
    var digits := Text(Magnitude(v, signed), base, upper);
    var minus := if Negative(v, signed) then "-" else "";
    var pad := width - |digits| - |minus|;
    var n: nat := if pad > 0 then pad else 0;
    b, z := if zeros then 0 else n, if zeros then n else 0;
    DigitFacts(v, base, signed, upper);
    PiecesLaidOut(b, minus, z, digits, v, signed, base, upper, width);
    PadIsRepeat(minus, pad, digits);
  }

  // The integer printer with its whole promise: the layout that the flags ask for.
  method PrintInteger(arg: nat, fmtBase: nat, fmtSigned: bool, fmtCase: bool, fmtLeadingZero: bool, width: int)
    returns (out: string)
    requires arg < U32 && 2 <= fmtBase <= 16
    ensures out == IntegerText(arg, fmtBase, fmtSigned, fmtCase, fmtLeadingZero, width)
    ensures exists blanks: nat, zeros: nat ::
              && LaidOut(out, blanks, zeros, arg, fmtSigned, fmtBase, fmtCase, width)
              && if fmtLeadingZero then blanks == 0 else zeros == 0
  {
    ghost var blanks, zeros := IntegerShape(arg, fmtBase, fmtSigned, fmtCase, fmtLeadingZero, width);
    hide LaidOut; hide IntegerText;
    out := DoIntegerPrint(arg, fmtBase, fmtSigned, fmtCase, fmtLeadingZero, width);
  }

  lemma TextWidth(v: nat, base: nat, signed: bool, upper: bool, zeros: bool, width: int)
    requires v < U32 && 2 <= base <= 16
    ensures var n := |Text(Magnitude(v, signed), base, upper)| + if Negative(v, signed) then 1 else 0;
            |IntegerText(v, base, signed, upper, zeros, width)| == if width > n then width else n
  {}

  // Reading a number back: spaces, an optional minus, digits.
  function ReadInteger(s: string, base: nat): int {
    if s == [] then 0
    else if s[0] == ' ' then ReadInteger(s[1..], base)
    else if s[0] == '-' then -(Parse(s[1..], base) as int)
    else Parse(s, base)
  }

  lemma {:induction false} ReadSkipsSpaces(n: nat, t: string, base: nat)
    ensures ReadInteger(Repeat(' ', n) + t, base) == ReadInteger(t, base)
  {
    if n == 0 {
      assert Repeat(' ', 0) + t == t;
    } else {
      assert (Repeat(' ', n) + t)[1..] == Repeat(' ', n - 1) + t;
      ReadSkipsSpaces(n - 1, t, base);
    }
  }

  lemma {:induction false} ParseSkipsZeros(n: nat, t: string, base: nat)
    ensures Parse(Repeat('0', n) + t, base) == Parse(t, base)
    decreases n + |t|
  {
    var z := Repeat('0', n);
    if t != [] {
      assert (z + t)[..|z + t| - 1] == z + t[..|t| - 1];
      ParseSkipsZeros(n, t[..|t| - 1], base);
    } else if n > 0 {
      assert (z + t)[..n - 1] == Repeat('0', n - 1) + t;
      ParseSkipsZeros(n - 1, t, base);
    }
  }

  lemma {:induction false} TextStart(v: nat, base: nat, upper: bool)
    requires 2 <= base <= 16
    ensures Text(v, base, upper)[0] != ' ' && Text(v, base, upper)[0] != '-'
    decreases v
  {
    if v >= base { TextStart(Quot(v, base), base, upper); }
  }

  lemma ReadZeroPadded(digits: string, minus: string, n: nat, base: nat)
    requires digits != [] && digits[0] != ' ' && digits[0] != '-' && (minus == "-" || minus == "")
    ensures ReadInteger(minus + Repeat('0', n) + digits, base)
            == if minus == "-" then -(Parse(digits, base) as int) else Parse(digits, base)
  {
    hide Parse; hide ReadInteger;
    var body := Repeat('0', n) + digits;
    ParseSkipsZeros(n, digits, base);
    ReadSigned(body, base);
    assert minus + Repeat('0', n) + digits == minus + body;
  }

  lemma ReadSpacePadded(digits: string, minus: string, n: nat, base: nat)
    requires digits != [] && digits[0] != ' ' && digits[0] != '-' && (minus == "-" || minus == "")
    ensures ReadInteger(Repeat(' ', n) + minus + digits, base)
            == if minus == "-" then -(Parse(digits, base) as int) else Parse(digits, base)
  {
    hide Parse; hide ReadInteger;
    var body := minus + digits;
    ReadSkipsSpaces(n, body, base);
    ReadSigned(digits, base);
    assert Repeat(' ', n) + minus + digits == Repeat(' ', n) + body;
  }

  lemma ReadSigned(body: string, base: nat)
    requires body != [] && body[0] != ' ' && body[0] != '-'
    ensures ReadInteger("-" + body, base) == -(Parse(body, base) as int)
    ensures ReadInteger("" + body, base) == Parse(body, base)
  {
    assert ("-" + body)[1..] == body;
    assert "" + body == body;
  }

  // Whatever the base, the sign, the case, the padding and the width: the text reads back as the value.
  lemma ReadsBack(v: nat, base: nat, signed: bool, upper: bool, zeros: bool, width: int)
    requires v < U32 && 2 <= base <= 16
    ensures ReadInteger(IntegerText(v, base, signed, upper, zeros, width), base) == Value(v, signed)
  {
    var m := Magnitude(v, signed);
    ParseText(m, base, upper);
    TextStart(m, base, upper);
    hide Text; hide Parse; hide ReadInteger; hide Magnitude; hide Repeat;
    var minus := if Negative(v, signed) then "-" else "";
    var pad := width - |Text(m, base, upper)| - |minus|;
    var n := if pad > 0 then pad else 0;
    NoNegativePadding(pad);
    if zeros {
      ReadZeroPadded(Text(m, base, upper), minus, n, base);
    } else {
      ReadSpacePadded(Text(m, base, upper), minus, n, base);
    }
  }

  lemma NoNegativePadding(pad: int)
    ensures forall c :: Repeat(c, pad) == Repeat(c, if pad > 0 then pad else 0)
  {}
}
