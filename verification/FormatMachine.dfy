/** alt_log_private_printf as a whole: its three-state format machine, and the
    format language that the machine implements. */
module FormatMachine {
  import opened Wrappers
  import opened Digits
  import opened LogPrintf

  type Word = v: nat | v < U32 witness 0

  datatype Arg = Int(v: Word) | Str(s: string)

  datatype Mode = Chars | FirstFmtChar | OtherFmtChar

  // The variables of the loop; `before` and `after` are the digits around the dot, -1 for none.
  datatype Machine = Machine(mode: Mode, zeros: bool, long: bool, before: int, after: int, args: seq<Arg>, out: string)

  function Start(args: seq<Arg>): Machine { Machine(Chars, false, false, 0, 0, args, "") }

  // va_arg. An argument of the wrong kind is undefined in C; here it reads as 0 or as "".
  function IntArg(args: seq<Arg>): Word { if args != [] && args[0].Int? then args[0].v else 0 }

  function StrArg(args: seq<Arg>): string { if args != [] && args[0].Str? then args[0].s else "" }

  function Rest(args: seq<Arg>): seq<Arg> { if args == [] then [] else args[1..] }

  predicate Converts(c: char) { c in "diuoxXcs" }

  // What a conversion letter prints for the argument in front.
  function Converted(c: char, zeros: bool, width: int, args: seq<Arg>): string {
    match c
    case 'd' => IntegerText(IntArg(args), 10, true, false, zeros, width)
    case 'i' => IntegerText(IntArg(args), 10, true, false, zeros, width)
    case 'u' => IntegerText(IntArg(args), 10, false, false, zeros, width)
    case 'o' => IntegerText(IntArg(args), 8, false, false, zeros, width)
    case 'x' => IntegerText(IntArg(args), 16, false, false, zeros, width)
    case 'X' => IntegerText(IntArg(args), 16, false, true, zeros, width)
    case 'c' => Repeat(' ', width - 1) + [(IntArg(args) % 256) as char]
    case 's' => Repeat(' ', width - |StrArg(args)|) + StrArg(args)
    case _ => ""
  }

  function StepOther(m: Machine, c: char): Machine {
    if c == '.' then m.(mode := OtherFmtChar, after := 0)
    else if '0' <= c <= '9' then
      var d := c as int - 48;
      if m.after < 0 then m.(mode := OtherFmtChar, before := (if m.before < 0 then 0 else m.before * 10) + d)
      else m.(mode := OtherFmtChar, after := m.after * 10 + d)
    else if c == 'l' then m.(mode := OtherFmtChar, long := true)
    else m.(mode := Chars, out := m.out + Converted(c, m.zeros, m.before, m.args),
            args := if Converts(c) then Rest(m.args) else m.args)
  }

  function Step(m: Machine, c: char): Machine {
    match m.mode
    case Chars =>
      if c == '%' then m.(mode := FirstFmtChar, zeros := false, long := false, before := -1, after := -1)
      else m.(out := m.out + [c])
    case FirstFmtChar =>
      if c == '0' then m.(mode := OtherFmtChar, zeros := true)
      else if c == '%' then m.(mode := Chars, out := m.out + [c])
      else StepOther(m, c)
    case OtherFmtChar => StepOther(m, c)
  }

  // Over the characters before the terminating null.
  function Run(m: Machine, fmt: string): Machine
    decreases |fmt|
  {
    if fmt == [] then m else Run(Step(m, fmt[0]), fmt[1..])
  }

  lemma {:induction false} RunConcat(m: Machine, s: string, t: string)
    ensures Run(m, s + t) == Run(Run(m, s), t)
    decreases |s|
  {
    if s == [] {
      assert s + t == t;
    } else {
      assert (s + t)[0] == s[0] && (s + t)[1..] == s[1..] + t;
      RunConcat(Step(m, s[0]), s[1..], t);
    }
  }

  lemma RunOne(m: Machine, c: char)
    ensures Run(m, [c]) == Step(m, c)
  {
    assert Run(Step(m, c), [c][1..]) == Step(m, c);
  }

  // ----- the loop of the source

  method Printf(fmt: string, args: seq<Arg>) returns (out: string)
    ensures out == Run(Start(args), fmt).out
  {
    var mode, fmtLeadingZero, fmtLong, fmtBeforeDecimal, fmtAfterDecimal := Chars, false, false, 0, 0;
    var rest := args;
    out := "";
    var w: nat := 0;
    while w < |fmt|
      invariant w <= |fmt|
      invariant Run(Start(args), fmt)
             == Run(Machine(mode, fmtLeadingZero, fmtLong, fmtBeforeDecimal, fmtAfterDecimal, rest, out), fmt[w..])
    {
      var c := fmt[w];
      w := w + 1;
      if mode == Chars {
        if c == '%' {
          fmtLeadingZero, fmtLong, fmtBeforeDecimal, fmtAfterDecimal := false, false, -1, -1;
          mode := FirstFmtChar;
        } else {
          out := out + [c];
        }
      } else if mode == FirstFmtChar && c == '0' {
        fmtLeadingZero := true;
        mode := OtherFmtChar;
      } else if mode == FirstFmtChar && c == '%' {
        out := out + [c];
        mode := Chars;
      } else {
        mode := OtherFmtChar;
        if c == '.' {
          fmtAfterDecimal := 0;
        } else if '0' <= c <= '9' {
          var d := c as int - 48;
          if fmtAfterDecimal < 0 {
            if fmtBeforeDecimal < 0 {
              fmtBeforeDecimal := 0;
            } else {
              fmtBeforeDecimal := fmtBeforeDecimal * 10;
            }
            fmtBeforeDecimal := fmtBeforeDecimal + d;
          } else {
            fmtAfterDecimal := fmtAfterDecimal * 10 + d;
          }
        } else if c == 'l' {
          fmtLong := true;
        } else {
          var text;
          text, rest := PrintConversion(c, fmtLeadingZero, fmtBeforeDecimal, rest);
          out := out + text;
          mode := Chars;
        }
      }
    }
  }

  // The switch on the conversion letter.
  method PrintConversion(c: char, fmtLeadingZero: bool, fmtBeforeDecimal: int, args: seq<Arg>)
    returns (out: string, rest: seq<Arg>)
    ensures out == Converted(c, fmtLeadingZero, fmtBeforeDecimal, args)
    ensures rest == if Converts(c) then Rest(args) else args
    ensures rest == if args != [] && (c == 'd' || c == 'i' || c == 'u' || c == 'o' || c == 'x' || c == 'X' || c == 'c'
                                      || c == 's') then args[1..] else args
  {
    rest := if Converts(c) then Rest(args) else args;
    match c {
      case 'd' => out := PrintInteger(IntArg(args), 10, true, false, fmtLeadingZero, fmtBeforeDecimal);
      case 'i' => out := PrintInteger(IntArg(args), 10, true, false, fmtLeadingZero, fmtBeforeDecimal);
      case 'u' => out := PrintInteger(IntArg(args), 10, false, false, fmtLeadingZero, fmtBeforeDecimal);
      case 'o' => out := PrintInteger(IntArg(args), 8, false, false, fmtLeadingZero, fmtBeforeDecimal);
      case 'x' => out := PrintInteger(IntArg(args), 16, false, false, fmtLeadingZero, fmtBeforeDecimal);
      case 'X' => out := PrintInteger(IntArg(args), 16, false, true, fmtLeadingZero, fmtBeforeDecimal);
      case 'c' =>
        out := RepChar(' ', fmtBeforeDecimal - 1);
        out := out + [(IntArg(args) % 256) as char];
      case 's' =>
        out := RepChar(' ', fmtBeforeDecimal - |StrArg(args)|);
        out := out + StrArg(args);
      case _ => out := "";
    }
  }

  // ----- what a conversion prints

  // d and i print the argument as a signed decimal number, u as an unsigned one, o in octal, x and X
  // in hexadecimal with small and with capital letters.
  lemma NumbersReadBack(c: char, zeros: bool, width: int, v: Word, args: seq<Arg>)
    requires args != [] && args[0] == Int(v)
    ensures var s := Converted(c, zeros, width, args);
            && (c == 'd' || c == 'i' ==> ReadInteger(s, 10) == if v < 0x8000_0000 then v else v - U32)
            && (c == 'u' ==> ReadInteger(s, 10) == v)
            && (c == 'o' ==> ReadInteger(s, 8) == v)
            && (c == 'x' || c == 'X' ==> ReadInteger(s, 16) == v)
            && (c == 'x' ==> forall i :: 0 <= i < |s| ==> !('A' <= s[i] <= 'F'))
            && (c == 'X' ==> forall i :: 0 <= i < |s| ==> !('a' <= s[i] <= 'f'))
  {
    hide ReadInteger; hide IntegerText;
    match c
    case 'd' => ReadsBack(v, 10, true, false, zeros, width);
    case 'i' => ReadsBack(v, 10, true, false, zeros, width);
    case 'u' => ReadsBack(v, 10, false, false, zeros, width);
    case 'o' => ReadsBack(v, 8, false, false, zeros, width);
    case 'x' =>
      ReadsBack(v, 16, false, false, zeros, width);
      OneCase(v, 16, false, false, zeros, width);
    case 'X' =>
      ReadsBack(v, 16, false, true, zeros, width);
      OneCase(v, 16, false, true, zeros, width);
    case _ =>
  }

  // The zero flag and the width lay the number out as the integer printer promises.
  function BaseOf(c: char): nat { if c == 'o' then 8 else if c == 'x' || c == 'X' then 16 else 10 }

  predicate IsSigned(c: char) { c == 'd' || c == 'i' }

  predicate Capitals(c: char) { c == 'X' }

  lemma NumbersLaidOut(c: char, zeros: bool, width: int, v: Word, args: seq<Arg>) returns (b: nat, z: nat)
    requires c in "diuoxX" && args != [] && args[0] == Int(v)
    ensures if zeros then b == 0 else z == 0
    ensures LaidOut(Converted(c, zeros, width, args), b, z, v, IsSigned(c), BaseOf(c), Capitals(c), width)
  {
    b, z := IntegerShape(v, BaseOf(c), IsSigned(c), Capitals(c), zeros, width);
    hide LaidOut; hide IntegerText;
  }

  lemma OneCase(v: Word, base: nat, signed: bool, upper: bool, zeros: bool, width: int)
    requires 2 <= base <= 16
    ensures var s := IntegerText(v, base, signed, upper, zeros, width);
            forall i :: 0 <= i < |s| ==> if upper then !('a' <= s[i] <= 'f') else !('A' <= s[i] <= 'F')
  {
    var b, z := IntegerShape(v, base, signed, upper, zeros, width);
    hide IntegerText;
  }

  // c prints the argument as a character and s as a string, both after blanks that fill the width.
  lemma TextsAreRight(zeros: bool, width: int, v: Word, t: string, args: seq<Arg>)
    requires args != []
    ensures args[0] == Int(v) ==>
              var s := Converted('c', zeros, width, args);
              && |s| == (if width > 1 then width else 1) && s[|s| - 1] as int == v % 256
              && forall i :: 0 <= i < |s| - 1 ==> s[i] == ' '
    ensures args[0] == Str(t) ==>
              var s := Converted('s', zeros, width, args);
              && |s| == (if width > |t| then width else |t|) && s[|s| - |t|..] == t
              && forall i :: 0 <= i < |s| - |t| ==> s[i] == ' '
  {
    assert (v % 256) as char as int == v % 256;
  }

  // ----- the format language

  // A literal character, %%, or a field: a zero flag, a width (0 for none), a dot with digits, an
  // `l`, and the letter that ends it.
  datatype Piece =
    | Lit(c: char)
    | Percent
    | Field(zeros: bool, width: nat, dot: bool, fraction: string, long: bool, conv: char)

  predicate Digit(c: char) { '0' <= c <= '9' }

  predicate AllDigits(s: string) { forall i :: 0 <= i < |s| ==> Digit(s[i]) }

  // Any letter may end a field; those that convert nothing print nothing.
  predicate EndsField(c: char) { c != '%' && c != '.' && c != 'l' && !Digit(c) }

  predicate WellFormed(p: Piece) {
    match p
    case Lit(c) => c != '%'
    case Percent => true
    case Field(_, _, _, fraction, _, conv) => AllDigits(fraction) && EndsField(conv)
  }

  function Width(width: nat): string { if width > 0 then Text(width, 10, false) else "" }

  function Dot(dot: bool, fraction: string): string { if dot then "." + fraction else "" }

  // How a piece is written in a format string.
  function Show(p: Piece): string {
    match p
    case Lit(c) => [c]
    case Percent => "%%"
    case Field(zeros, width, dot, fraction, long, conv) =>
      "%" + ((if zeros then "0" else "")
             + (Width(width) + (Dot(dot, fraction) + ((if long then "l" else "") + [conv]))))
  }

  function ShowAll(ps: seq<Piece>): string { if ps == [] then "" else Show(ps[0]) + ShowAll(ps[1..]) }

  // What a piece means: the digits behind a dot, and an `l`, make no difference.
  function Means(p: Piece, args: seq<Arg>): string {
    match p
    case Lit(c) => [c]
    case Percent => "%"
    case Field(zeros, width, _, _, _, conv) => Converted(conv, zeros, if width > 0 then width else -1, args)
  }

  predicate TakesArg(p: Piece) { p.Field? && Converts(p.conv) }

  function MeansAll(ps: seq<Piece>, args: seq<Arg>): string {
    if ps == [] then "" else Means(ps[0], args) + MeansAll(ps[1..], if TakesArg(ps[0]) then Rest(args) else args)
  }

  // The machine is inside a field, and has read the zero flag at most.
  predicate InField(m: Machine) {
    m.after == -1 && m.before == -1 && !m.long && (m.mode == OtherFmtChar || (m.mode == FirstFmtChar && !m.zeros))
  }

  // Reading the decimal digits of a positive width sets `before` to it.
  lemma {:induction false} RunWidth(m: Machine, width: nat)
    requires InField(m) && width > 0
    ensures Run(m, Text(width, 10, false)) == m.(mode := OtherFmtChar, before := width)
    decreases width
  {
    if width < 10 {
      CharDigitInverse(width, false);
      RunOne(m, DigitChar(width, false));
    } else {
      var q, r := Quot(width, 10), Rem(width, 10);
      CharDigitInverse(r, false);
      Divided(width, 10);
      RunWidth(m, q);
      RunConcat(m, Text(q, 10, false), [DigitChar(r, false)]);
      RunOne(m.(mode := OtherFmtChar, before := q), DigitChar(r, false));
    }
  }

  // Digits behind the dot go to `after` and nowhere else.
  lemma {:induction false} RunFraction(m: Machine, fraction: string)
    requires m.mode == OtherFmtChar && m.after >= 0 && AllDigits(fraction)
    ensures var m' := Run(m, fraction); m'.after >= 0 && m' == m.(after := m'.after)
    decreases |fraction|
  {
    if fraction != [] { RunFraction(Step(m, fraction[0]), fraction[1..]); }
  }

  lemma RunDot(m: Machine, dot: bool, fraction: string)
    requires m.mode != Chars && m.after == -1 && AllDigits(fraction)
    ensures var m' := Run(m, Dot(dot, fraction));
            && m'.mode != Chars
            && m' == m.(mode := m'.mode, after := m'.after) && (m'.mode != m.mode ==> m'.mode == OtherFmtChar)
  {
    if dot {
      RunConcat(m, ".", fraction);
      RunOne(m, '.');
      RunFraction(Step(m, '.'), fraction);
    }
  }

  // An optional `l` and the letter that ends the field.
  lemma RunEnd(m: Machine, long: bool, conv: char)
    requires m.mode != Chars && EndsField(conv)
    ensures var m' := Run(m, (if long then "l" else "") + [conv]);
            && m'.mode == Chars && m'.args == (if Converts(conv) then Rest(m.args) else m.args)
            && m'.out == m.out + Converted(conv, m.zeros, m.before, m.args)
  {
    var l := if long then "l" else "";
    RunConcat(m, l, [conv]);
    RunOne(m, 'l');
    RunOne(Run(m, l), conv);
  }

  // Everything behind the zero flag.
  lemma RunField(m: Machine, p: Piece)
    requires InField(m) && p.Field? && WellFormed(p)
    ensures var m' := Run(m, Width(p.width) + (Dot(p.dot, p.fraction) + ((if p.long then "l" else "") + [p.conv])));
            && m'.mode == Chars && m'.args == (if Converts(p.conv) then Rest(m.args) else m.args)
            && m'.out == m.out + Converted(p.conv, m.zeros, if p.width > 0 then p.width else -1, m.args)
  {
    var end := (if p.long then "l" else "") + [p.conv];
    if p.width > 0 { RunWidth(m, p.width); }
    RunConcat(m, Width(p.width), Dot(p.dot, p.fraction) + end);
    var m1 := Run(m, Width(p.width));
    assert m1.mode != Chars && m1.after == -1 && m1.before == if p.width > 0 then p.width else -1;
    hide Step; hide Converted; hide Run;
    RunConcat(m1, Dot(p.dot, p.fraction), end);
    RunDot(m1, p.dot, p.fraction);
    RunEnd(Run(m1, Dot(p.dot, p.fraction)), p.long, p.conv);
  }

  lemma RunPiece(m: Machine, p: Piece)
    requires m.mode == Chars && WellFormed(p)
    ensures var m' := Run(m, Show(p));
            && m'.mode == Chars && m'.args == (if TakesArg(p) then Rest(m.args) else m.args)
            && m'.out == m.out + Means(p, m.args)
  {
    match p
    case Lit(c) => RunOne(m, c);
    case Percent =>
      RunConcat(m, "%", "%");
      assert "%" + "%" == "%%";
      RunOne(m, '%');
      RunOne(Step(m, '%'), '%');
    case Field(zeros, width, dot, fraction, long, conv) =>
      var z := if zeros then "0" else "";
      var tail := Width(width) + (Dot(dot, fraction) + ((if long then "l" else "") + [conv]));
      RunConcat(m, "%", z + tail);
      RunOne(m, '%');
      var m1 := Step(m, '%');
      RunConcat(m1, z, tail);
      RunOne(m1, '0');
      RunField(Run(m1, z), p);
  }

  // Every format string of the language prints exactly what its pieces mean, in order.
  lemma {:induction false} RunMeaning(m: Machine, ps: seq<Piece>)
    requires m.mode == Chars && forall i :: 0 <= i < |ps| ==> WellFormed(ps[i])
    ensures Run(m, ShowAll(ps)).out == m.out + MeansAll(ps, m.args)
    decreases |ps|
  {
    Unfold(m, ps);
    hide *;
    if ps != [] {
      var m' := Run(m, Show(ps[0]));
      RunConcat(m, Show(ps[0]), ShowAll(ps[1..]));
      RunPiece(m, ps[0]);
      RunMeaning(m', ps[1..]);
      Regroup(m.out, Means(ps[0], m.args), MeansAll(ps[1..], m'.args));
    }
  }

  lemma Unfold(m: Machine, ps: seq<Piece>)
    ensures ps == [] ==> Run(m, ShowAll(ps)) == m && m.out + MeansAll(ps, m.args) == m.out
    ensures ps != [] ==> ShowAll(ps) == Show(ps[0]) + ShowAll(ps[1..])
    ensures ps != [] ==>
              MeansAll(ps, m.args)
              == Means(ps[0], m.args) + MeansAll(ps[1..], if TakesArg(ps[0]) then Rest(m.args) else m.args)
  {
    hide Show; hide Means;
  }

  lemma Regroup<T>(a: seq<T>, b: seq<T>, c: seq<T>)
    ensures (a + b) + c == a + (b + c)
  {}
}
