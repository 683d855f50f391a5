/** The fields that the parser finds in a directive, against what the standard reads in it. */
module StandardFields {
  import opened Words
  import opened Numerals
  import opened Ntoa
  import opened NtoaProps
  import opened Printf
  import opened Directives
  import opened Conformance
  import S = Standard

  lemma DigitsAre(n: nat, base: nat, c: char)
    requires 2 <= base <= 16
    ensures Digits(n, base, c == 'X') == Numeral(n, base, S.DigitTable(c))
  {
    DigitsAreNumeral(n, base, c == 'X', S.DigitTable(c));
  }

  /** The parser's numbers, against the directive's. */
  lemma AmountsAre(d: Directive, args: Args, at: nat, used: nat, precision: bool)
    ensures var a := Fields(d, args, at, used, precision);
            && a.width == S.Width(d, args, used) && a.used == S.ArgumentAt(d, used)
            && a.prec == S.AtLeast(S.AskedPrecision(d, args, used))
    ensures AmountOf(d.width, args, used) == S.SignedWidth(d, args, used)
    ensures NegativePrecision(d, args, used) <==> d.prec.Some? && S.AskedPrecision(d, args, used).None?
    ensures d.prec.None? ==> S.AskedPrecision(d, args, used).None?
  {
    IntIs(args.stack(used));
    IntIs(args.stack(used + S.WidthWords(d)));
    hide SignedWord, S.Int, Added, LengthFlags;
  }

  lemma IntIs(w: Word)
    ensures SignedWord(w, 0x8000_0000) == S.Int(w)
    ensures S.Int(w) < 0 <==> w >= 0x8000_0000
  {
  }

  /** The parser's flags for this specifier, against the directive's characters. */
  lemma FlagsAre(d: Directive, c: char, args: Args, at: nat, used: nat)
    requires IsInteger(c)
    ensures var f, prec := IntegerFlags(c, AskedHead(d, args, at, used).flags), S.AskedPrecision(d, args, used);
            && f.left == S.IsLeft(d, args, used) && f.precision == prec.Some? && f.zeropad == S.ZerosFill(d, prec)
            && f.plus == (S.IsSigned(c) && '+' in d.flags) && f.space == (S.IsSigned(c) && ' ' in d.flags)
            && f.uppercase == (c == 'X')
  {
    AmountsAre(d, args, at, used, Given(d, args, used));
    WrittenFlags(d, args, at, used, Given(d, args, used));
    hide NegativePrecision, S.AskedPrecision, Fields, AmountOf, S.SignedWidth;
  }

  lemma WrittenFlags(d: Directive, args: Args, at: nat, used: nat, precision: bool)
    ensures var f := Fields(d, args, at, used, precision).flags;
            && f.left == ('-' in d.flags || AmountOf(d.width, args, used) < 0)
            && f.precision == precision && f.zeropad == ('0' in d.flags)
            && f.plus == ('+' in d.flags) && f.space == (' ' in d.flags) && !f.uppercase
  {
    hide AmountOf, NegativePrecision, Precision;
  }

  /** The argument and its words. */
  lemma ArgumentIs(d: Directive, c: char, args: Args, at: nat, used: nat, precision: bool)
    requires IsInteger(c)
    ensures var f := IntegerFlags(c, Fields(d, args, at, used, precision).flags);
            IntegerArg(c, f, args, S.ArgumentAt(d, used)) ==
            (S.Argument(c, d.length, args, S.ArgumentAt(d, used)), S.ArgumentWords(d.length))
  {
    var f := IntegerFlags(c, Fields(d, args, at, used, precision).flags);
    LengthsAre(d, args, at, used, precision);
    hide Fields, AskedHead, S.ArgumentAt;
    ArgumentOf(c, f, d.length, args, S.ArgumentAt(d, used));
  }

  lemma ArgumentOf(c: char, f: Flags, length: Length, args: Args, at: nat)
    requires IsInteger(c) && f.long == (length.L? || length.LL? || length.T? || length.Z?)
    requires f.long_long == (length.LL? || length.J?)
    requires f.short == (length.H? || length.HH?) && f.char_ == length.HH?
    ensures IntegerArg(c, f, args, at) == (S.Argument(c, length, args, at), S.ArgumentWords(length))
  {
    if length.LL? || length.J? {
      LongArgument(c, f, length, args, at);
    } else {
      WordArgument(c, f, length, args, at);
    }
    hide IntegerArg, S.Argument;
  }

  lemma LongArgument(c: char, f: Flags, length: Length, args: Args, at: nat)
    requires IsInteger(c) && f.long_long && (length.LL? || length.J?)
    ensures IntegerArg(c, f, args, at) == (S.Argument(c, length, args, at), S.ArgumentWords(length))
  {
    var raw := S.Raw(args, at, length);
    assert raw % 0x1_0000_0000_0000_0000 == raw;
    hide SignedWord;
  }

  lemma WordArgument(c: char, f: Flags, length: Length, args: Args, at: nat)
    requires IsInteger(c) && !f.long_long && !length.LL? && !length.J?
    requires f.long == (length.L? || length.T? || length.Z?)
    requires f.short == (length.H? || length.HH?) && f.char_ == length.HH?
    ensures IntegerArg(c, f, args, at) == (S.Argument(c, length, args, at), S.ArgumentWords(length))
  {
    var w, m := args.stack(at), S.Modulus(S.Bits(length));
    assert S.Raw(args, at, length) == w;
    Reduced(w, 0x80);
    Reduced(w, 0x8000);
    Reduced(w, 0x8000_0000);
    hide SignedWord;
    assert m == if f.char_ then 0x100 else if f.short then 0x1_0000 else 0x1_0000_0000;
  }

  lemma Reduced(w: Word, half: nat)
    requires half in {0x80, 0x8000, 0x8000_0000}
    ensures var r := w % (2 * half); SignedWord(w, half) == if 2 * r >= 2 * half then r - 2 * half else r
  {
  }

  lemma LengthsAre(d: Directive, args: Args, at: nat, used: nat, precision: bool)
    ensures var f := Fields(d, args, at, used, precision).flags;
            && f.long == (d.length.L? || d.length.LL? || d.length.T? || d.length.Z?)
            && f.long_long == (d.length.LL? || d.length.J?)
            && f.short == (d.length.H? || d.length.HH?) && f.char_ == d.length.HH?
  {
    hide AmountOf, NegativePrecision, Precision;
  }

  /** Digits and zeros up to the precision are the same, whichever of them the number 0 shows. */
  lemma BodyIs(c: char, v: int, prec: Option<nat>, f: Flags)
    requires IsInteger(c) && f.precision == prec.Some? && f.uppercase == (c == 'X')
    ensures var digits, shown := S.NumberDigits(c, v, prec), Shown(S.Abs(v), BaseOf(c), f);
            && Fill('0', S.AtLeast(prec) - |digits|) + digits == Fill('0', S.AtLeast(prec) - |shown|) + shown
            && |shown| == S.Significant(c, v, prec)
  {
    DigitsAre(S.Abs(v), BaseOf(c), c);
    if v == 0 && prec.Some? {
      NumeralOfZero(c);
      ZeroDigit(prec.value);
    }
    hide Digits, Numeral, S.DigitTable, Fill;
  }

  lemma NumeralOfZero(c: char)
    requires IsInteger(c)
    ensures Numeral(0, S.Base(c), S.DigitTable(c)) == "0"
  {
  }

  lemma ZeroDigit(n: nat)
    ensures n > 0 ==> Fill('0', n - 1) + "0" == Fill('0', n) + ""
  {
    assert Fill('0', n) + "" == Fill('0', n);
  }

  lemma FieldIs(body: string, sign: string, n: nat, negative: bool, prec: nat, width: nat, f: Flags)
    requires sign == SignText(negative, f)
    ensures S.InField(body, sign, width, f.left, f.zeropad) == Field(body, sign, width, f)
    ensures S.Fits(n, sign, prec, width, f.left, f.zeropad) <==> Conforms(n, negative, prec, width, f)
  {
    hide Fill;
  }

  lemma SignIs(d: Directive, c: char, v: int, f: Flags)
    requires f.plus == (S.IsSigned(c) && '+' in d.flags) && f.space == (S.IsSigned(c) && ' ' in d.flags)
    ensures S.Sign(d, c, v) == SignText(v < 0, f)
  {
  }

  /** The text that the standard asks for is the one of the fields. */
  lemma TextIs(d: Directive, c: char, args: Args, at: nat, used: nat)
    requires IsInteger(c)
    ensures S.IntegerText(d, c, args, used) == StandardConversion(c, args, AskedHead(d, args, at, used))
  {
    hide Fields, Given, IntegerFlags, IntegerArg, S.Argument, S.AskedPrecision, S.Width, S.IsLeft, S.ArgumentAt,
         NegativePrecision, Shown, S.Significant, S.ZerosFill, S.Fits, Conforms, SignText, S.Sign, S.NumberDigits, Fill,
         Field, S.InField, StandardConversion, S.IntegerText, S.IsSigned;
    AmountsAre(d, args, at, used, Given(d, args, used));
    FlagsAre(d, c, args, at, used);
    ArgumentIs(d, c, args, at, used, Given(d, args, used));
    var a := AskedHead(d, args, at, used);
    var f := IntegerFlags(c, a.flags);
    var v, prec := S.Argument(c, d.length, args, S.ArgumentAt(d, used)), S.AskedPrecision(d, args, used);
    var digits := S.NumberDigits(c, v, prec);
    BodyIs(c, v, prec, f);
    SignIs(d, c, v, f);
    var body := Fill('0', a.prec - |digits|) + digits;
    FieldIs(body, S.Sign(d, c, v), 0, v < 0, a.prec, a.width, f);
    hide *;
    TextOf(d, c, args, used, v, prec, body);
    ConversionOf(c, args, a, f, v, body);
  }

  /** IntegerText, from its parts. */
  lemma TextOf(d: Directive, c: char, args: Args, used: nat, v: int, prec: Option<nat>, body: string)
    requires IsInteger(c) && v == S.Argument(c, d.length, args, S.ArgumentAt(d, used))
    requires prec == S.AskedPrecision(d, args, used)
    requires var digits := S.NumberDigits(c, v, prec); body == Fill('0', S.AtLeast(prec) - |digits|) + digits
    ensures S.IntegerText(d, c, args, used) ==
            S.InField(body, S.Sign(d, c, v), S.Width(d, args, used), S.IsLeft(d, args, used), S.ZerosFill(d, prec))
  {
    hide S.Argument, S.NumberDigits, S.InField, S.Sign, S.Width, S.IsLeft, S.ZerosFill, Fill;
  }

  /** StandardConversion, from its parts. */
  lemma ConversionOf(c: char, args: Args, a: Head, f: Flags, v: int, body: string)
    requires IsInteger(c) && f == IntegerFlags(c, a.flags) && v == IntegerArg(c, f, args, a.used).0
    requires var shown := Shown(S.Abs(v), BaseOf(c), f); body == Fill('0', a.prec - |shown|) + shown
    ensures StandardConversion(c, args, a) == Field(body, SignText(v < 0, f), a.width, f)
  {
    hide IntegerFlags, IntegerArg, Fill, Field, SignText, Digits;
  }

  /** The condition under which it is printed is the one of the fields. */
  lemma ConditionIs(d: Directive, c: char, args: Args, at: nat, used: nat)
    requires IsInteger(c)
    ensures S.PrintsInteger(d, c, args, used) <==>
            PrintsStandard(c, args, AskedHead(d, args, at, used), NegativePrecision(d, args, used))
  {
    hide Fields, Given, IntegerFlags, IntegerArg, S.Argument, S.AskedPrecision, S.Width, S.IsLeft, S.ArgumentAt,
         NegativePrecision, Shown, S.Significant, S.Fits, Conforms, SignText, S.Sign, S.NumberDigits, Fill;
    AmountsAre(d, args, at, used, Given(d, args, used));
    FlagsAre(d, c, args, at, used);
    ArgumentIs(d, c, args, at, used, Given(d, args, used));
    var a := AskedHead(d, args, at, used);
    var f := IntegerFlags(c, a.flags);
    var v, prec := S.Argument(c, d.length, args, S.ArgumentAt(d, used)), S.AskedPrecision(d, args, used);
    BodyIs(c, v, prec, f);
    SignIs(d, c, v, f);
    FieldIs("", S.Sign(d, c, v), S.Significant(c, v, prec), v < 0, a.prec, a.width, f);
    assert prec.None? ==> (f.zeropad <==> '0' in d.flags);
  }
}
