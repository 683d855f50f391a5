/** What the conversions of a format print, and the whole format, against the standard. */
module Formats {
  import opened Words
  import opened Numerals
  import opened Ntoa
  import opened NtoaProps
  import opened NtoaReads
  import opened Printf
  import opened Directives
  import opened Conformance
  import opened StandardFields
  import S = Standard

  /** An integer directive, with any stars and arguments, prints what the standard asks for exactly when
      PrintsInteger says so, and takes the argument's words. */
  lemma IntegerPrinted(d: Directive, c: char, args: Args, at: nat, used: nat)
    requires Writable(d) && InScope(d, c)
    ensures var (text, next) := Converted(c, args, HeadOf(d, args, at, used));
            && (text == S.IntegerText(d, c, args, used) <==> S.PrintsInteger(d, c, args, used))
            && next == S.ArgumentAt(d, used) + S.ArgumentWords(d.length)
  {
    hide Converted, Fields, S.IntegerText, S.PrintsInteger, StandardConversion, PrintsStandard;
    var h := HeadOf(d, args, at, used);
    AskedFieldsPrinted(d, c, args, at, used);
    TextIs(d, c, args, at, used);
    ConditionIs(d, c, args, at, used);
    WordsTaken(d, c, args, at, used);
  }

  lemma WordsTaken(d: Directive, c: char, args: Args, at: nat, used: nat)
    requires IsInteger(c)
    ensures Converted(c, args, HeadOf(d, args, at, used)).1 == S.ArgumentAt(d, used) + S.ArgumentWords(d.length)
  {
    hide IntegerArg, IntegerFlags, NumberText, Fields;
    AmountsAre(d, args, at, used, d.prec.Some?);
    ArgumentIs(d, c, args, at, used, d.prec.Some?);
  }

  /** The field that is left over is on the right or on the left. */
  lemma FieldSides(text: string, d: Directive, args: Args, at: nat, used: nat, precision: bool)
    ensures var h := Fields(d, args, at, used, precision);
            Justified(text, h.width, h.flags) == S.InWidth(text, d, args, used)
  {
    AmountsAre(d, args, at, used, precision);
    WrittenFlags(d, args, at, used, precision);
    hide Fields, Fill, AmountOf, S.SignedWidth;
  }

  /** 'c' prints one character in its field, and takes one word. */
  lemma CharPrinted(d: Directive, args: Args, at: nat, used: nat)
    ensures Converted('c', args, HeadOf(d, args, at, used)) == (S.CharText(d, args, used), S.ArgumentAt(d, used) + 1)
  {
    AmountsAre(d, args, at, used, d.prec.Some?);
    FieldSides([(args.stack(S.ArgumentAt(d, used)) % 256) as char], d, args, at, used, d.prec.Some?);
    hide Fields, Justified, S.InWidth, S.ArgumentAt, S.Width, S.AskedPrecision;
  }

  /** 's' prints the string, or as much of it as the precision allows, exactly when PrintsString says so. */
  lemma StringPrinted(d: Directive, args: Args, at: nat, used: nat)
    ensures var (text, next) := Converted('s', args, HeadOf(d, args, at, used));
            && (text == S.StringText(d, args, used) <==> S.PrintsString(d, args, used))
            && next == S.ArgumentAt(d, used) + 1
  {
    AmountsAre(d, args, at, used, d.prec.Some?);
    var s := args.memory(args.stack(S.ArgumentAt(d, used)));
    var h := HeadOf(d, args, at, used);
    WrittenFlags(d, args, at, used, d.prec.Some?);
    FieldSides(Cut(s, h), d, args, at, used, d.prec.Some?);
    FieldSides(s, d, args, at, used, d.prec.Some?);
    CutOff(s, h.width, h.flags, h.flags);
    hide Fields, Justified, S.InWidth, S.ArgumentAt, S.Width, S.AskedPrecision, AmountOf, NegativePrecision;
  }

  /** '%' prints itself, and so does any character that is no specifier; neither takes a word. */
  lemma OtherPrinted(d: Directive, c: char, args: Args, at: nat, used: nat)
    requires !IsInteger(c) && !IsFloat(c) && c !in {'c', 's', 'p'}
    ensures Converted(c, args, HeadOf(d, args, at, used)) == ([c], S.ArgumentAt(d, used))
  {
    AmountsAre(d, args, at, used, d.prec.Some?);
    hide Fields, S.ArgumentAt;
  }

  lemma {:induction false} HexLength(n: nat, k: nat)
    requires k >= 1 && n < Pow2(4 * k)
    ensures |Numeral(n, 16, "0123456789ABCDEF")| <= k
    decreases k
  {
    FourBits(k);
    hide Pow2;
    if n >= 16 {
      HexLength(n / 16, k - 1);
    }
  }

  lemma FourBits(k: nat)
    requires k >= 1
    ensures Pow2(4 * k) == 16 * Pow2(4 * (k - 1)) && Pow2(0) == 1
  {
    Pow2Sum(4, 4 * (k - 1));
    assert Pow2(4) == 16;
  }

  /** 'p' prints the word as eight capital hexadecimal digits, whatever the width is, if there are neither flags nor a
      precision. */
  lemma PointerPrinted(d: Directive, args: Args, at: nat, used: nat)
    requires d.flags == "" && d.prec.None? && !S.IsLeft(d, args, used)
    ensures var w := args.stack(S.ArgumentAt(d, used));
            var digits := Numeral(w, 16, "0123456789ABCDEF");
            && |digits| <= 8
            && Converted('p', args, HeadOf(d, args, at, used)) ==
               (Fill('0', 8 - |digits|) + digits, S.ArgumentAt(d, used) + 1)
  {
    hide Fields, S.ArgumentAt, Numeral, NumberText, S.AskedPrecision, S.Width, AmountOf, S.SignedWidth;
    var h, w := HeadOf(d, args, at, used), args.stack(S.ArgumentAt(d, used));
    AmountsAre(d, args, at, used, false);
    WrittenFlags(d, args, at, used, false);
    NoHash(d, args, at, used);
    EightDigits(w, h.flags.(zeropad := true, uppercase := true));
  }

  lemma EightDigits(w: Word, f: Flags)
    requires f.zeropad && f.uppercase && !f.left && !f.plus && !f.space && !f.hash && !f.precision
    ensures var digits := Numeral(w, 16, "0123456789ABCDEF");
            |digits| <= 8 && NumberText(w, false, 16, 0, 8, f) == Fill('0', 8 - |digits|) + digits
  {
    Pow2Values();
    HexLength(w, 8);
    DigitsAre(w, 16, 'X');
    hide Numeral, Digits, NumberText, Conforms, Field;
    NumberTextIsStandard(w, false, 16, 0, 8, f);
    FieldOfEight(Digits(w, 16, true), 8, f);
  }

  lemma NoHash(d: Directive, args: Args, at: nat, used: nat)
    requires d.flags == ""
    ensures var f := Fields(d, args, at, used, false).flags; !f.hash && !f.plus && !f.space
  {
    hide AmountOf, Precision;
  }

  lemma FieldOfEight(digits: string, width: nat, f: Flags)
    requires f.zeropad && !f.left && |digits| <= width <= BUFFER_SIZE && SignText(false, f) == ""
    ensures Field(Fill('0', 0 - |digits|) + digits, "", width, f) == Fill('0', width - |digits|) + digits
    ensures Conforms(|digits|, false, 0, width, f)
  {
    var body := Fill('0', 0 - |digits|) + digits;
    Nothing(Fill('0', 0 - |digits|), digits);
    assert body == digits;
    ZerosBefore(digits, width, f);
  }

  lemma ZerosBefore(digits: string, width: nat, f: Flags)
    requires f.zeropad && !f.left
    ensures Field(digits, "", width, f) == Fill('0', width - |digits|) + digits
  {
    var zeros := Fill('0', width - |digits|);
    assert Field(digits, "", width, f) == "" + zeros + digits;
    hide Field, Fill;
    Nothing("", zeros);
  }

  lemma Nothing(none: string, digits: string)
    requires none == ""
    ensures none + digits == digits
  {
  }

  /** A format is text and conversions. */
  datatype Piece = Text(s: string) | Conversion(d: Directive, c: char)

  const NOTHING := Directive("", Absent, None, Plain)

  /** Conversions of integers without '#', of characters, of strings, and "%%". */
  predicate Fine(p: Piece) {
    match p
    case Text(s) => '%' !in s && '\0' !in s
    case Conversion(d, c) => Writable(d) && (InScope(d, c) || c == 'c' || c == 's' || (c == '%' && d == NOTHING))
  }

  function Shape(p: Piece): string {
    match p
    case Text(s) => s
    case Conversion(d, c) => "%" + Written(d) + [c]
  }

  function Format(pieces: seq<Piece>): string {
    if pieces == [] then "" else Shape(pieces[0]) + Format(pieces[1..])
  }

  /** What the standard asks for, and where the next argument is. */
  function Asked(p: Piece, args: Args, used: nat): (string, nat)
    requires Fine(p)
  {
    match p
    case Text(s) => (s, used)
    case Conversion(d, c) =>
      var at := S.ArgumentAt(d, used);
      if c == 'c' then (S.CharText(d, args, used), at + 1)
      else if c == 's' then (S.StringText(d, args, used), at + 1)
      else if c == '%' then ("%", used)
      else (S.IntegerText(d, c, args, used), at + S.ArgumentWords(d.length))
  }

  function Output(pieces: seq<Piece>, args: Args, used: nat): string
    requires forall i :: 0 <= i < |pieces| ==> Fine(pieces[i])
  {
    if pieces == [] then ""
    else
      var (text, next) := Asked(pieces[0], args, used);
      text + Output(pieces[1..], args, next)
  }

  /** The source prints this piece. */
  predicate Prints(p: Piece, args: Args, used: nat)
    requires Fine(p)
  {
    p.Conversion? ==>
      && (p.c == 's' ==> S.PrintsString(p.d, args, used))
      && (IsInteger(p.c) ==> S.PrintsInteger(p.d, p.c, args, used))
  }

  predicate AllPrint(pieces: seq<Piece>, args: Args, used: nat)
    requires forall i :: 0 <= i < |pieces| ==> Fine(pieces[i])
  {
    pieces == [] || (Prints(pieces[0], args, used) && AllPrint(pieces[1..], args, Asked(pieces[0], args, used).1))
  }

  lemma {:induction false} TextPrinted(fmt: CString, i: nat, end: nat, args: Args, used: nat)
    requires i <= end <= |fmt| && '%' !in fmt[i..end]
    ensures Formatted(fmt, args, i, used) == Prepended(fmt[i..end], Formatted(fmt, args, end, used))
    decreases end - i
  {
    hide Formatted;
    if i < end {
      assert fmt[i] in fmt[i..end] && fmt[i..end] == [fmt[i]] + fmt[i + 1..end];
      PlainAt(fmt, args, i, used);
      TextPrinted(fmt, i + 1, end, args, used);
      PrependTwice([fmt[i]], fmt[i + 1..end], Formatted(fmt, args, end, used));
    } else {
      PrependTwice([], [], Formatted(fmt, args, end, used));
    }
  }

  /** One conversion, as the standard asks for it. */
  lemma ConversionPrinted(d: Directive, c: char, args: Args, at: nat, used: nat)
    requires Fine(Conversion(d, c)) && Prints(Conversion(d, c), args, used)
    ensures Converted(c, args, HeadOf(d, args, at, used)) == Asked(Conversion(d, c), args, used)
    ensures !IsFloat(c) && IsSpecifier(c)
  {
    hide Converted, Fields, S.IntegerText, S.PrintsInteger, S.StringText, S.PrintsString, S.CharText;
    if c == 'c' {
      CharPrinted(d, args, at, used);
    } else if c == 's' {
      StringPrinted(d, args, at, used);
    } else if c == '%' {
      OtherPrinted(d, c, args, at, used);
    } else {
      IntegerPrinted(d, c, args, at, used);
    }
  }

  lemma FormattedAt(fmt: CString, args: Args, i: nat, used: nat, h: Head)
    requires i < |fmt| && fmt[i] == '%' && h == HeadAt(fmt, args, i + 1, used)
    requires h.at < |fmt| && !IsFloat(fmt[h.at])
    ensures var (text, next) := Converted(fmt[h.at], args, h);
            Formatted(fmt, args, i, used) == Prepended(text, Formatted(fmt, args, h.at + 1, next))
  {
    hide HeadAt, Converted, IsFloat;
  }

  /** One conversion, with the rest of the format behind it. */
  lemma ConversionOf(fmt: CString, pre: string, d: Directive, c: char, post: string, args: Args, used: nat)
    requires Fine(Conversion(d, c)) && Prints(Conversion(d, c), args, used)
    requires fmt == pre + Shape(Conversion(d, c)) + post
    ensures var (text, next) := Asked(Conversion(d, c), args, used);
            Formatted(fmt, args, |pre|, used) ==
            Prepended(text, Formatted(fmt, args, |pre| + |Shape(Conversion(d, c))|, next))
  {
    hide Written, HeadAt, HeadOf, Converted, Asked, Prints, Formatted, Writable, IsFloat, IsSpecifier, Shape;
    var at := |pre| + 1 + |Written(d)|;
    ShapeLength(d, c);
    ConversionPrinted(d, c, args, at, used);
    assert Writable(d);
    ConversionRead(fmt, pre, d, c, post, args, used, at);
    hide Fine;
    FormattedAt(fmt, args, |pre|, used, HeadOf(d, args, at, used));
  }

  lemma ConversionRead(fmt: CString, pre: string, d: Directive, c: char, post: string, args: Args, used: nat, at: nat)
    requires Writable(d) && IsSpecifier(c) && fmt == pre + Shape(Conversion(d, c)) + post
    requires at == |pre| + 1 + |Written(d)|
    ensures at < |fmt| && fmt[|pre|] == '%' && fmt[at] == c
    ensures HeadAt(fmt, args, |pre| + 1, used) == HeadOf(d, args, at, used) && HeadOf(d, args, at, used).at == at
  {
    hide Written, HeadAt, HeadOf, Writable, IsSpecifier;
    var head := pre + "%";
    assert fmt == head + Written(d) + [c] + post;
    assert fmt[|pre|] == '%' by { assert head[|pre|] == '%'; }
    DirectiveRoundTrip(fmt, head, d, c, post, args, used);
    HeadEnds(d, args, at, used);
  }

  lemma ShapeLength(d: Directive, c: char)
    ensures |Shape(Conversion(d, c))| == |Written(d)| + 2
  {
    hide Written;
  }

  lemma HeadEnds(d: Directive, args: Args, at: nat, used: nat)
    ensures HeadOf(d, args, at, used).at == at
  {
    FieldsPrecision(d, args, at, used, d.prec.Some?);
  }

  /** One piece, with the rest of the format behind it. */
  lemma PieceOf(fmt: CString, pre: string, p: Piece, post: string, args: Args, used: nat)
    requires Fine(p) && Prints(p, args, used) && fmt == pre + Shape(p) + post
    ensures var (text, next) := Asked(p, args, used);
            Formatted(fmt, args, |pre|, used) == Prepended(text, Formatted(fmt, args, |pre| + |Shape(p)|, next))
  {
    hide Formatted, Shape, Asked, Prints, Fine;
    match p {
      case Text(s) => TextOfFormat(fmt, pre, s, post, args, used);
      case Conversion(d, c) => ConversionOf(fmt, pre, d, c, post, args, used);
    }
  }

  lemma TextOfFormat(fmt: CString, pre: string, s: string, post: string, args: Args, used: nat)
    requires Fine(Text(s)) && fmt == pre + Shape(Text(s)) + post
    ensures Asked(Text(s), args, used) == (s, used)
    ensures Formatted(fmt, args, |pre|, used) == Prepended(s, Formatted(fmt, args, |pre| + |Shape(Text(s))|, used))
  {
    assert fmt[|pre|..|pre| + |s|] == s;
    TextPrinted(fmt, |pre|, |pre| + |s|, args, used);
    hide Formatted;
  }

  /** A whole format: whenever the source prints every conversion as asked, the output is the text around them and
      the standard's text of each, in order, with the arguments taken one after the other. */
  lemma {:induction false} FormatIsStandard(fmt: CString, pre: string, pieces: seq<Piece>, args: Args, used: nat)
    requires forall i :: 0 <= i < |pieces| ==> Fine(pieces[i])
    requires fmt == pre + Format(pieces) && AllPrint(pieces, args, used)
    ensures Formatted(fmt, args, |pre|, used) == Some(Output(pieces, args, used))
    decreases |pieces|
  {
    hide Formatted, Shape, Asked, Prints, Fine;
    if pieces == [] {
      FormattedEnd(fmt, args, |pre|, used);
    } else {
      var p, rest := pieces[0], pieces[1..];
      assert fmt == pre + Shape(p) + Format(rest);
      PieceOf(fmt, pre, p, Format(rest), args, used);
      FormatIsStandard(fmt, pre + Shape(p), rest, args, Asked(p, args, used).1);
    }
  }

  /** A decimal conversion reads back as its argument exactly when that is not negative, or the zeros asked for leave
      room for the sign. */
  lemma DecimalReadsBack(d: Directive, c: char, args: Args, at: nat, used: nat)
    requires c in {'d', 'i', 'u'}
    ensures var v := S.Argument(c, d.length, args, S.ArgumentAt(d, used));
            ReadInt(Converted(c, args, HeadOf(d, args, at, used)).0) == v <==>
            || v >= 0 || S.IsLeft(d, args, used)
            || (S.AtLeast(S.AskedPrecision(d, args, used)) < 32
                && ('0' !in d.flags || d.prec.Some? || S.Width(d, args, used) <= 32))
  {
    hide Fields, Converted, ReadInt, IntegerArg, S.Argument, S.AskedPrecision, S.Width, S.ArgumentAt, AmountOf,
         S.SignedWidth, NegativePrecision;
    AmountsAre(d, args, at, used, d.prec.Some?);
    WrittenFlags(d, args, at, used, d.prec.Some?);
    ArgumentIs(d, c, args, at, used, d.prec.Some?);
    DecimalReads(c, args, HeadOf(d, args, at, used));
  }

  /** "%.*d" of the precision -1 and the number 0 prints nothing, where the standard has "0". */
  lemma NegativePrecisionOfZero(args: Args)
    requires args.stack(0) == 0xFFFF_FFFF && args.stack(1) == 0
    ensures Formatted("%.*d", args, 0, 0) == Some("")
    ensures S.IntegerText(StarDirective("", Absent), 'd', args, 0) == "0"
  {
    hide *;
    StarWritten();
    StarIsInteger("", Absent);
    OneDirective(StarDirective("", Absent), 'd', args);
    StarTexts(false, 0, args, 3);
    TextIs(StarDirective("", Absent), 'd', args, 3, 0);
    ZeroTexts();
  }

  /** "%05.*d" of the precision -1 and the number 7 prints spaces, where the standard has zeros. */
  lemma NegativePrecisionOfSeven(args: Args)
    requires args.stack(0) == 0xFFFF_FFFF && args.stack(1) == 7
    ensures Formatted("%05.*d", args, 0, 0) == Some("    7")
    ensures S.IntegerText(StarDirective("0", Number(0, 5)), 'd', args, 0) == "00007"
  {
    hide *;
    StarWritten();
    StarIsInteger("0", Number(0, 5));
    OneDirective(StarDirective("0", Number(0, 5)), 'd', args);
    StarTexts(true, 5, args, 5);
    TextIs(StarDirective("0", Number(0, 5)), 'd', args, 5, 0);
    SevenTexts();
  }

  lemma StarIsInteger(flags: seq<char>, width: Amount)
    requires flags == "" || flags == "0"
    requires width == Absent || width == Number(0, 5)
    ensures IsInteger('d') && Writable(StarDirective(flags, width))
  {
  }

  /** What the '#' flag puts in front of a number. */
  function Prefix(c: char): string {
    if c == 'x' then "0x" else if c == 'X' then "0X" else if c == 'b' then "0b" else if c == 'o' then "0" else ""
  }

  /** The '#' flag, without other flags, width and precision: the base's prefix and the digits, but 0 stands alone. */
  lemma HashPrinted(length: Length, c: char, args: Args, at: nat, used: nat)
    requires c in {'x', 'X', 'o', 'b'}
    ensures var d := Directive("#", Absent, None, length);
            var v := S.Argument(c, length, args, used);
            var digits := Numeral(S.Abs(v), S.Base(c), S.DigitTable(c));
            |digits| <= 30 ==>
              Converted(c, args, HeadOf(d, args, at, used)).0 == (if v == 0 then "" else Prefix(c)) + digits
  {
    hide Fields, NumberText, IntegerArg, S.Argument, Numeral, Digits;
    var d := Directive("#", Absent, None, length);
    AmountsAre(d, args, at, used, false);
    WrittenFlags(d, args, at, used, false);
    WrittenHash(d, args, at, used);
    ArgumentIs(d, c, args, at, used, false);
    var v := S.Argument(c, length, args, used);
    DigitsAre(S.Abs(v), S.Base(c), c);
    if |Numeral(S.Abs(v), S.Base(c), S.DigitTable(c))| <= 30 {
      Prefixes(S.Abs(v), c, IntegerFlags(c, Fields(d, args, at, used, false).flags));
    }
  }

  lemma WrittenHash(d: Directive, args: Args, at: nat, used: nat)
    ensures Fields(d, args, at, used, false).flags.hash == ('#' in d.flags)
  {
    hide AmountOf, Precision;
  }

  lemma Prefixes(n: nat, c: char, f: Flags)
    requires c in {'x', 'X', 'o', 'b'} && f.hash && f.uppercase == (c == 'X')
    requires !f.precision && !f.left && !f.zeropad && !f.plus && !f.space
    requires |Digits(n, BaseOf(c), f.uppercase)| <= 30
    ensures NumberText(n, false, BaseOf(c), 0, 0, f) ==
            (if n == 0 then "" else Prefix(c)) + Digits(n, BaseOf(c), f.uppercase)
  {
    hide Digits, LowDigits, Fill, DigitsOrNothing;
    var g := if n == 0 then f.(hash := false) else f;
    var buf := DigitsOrNothing(n, BaseOf(c), f);
    ShownAre(n, BaseOf(c), f);
    DigitsOf(n, BaseOf(c), f.uppercase);
    NotPadded(buf, g);
    var prefixed := Prefixed(buf, BaseOf(c), 0, 0, g);
    var tail := if n == 0 then "" else if c == 'o' then "0" else [if c == 'b' then 'b' else c, '0'];
    assert prefixed == buf + tail;
    NotInField(prefixed, g);
    ReverseOfConcat(buf, tail);
    ReverseOfTwo(if c == 'b' then 'b' else c, '0');
    assert Reverse(tail) == if n == 0 then "" else Prefix(c);
    hide Reverse;
    assert Shown(n, BaseOf(c), f) == Digits(n, BaseOf(c), f.uppercase);
  }

  lemma ReverseOfTwo(a: char, b: char)
    ensures Reverse([a, b]) == [b, a] && Reverse([b]) == [b]
  {
    assert Reverse([b]) == [b];
    ReverseOfFirst([a, b], a, [b]);
  }

  lemma NotPadded(buf: string, f: Flags)
    requires !f.left && !f.zeropad && |buf| <= 32
    ensures NumberWidth(false, 0, f) == 0 && Padded(buf, 0, 0, f) == buf
  {
    assert Fill('0', Min(0, BUFFER_SIZE) - |buf|) == "";
  }

  lemma NotInField(buf: string, f: Flags)
    requires !f.left && !f.zeropad && !f.plus && !f.space
    ensures Signed(buf, false, f) == buf && RevText(buf, 0, f) == Reverse(buf)
  {
    assert Fill(' ', 0 - |buf|) == "";
    hide Fill, Reverse;
    Nothing("", Reverse(buf));
    assert buf + "" == buf && Reverse(buf) + "" == Reverse(buf);
  }
}
