/** Whether a directive prints what section 7.21.6.1 of ISO/IEC 9899:2011 asks for. */
module Conformance {
  import opened Words
  import opened Numerals
  import opened Ntoa
  import opened NtoaProps
  import opened NtoaReads
  import opened Printf
  import opened Directives

  /** The standard's text of an integer conversion with these fields. */
  function StandardConversion(c: char, args: Args, a: Head): seq<char>
    requires IsInteger(c)
  {
    var f := IntegerFlags(c, a.flags);
    var v := IntegerArg(c, f, args, a.used).0;
    StandardText(if v < 0 then -v else v, v < 0, BaseOf(c), a.prec, a.width, f)
  }

  /** When the source prints it. A negative precision, which it takes for 0, shows in the number 0 and in zeros
      that should fill the field; any other precision, in a sign or in zeros that do not fit. */
  predicate PrintsStandard(c: char, args: Args, a: Head, negativePrecision: bool)
    requires IsInteger(c)
  {
    var f := IntegerFlags(c, a.flags);
    var v := IntegerArg(c, f, args, a.used).0;
    var n := |Shown(if v < 0 then -v else v, BaseOf(c), f)|;
    if negativePrecision then v != 0 && (!f.zeropad || f.left || a.width <= n + |SignText(v < 0, f)|)
    else Conforms(n, v < 0, a.prec, a.width, f)
  }

  /** A number that the buffer can hold, without the '#' flag. */
  predicate InScope(d: Directive, c: char) {
    IsInteger(c) && ('#' !in d.flags || c in {'d', 'i', 'u'}) && (c == 'b' ==> !d.length.LL? && !d.length.J?)
  }

  /** The fields with and without the precision differ in nothing else. */
  lemma OmittedIs(d: Directive, args: Args, at: nat, used: nat)
    ensures Fields(d, args, at, used, true) ==
            var a := Fields(d, args, at, used, false); a.(flags := a.flags.(precision := true))
  {
    hide AmountOf, Precision, Added, LengthFlags;
  }

  lemma ScopeIs(d: Directive, c: char, args: Args, at: nat, used: nat, precision: bool)
    requires InScope(d, c)
    ensures var f := Fields(d, args, at, used, precision).flags;
            !IntegerFlags(c, f).hash && (!f.long_long || c != 'b')
  {
    hide AmountOf, Precision;
  }

  /** The conversion of fields that the parser and the standard agree on: the standard's text exactly under the
      condition of NtoaProps. */
  lemma IntegerIsStandard(c: char, args: Args, h: Head)
    requires IsInteger(c) && !IntegerFlags(c, h.flags).hash && (!h.flags.long_long || c != 'b')
    ensures Converted(c, args, h).0 == StandardConversion(c, args, h) <==> PrintsStandard(c, args, h, false)
  {
    hide NumberText, StandardText, IntegerArg, Conforms, Shown, Digits;
    var f := IntegerFlags(c, h.flags);
    var v := IntegerArg(c, f, args, h.used).0;
    var m: nat := if v < 0 then -v else v;
    DigitsFit(c, args, h);
    NumberTextIsStandard(m, v < 0, BaseOf(c), h.prec, h.width, f);
  }

  lemma DigitsFit(c: char, args: Args, h: Head)
    requires IsInteger(c) && (!h.flags.long_long || c != 'b')
    ensures var f := IntegerFlags(c, h.flags);
            var v := IntegerArg(c, f, args, h.used).0;
            |Digits(if v < 0 then -v else v, BaseOf(c), f.uppercase)| <= if c == 'b' then 32 else 22
  {
    hide Digits, IntegerArg;
    var f := IntegerFlags(c, h.flags);
    ArgBounds(c, f, args, h.used);
    var v := IntegerArg(c, f, args, h.used).0;
    var m: nat := if v < 0 then -v else v;
    if c == 'b' {
      BinaryArg(args, f, h.used);
      Word32Digits(m, 2, f.uppercase);
    } else {
      Word64Digits(m, BaseOf(c), f.uppercase);
    }
  }

  /** With a precision of 0, digits and sign always fit. */
  lemma ZeroPrecisionConforms(c: char, args: Args, h: Head)
    requires IsInteger(c) && (!h.flags.long_long || c != 'b') && h.flags.precision && h.prec == 0
    ensures PrintsStandard(c, args, h, false)
  {
    hide Digits;
    DigitsFit(c, args, h);
    if c == 'b' {
      BinaryArg(args, IntegerFlags(c, h.flags), h.used);
    }
    hide IntegerArg;
  }

  /** The number 0: without a precision it has a digit. */
  lemma ZeroShows(base: nat, width: nat, f: Flags, g: Flags)
    requires 2 <= base <= 36 && f.precision && !f.zeropad && !g.precision
    ensures StandardText(0, false, base, 0, width, f) != StandardText(0, false, base, 0, width, g)
  {
    hide StandardText, Draw, Fill;
    StandardLayout(0, false, base, 0, width, f);
    StandardLayout(0, false, base, 0, width, g);
    var d := Shown(0, base, g);
    assert d == ['0'];
    var s, t := StandardShape(0, false, 0, width, f), StandardShape(1, false, 0, width, g);
    NoDigits(s);
    LastDigit(t, d);
  }

  lemma NoDigits(s: Shape)
    requires s.zeros == 0 && '0' !in s.sign
    ensures '0' !in Draw(s, [])
  {
    hide Fill;
    FillAt(' ', s.before);
    FillAt(' ', s.after);
    FillAt('0', 0);
  }

  lemma LastDigit(s: Shape, d: seq<char>)
    requires d == ['0']
    ensures '0' in Draw(s, d)
  {
    hide Fill;
    var head := Fill(' ', s.before) + s.sign + Fill('0', s.zeros);
    assert Draw(s, d) == head + d + Fill(' ', s.after);
    assert (head + d + Fill(' ', s.after))[|head|] == '0';
  }

  /** The same digits: filling the field with zeros shows exactly when the field has room. */
  lemma ZerosShow(d: seq<char>, negative: bool, width: nat, f: Flags, g: Flags)
    requires f.left == g.left && f.plus == g.plus && f.space == g.space && !f.zeropad
    ensures Draw(StandardShape(|d|, negative, 0, width, f), d) ==
            Draw(StandardShape(|d|, negative, 0, width, g), d) <==>
            !g.zeropad || g.left || width <= |d| + |SignText(negative, g)|
  {
    hide Draw;
    var s, t := StandardShape(|d|, negative, 0, width, f), StandardShape(|d|, negative, 0, width, g);
    if g.zeropad && !g.left && width > |d| + |SignText(negative, g)| {
      ZeroMeets(s, t, d);
    }
  }

  /** Behind the sign, one text has a zero and the other a space or the sign. */
  lemma ZeroMeets(s: Shape, t: Shape, d: seq<char>)
    requires s.sign == t.sign && |s.sign| <= 1 && '0' !in s.sign && t.before == 0 < t.zeros && 0 < s.before
    ensures Draw(s, d) != Draw(t, d)
  {
    hide Fill;
    FillAt(' ', s.before);
    FillAt(' ', t.before);
    FillAt('0', t.zeros);
    var p := |s.sign|;
    assert Draw(t, d)[p] == Fill('0', t.zeros)[0];
    assert Draw(s, d)[p] == (Fill(' ', s.before) + s.sign)[p];
  }

  /** The standard's text with a precision of 0, and with none. */
  lemma OmittedText(v: int, base: nat, width: nat, f: Flags, g: Flags)
    requires 2 <= base <= 36 && f.precision && !f.zeropad && !g.precision
    requires f.left == g.left && f.plus == g.plus && f.space == g.space && f.uppercase == g.uppercase
    ensures var m: nat := if v < 0 then -v else v;
            StandardText(m, v < 0, base, 0, width, f) == StandardText(m, v < 0, base, 0, width, g) <==>
            v != 0 && (!g.zeropad || g.left || width <= |Shown(m, base, g)| + |SignText(v < 0, g)|)
  {
    hide StandardText, Digits, Draw, StandardShape, SignText;
    if v == 0 {
      ZeroShows(base, width, f, g);
    } else {
      var m: nat := if v < 0 then -v else v;
      StandardLayout(m, v < 0, base, 0, width, f);
      StandardLayout(m, v < 0, base, 0, width, g);
      ZerosShow(Shown(m, base, g), v < 0, width, f, g);
    }
  }

  lemma OmittedFlags(c: char, f: Flags)
    requires !f.precision
    ensures var g, h := IntegerFlags(c, f), IntegerFlags(c, f.(precision := true));
            && h.precision && !h.zeropad && !g.precision
            && h.left == g.left && h.plus == g.plus && h.space == g.space && h.uppercase == g.uppercase
    ensures forall args: Args, used: nat ::
              IntegerArg(c, IntegerFlags(c, f.(precision := true)), args, used) ==
                IntegerArg(c, IntegerFlags(c, f), args, used)
  {
  }

  /** Fields with a precision of 0 for none. */
  lemma OmittedFields(c: char, args: Args, h: Head, a: Head)
    requires IsInteger(c) && !a.flags.precision && a.prec == 0 && h == a.(flags := a.flags.(precision := true))
    ensures StandardConversion(c, args, h) == StandardConversion(c, args, a) <==> PrintsStandard(c, args, a, true)
  {
    hide StandardText, Conforms, Shown, IntegerArg, IntegerFlags, SignText;
    OmittedFlags(c, a.flags);
    var g := IntegerFlags(c, a.flags);
    OmittedText(IntegerArg(c, g, args, a.used).0, BaseOf(c), a.width, IntegerFlags(c, h.flags), g);
  }

  /** What the parser's fields print, against what the asked ones should. */
  lemma FieldsAreStandard(c: char, args: Args, h: Head, a: Head, omitted: bool)
    requires IsInteger(c) && !IntegerFlags(c, h.flags).hash && (!h.flags.long_long || c != 'b')
    requires omitted ==> !a.flags.precision && a.prec == 0 && h == a.(flags := a.flags.(precision := true))
    requires !omitted ==> h == a
    ensures Converted(c, args, h).0 == StandardConversion(c, args, a) <==> PrintsStandard(c, args, a, omitted)
  {
    hide Converted, StandardConversion, PrintsStandard, IntegerFlags;
    IntegerIsStandard(c, args, h);
    if omitted {
      ZeroPrecisionConforms(c, args, h);
      OmittedFields(c, args, h, a);
    }
  }

  /** What is printed, against the fields that the standard gives a directive. */
  lemma AskedFieldsPrinted(d: Directive, c: char, args: Args, at: nat, used: nat)
    requires InScope(d, c)
    ensures var a := AskedHead(d, args, at, used);
            Converted(c, args, HeadOf(d, args, at, used)).0 == StandardConversion(c, args, a) <==>
            PrintsStandard(c, args, a, NegativePrecision(d, args, used))
  {
    hide Fields, Converted, StandardConversion, PrintsStandard, IntegerFlags;
    ScopeIs(d, c, args, at, used, d.prec.Some?);
    OmittedIs(d, args, at, used);
    var omitted := NegativePrecision(d, args, used);
    if omitted {
      NegativeIsZero(d, args, at, used);
    }
    FieldsAreStandard(c, args, HeadOf(d, args, at, used), AskedHead(d, args, at, used), omitted);
  }

  lemma NegativeIsZero(d: Directive, args: Args, at: nat, used: nat)
    requires NegativePrecision(d, args, used)
    ensures var a := Fields(d, args, at, used, false); a.prec == 0 && !a.flags.precision
  {
  }

  lemma CutOff(s: seq<char>, width: nat, f: Flags, g: Flags)
    requires f.left == g.left
    ensures Justified([], width, g) == Justified(s, width, f) <==>
            |s| <= width && forall k :: 0 <= k < |s| ==> s[k] == ' '
  {
    hide Fill;
    FillAt(' ', width);
    FillAt(' ', width - |s|);
    var rest, text := Fill(' ', width - |s|), Justified(s, width, f);
    var at := if f.left then 0 else |rest|;
    assert forall k :: 0 <= k < |s| ==> text[at + k] == s[k];
    hide Justified;
    assert Justified([], width, g) == Fill(' ', width) by { NothingJustified(width, g); }
    if |s| <= width && forall k :: 0 <= k < |s| ==> s[k] == ' ' {
      assert text == Fill(' ', width) by { BlanksJustified(s, width, f); }
    }
  }

  lemma NothingJustified(width: nat, f: Flags)
    ensures Justified([], width, f) == Fill(' ', width)
  {
    hide Fill;
  }

  lemma BlanksJustified(s: seq<char>, width: nat, f: Flags)
    requires |s| <= width && forall k :: 0 <= k < |s| ==> s[k] == ' '
    ensures Justified(s, width, f) == Fill(' ', width)
  {
    hide Fill;
    FillAt(' ', width);
    FillAt(' ', width - |s|);
  }

  /** A format that is one directive. */
  lemma OneDirective(d: Directive, c: char, args: Args)
    requires Writable(d) && IsInteger(c) && '\0' !in "%" + Written(d) + [c]
    ensures var fmt := "%" + Written(d) + [c];
            Formatted(fmt, args, 0, 0) == Some(Converted(c, args, HeadOf(d, args, 1 + |Written(d)|, 0)).0)
  {
    hide Written, HeadAt, Fields, Converted;
    var fmt: CString := "%" + Written(d) + [c];
    assert fmt == "%" + Written(d) + [c] + [];
    DirectiveRoundTrip(fmt, "%", d, c, [], args, 0);
    var h := HeadAt(fmt, args, 1, 0);
    FieldsPrecision(d, args, 1 + |Written(d)|, 0, d.prec.Some?);
    FormattedEnd(fmt, args, h.at + 1, Converted(c, args, h).1);
    assert Converted(c, args, h).0 + [] == Converted(c, args, h).0;
  }

  /** A directive with a star for its precision, and no more than a '0' flag. */
  function StarDirective(flags: seq<char>, width: Amount): Directive {
    Directive(flags, width, Some(Star), Plain)
  }

  lemma StarFields(zeropad: bool, width: nat, args: Args, at: nat, precision: bool)
    requires args.stack(0) == 0xFFFF_FFFF
    ensures var d := StarDirective(if zeropad then "0" else "", if width == 0 then Absent else Number(0, width));
            Fields(d, args, at, 0, precision) ==
              Head(NO_FLAGS.(zeropad := zeropad, precision := precision), width, 0, at, 1)
            && NegativePrecision(d, args, 0)
  {
    assert SignedWord(args.stack(0), 0x8000_0000) == -1;
    hide SignedWord;
    assert Added(NO_FLAGS, "") == NO_FLAGS && Added(NO_FLAGS, "0") == NO_FLAGS.(zeropad := true);
    hide Added;
    ShortFlags(NO_FLAGS.(zeropad := zeropad, precision := precision));
    hide LengthFlags;
  }

  /** What such a directive prints, and what it should print. */
  lemma StarTexts(zeropad: bool, width: nat, args: Args, at: nat)
    requires args.stack(0) == 0xFFFF_FFFF && args.stack(1) < 0x8000_0000
    ensures var n := args.stack(1);
            var f := NO_FLAGS.(zeropad := zeropad);
            var d := StarDirective(if zeropad then "0" else "", if width == 0 then Absent else Number(0, width));
            && Converted('d', args, HeadOf(d, args, at, 0)).0 ==
               StandardText(n, false, 10, 0, width, NO_FLAGS.(precision := true))
            && StandardConversion('d', args, AskedHead(d, args, at, 0)) == StandardText(n, false, 10, 0, width, f)
  {
    hide StandardText, NumberText, Fields, Added;
    StarFields(zeropad, width, args, at, true);
    StarFields(zeropad, width, args, at, false);
    var h := Head(NO_FLAGS.(zeropad := zeropad, precision := true), width, 0, at, 1);
    ZeroPrecisionConforms('d', args, h);
    IntegerIsStandard('d', args, h);
  }

  lemma StarWritten()
    ensures Written(StarDirective("", Absent)) == ".*" && "%" + ".*" + "d" == "%.*d"
    ensures Written(StarDirective("0", Number(0, 5))) == "05.*" && "%" + "05.*" + "d" == "%05.*d"
  {
    assert Digits(5, 10, false) == "5" && Fill('0', 0) == "";
    hide Digits, Fill;
  }

  lemma ZeroTexts()
    ensures StandardText(0, false, 10, 0, 0, NO_FLAGS.(precision := true)) == ""
    ensures StandardText(0, false, 10, 0, 0, NO_FLAGS.(zeropad := false)) == "0"
  {
    assert Digits(0, 10, false) == "0" && Fill('0', 0) == Fill(' ', 0) == Fill('0', -1) == Fill(' ', -1) == "";
    hide Digits, Fill;
  }

  lemma SevenTexts()
    ensures StandardText(7, false, 10, 0, 5, NO_FLAGS.(precision := true)) == "    7"
    ensures StandardText(7, false, 10, 0, 5, NO_FLAGS.(zeropad := true)) == "00007"
  {
    assert Digits(7, 10, false) == "7" && Fill('0', -1) == "";
    hide Digits, Fill;
    FillAt(' ', 4);
    FillAt('0', 4);
    assert Fill(' ', 4) == "    " && Fill('0', 4) == "0000";
    assert "    " + "" + ("" + "7") == "    7" && "" + "0000" + ("" + "7") == "00007";
  }
}
