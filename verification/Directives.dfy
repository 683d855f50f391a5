/** Conversion directives as a caller writes them, and the parser reading them back. */
module Directives {
  import opened Words
  import opened Numerals
  import opened Ntoa
  import opened NtoaReads
  import opened Printf

  /** How a width or a precision is written; a star takes it from the arguments. */
  datatype Amount = Absent | Number(zeros: nat, n: nat) | Star

  datatype Length = Plain | L | LL | H | HH | T | J | Z

  /** What stands between '%' and the specifier. A precision can be a period alone. */
  datatype Directive = Directive(flags: seq<char>, width: Amount, prec: Option<Amount>, length: Length)

  /** A width cannot begin with the digit 0, which is a flag. */
  predicate Writable(d: Directive) {
    && (forall k :: 0 <= k < |d.flags| ==> IsFlag(d.flags[k]))
    && (d.width.Number? ==> d.width.zeros == 0 && 0 < d.width.n < WORD_LIMIT)
    && (d.prec.Some? && d.prec.value.Number? ==> d.prec.value.n < WORD_LIMIT)
  }

  predicate IsSpecifier(c: char) {
    IsInteger(c) || IsFloat(c) || c in {'c', 's', 'p', '%'}
  }

  function AmountText(a: Amount): string {
    match a
    case Absent => ""
    case Number(zeros, n) => Fill('0', zeros) + Digits(n, 10, false)
    case Star => "*"
  }

  function LengthText(length: Length): string {
    match length
    case Plain => ""
    case L => "l"
    case LL => "ll"
    case H => "h"
    case HH => "hh"
    case T => "t"
    case J => "j"
    case Z => "z"
  }

  function PrecText(d: Directive): string {
    if d.prec.Some? then "." + AmountText(d.prec.value) else ""
  }

  function Written(d: Directive): string {
    d.flags + AmountText(d.width) + PrecText(d) + LengthText(d.length)
  }

  /** The flags together with those written in chars. */
  function Added(f: Flags, chars: seq<char>): Flags {
    f.(zeropad := f.zeropad || '0' in chars, left := f.left || '-' in chars, plus := f.plus || '+' in chars,
       space := f.space || ' ' in chars, hash := f.hash || '#' in chars)
  }

  function LengthFlags(length: Length, f: Flags): Flags {
    f.(long := f.long || length.L? || length.LL? || length.T? || length.Z?,
       long_long := f.long_long || length.LL? || length.J?,
       short := f.short || length.H? || length.HH?, char_ := f.char_ || length.HH?)
  }

  /** The amount, which a star finds in this word of the arguments. */
  function AmountOf(a: Amount, args: Args, used: nat): int {
    match a
    case Absent => 0
    case Number(_, n) => n
    case Star => SignedWord(args.stack(used), 0x8000_0000)
  }

  function Taken(a: Amount): nat {
    if a.Star? then 1 else 0
  }

  function Precision(d: Directive, args: Args, used: nat): int {
    if d.prec.Some? then AmountOf(d.prec.value, args, used + Taken(d.width)) else 0
  }

  /** A star in place of the precision takes a negative word. */
  predicate NegativePrecision(d: Directive, args: Args, used: nat) {
    d.prec == Some(Star) && args.stack(used + Taken(d.width)) >= 0x8000_0000
  }

  /** The precision that the standard sees. */
  predicate Given(d: Directive, args: Args, used: nat) {
    d.prec.Some? && !NegativePrecision(d, args, used)
  }

  /** The fields of a directive, with a precision or without. A negative width is a '-' flag and a width. */
  function Fields(d: Directive, args: Args, at: nat, used: nat, precision: bool): Head {
    var w := AmountOf(d.width, args, used);
    var f := Added(NO_FLAGS, d.flags);
    Head(LengthFlags(d.length, if w < 0 then f.(left := true) else f).(precision := precision),
         if w < 0 then -w else w, Max(Precision(d, args, used), 0), at,
         used + Taken(d.width) + (if d.prec.Some? then Taken(d.prec.value) else 0))
  }

  /** What the parser makes of it: whatever the precision is, the number has one. */
  function HeadOf(d: Directive, args: Args, at: nat, used: nat): Head {
    Fields(d, args, at, used, d.prec.Some?)
  }

  /** What paragraph 5 of section 7.21.6.1 of ISO/IEC 9899:2011 asks for: a negative precision is as good as none. */
  function AskedHead(d: Directive, args: Args, at: nat, used: nat): Head {
    Fields(d, args, at, used, Given(d, args, used))
  }

  lemma {:induction false} FirstDigit(n: nat)
    requires n > 0
    ensures Digits(n, 10, false) != [] && Digits(n, 10, false)[0] != '0'
    decreases n
  {
    DigitsOf(n, 10, false);
    if n >= 10 {
      FirstDigit(n / 10);
    }
  }

  lemma {:induction false} FlagsRead(fmt: CString, h: Head, end: nat)
    requires h.at <= end < |fmt| && !IsFlag(fmt[end])
    requires forall k :: h.at <= k < end ==> IsFlag(fmt[k])
    ensures AfterFlags(fmt, h) == h.(flags := Added(h.flags, fmt[h.at..end]), at := end)
    decreases end - h.at
  {
    hide WithFlag, Added, IsFlag;
    if h.at < end {
      FlagsRead(fmt, h.(flags := WithFlag(h.flags, fmt[h.at]), at := h.at + 1), end);
      FlagAdded(h.flags, fmt[h.at], fmt[h.at + 1..end]);
      assert fmt[h.at..end] == [fmt[h.at]] + fmt[h.at + 1..end];
    } else {
      NothingAdded(h.flags);
      assert fmt[h.at..end] == [];
    }
  }

  lemma FlagAdded(f: Flags, c: char, rest: seq<char>)
    ensures Added(WithFlag(f, c), rest) == Added(f, [c] + rest)
  {
    assert forall x :: x in [c] + rest <==> x == c || x in rest;
  }

  lemma NoPrecision(chars: seq<char>)
    ensures !Added(NO_FLAGS, chars).precision
  {
  }

  /** The precision is no matter of the length. */
  lemma LengthPrecision(length: Length, f: Flags, precision: bool)
    ensures LengthFlags(length, f.(precision := precision)) == LengthFlags(length, f).(precision := precision)
  {
  }

  lemma NothingAdded(f: Flags)
    ensures Added(f, []) == f
  {
  }

  /** A number written from i on is read as itself. */
  lemma NumberRead(fmt: CString, i: nat, end: nat, zeros: nat, n: nat)
    requires n < WORD_LIMIT && i <= end < |fmt| && !IsDigit(fmt[end])
    requires fmt[i..end] == Fill('0', zeros) + Digits(n, 10, false)
    ensures NumberAt(fmt, i) == (n, end) && i < end && IsDigit(fmt[i])
  {
    hide Digits, Value, Fill;
    FillAt('0', zeros);
    DecimalDigits(n, false);
    DigitsDenote(n, 10, false);
    ValueOfZeros(zeros, Digits(n, 10, false));
    RunOf(fmt, i, end);
    assert fmt[i] == fmt[i..end][0];
  }

  lemma WidthRead(fmt: CString, args: Args, h: Head, end: nat, a: Amount)
    requires h.at <= end < |fmt| && !IsDigit(fmt[end]) && fmt[end] != '*' && h.width == 0
    requires fmt[h.at..end] == AmountText(a) && (a.Number? ==> a.n < WORD_LIMIT)
    ensures var w := AmountOf(a, args, h.used);
            AfterWidth(fmt, args, h) ==
            h.(flags := if w < 0 then h.flags.(left := true) else h.flags, width := if w < 0 then -w else w,
               at := end, used := h.used + Taken(a))
  {
    hide Digits, NumberAt, SignedWord, Fill;
    match a {
      case Absent =>
      case Number(zeros, n) => NumberRead(fmt, h.at, end, zeros, n);
      case Star => assert fmt[h.at] == fmt[h.at..end][0];
    }
  }

  lemma PrecRead(fmt: CString, args: Args, h: Head, end: nat, prec: Option<Amount>)
    requires h.at <= end < |fmt| && !IsDigit(fmt[end]) && fmt[end] !in {'.', '*'} && h.prec == 0
    requires prec.Some? && prec.value.Number? ==> prec.value.n < WORD_LIMIT
    requires fmt[h.at..end] == if prec.Some? then "." + AmountText(prec.value) else ""
    ensures AfterPrecision(fmt, args, h) ==
            if prec.Some? then
              h.(flags := h.flags.(precision := true), prec := Max(AmountOf(prec.value, args, h.used), 0),
                 at := end, used := h.used + Taken(prec.value))
            else h.(at := end)
  {
    hide Digits, NumberAt, SignedWord, Fill;
    if prec.Some? {
      assert fmt[h.at] == fmt[h.at..end][0] == '.';
      assert fmt[h.at + 1..end] == fmt[h.at..end][1..];
      match prec.value {
        case Absent =>
        case Number(zeros, n) => NumberRead(fmt, h.at + 1, end, zeros, n);
        case Star => assert fmt[h.at + 1] == fmt[h.at + 1..end][0];
      }
    }
  }

  lemma LengthRead(fmt: CString, h: Head, end: nat, length: Length)
    requires h.at <= end < |fmt| && fmt[h.at..end] == LengthText(length) && IsSpecifier(fmt[end])
    ensures AfterLength(fmt, h) == h.(flags := LengthFlags(length, h.flags), at := end)
  {
    var s := fmt[h.at..end];
    if |s| == 0 {
      assert CharAt(fmt, h.at) == fmt[end];
    } else if |s| == 1 {
      assert s == [fmt[h.at]] && CharAt(fmt, h.at + 1) == fmt[end];
    } else {
      assert s == [fmt[h.at], fmt[h.at + 1]];
    }
    LongFlags(h.flags);
    LongLongFlags(h.flags);
    ShortFlags(h.flags);
    hide LengthFlags;
  }

  lemma LongFlags(f: Flags)
    ensures LengthFlags(L, f) == LengthFlags(T, f) == LengthFlags(Z, f) == f.(long := true)
  {
  }

  lemma LongLongFlags(f: Flags)
    ensures LengthFlags(LL, f) == f.(long := true, long_long := true)
    ensures LengthFlags(J, f) == f.(long_long := true)
  {
  }

  lemma ShortFlags(f: Flags)
    ensures LengthFlags(Plain, f) == f
    ensures LengthFlags(H, f) == f.(short := true)
    ensures LengthFlags(HH, f) == f.(short := true, char_ := true)
  {
  }

  /** Where the pieces of a text stand in it. */
  lemma Slices(s: seq<char>, pre: seq<char>, a: seq<char>, b: seq<char>, c: seq<char>, d: seq<char>, post: seq<char>,
      i1: nat, i2: nat, i3: nat, i4: nat)
    requires s == pre + (a + b + c + d) + post && post != []
    requires i1 == |pre| + |a| && i2 == i1 + |b| && i3 == i2 + |c| && i4 == i3 + |d|
    ensures i4 < |s| && s[|pre|..i1] == a && s[i1..i2] == b && s[i2..i3] == c && s[i3..i4] == d && s[i4] == post[0]
  {
  }

  /** What no part of a directive begins with. */
  lemma Borders(fmt: CString, d: Directive, c: char, i1: nat, i2: nat, i3: nat, i4: nat)
    requires Writable(d) && IsSpecifier(c) && i1 <= i2 <= i3 <= i4 < |fmt| && fmt[i4] == c
    requires fmt[i1..i2] == AmountText(d.width) && fmt[i2..i3] == PrecText(d) && fmt[i3..i4] == LengthText(d.length)
    ensures !IsFlag(fmt[i1]) && !IsDigit(fmt[i2]) && fmt[i2] != '*' && !IsDigit(fmt[i3]) && fmt[i3] !in {'.', '*'}
  {
    LengthStarts(d.length);
    WidthStarts(d);
    assert fmt[i3] == if i3 < i4 then fmt[i3..i4][0] else c;
    assert fmt[i2] == if i2 < i3 then fmt[i2..i3][0] else fmt[i3];
    assert fmt[i1] == if i1 < i2 then fmt[i1..i2][0] else fmt[i2];
    hide LengthText, AmountText, Writable;
  }

  lemma LengthStarts(length: Length)
    ensures LengthText(length) != "" ==> LengthText(length)[0] in {'l', 'h', 't', 'j', 'z'}
  {
  }

  lemma WidthStarts(d: Directive)
    requires Writable(d)
    ensures AmountText(d.width) != "" ==> !IsFlag(AmountText(d.width)[0])
  {
    hide Digits;
    if d.width.Number? {
      FirstDigit(d.width.n);
      DecimalDigits(d.width.n, false);
      assert AmountText(d.width) == Digits(d.width.n, 10, false);
      assert IsDigit(AmountText(d.width)[0]);
    }
  }

  lemma FlagsPlaced(fmt: CString, d: Directive, i0: nat, i1: nat)
    requires Writable(d) && i0 <= i1 <= |fmt| && fmt[i0..i1] == d.flags
    ensures forall k :: i0 <= k < i1 ==> IsFlag(fmt[k])
  {
    forall k | i0 <= k < i1 ensures IsFlag(fmt[k]) {
      assert fmt[k] == fmt[i0..i1][k - i0];
    }
  }

  /** The parser's four stages, given where each part ends. */
  lemma PartsRead(fmt: CString, d: Directive, args: Args, used: nat, i0: nat, i1: nat, i2: nat, i3: nat, i4: nat)
    requires Writable(d) && i0 <= i1 <= i2 <= i3 <= i4 < |fmt| && IsSpecifier(fmt[i4])
    requires fmt[i0..i1] == d.flags && forall k :: i0 <= k < i1 ==> IsFlag(fmt[k])
    requires fmt[i1..i2] == AmountText(d.width) && fmt[i2..i3] == PrecText(d) && fmt[i3..i4] == LengthText(d.length)
    requires !IsFlag(fmt[i1]) && !IsDigit(fmt[i2]) && fmt[i2] != '*'
    requires !IsDigit(fmt[i3]) && fmt[i3] !in {'.', '*'}
    ensures HeadAt(fmt, args, i0, used) == HeadOf(d, args, i4, used)
  {
    hide IsFlag, IsDigit, IsSpecifier, AfterFlags, AfterWidth, AfterPrecision, AfterLength, Added,
         LengthFlags, AmountText, AmountOf, Taken;
    var h0 := Head(NO_FLAGS, 0, 0, i0, used);
    FlagsRead(fmt, h0, i1);
    NoPrecision(d.flags);
    var h1 := h0.(flags := Added(NO_FLAGS, d.flags), at := i1);
    WidthRead(fmt, args, h1, i2, d.width);
    var h2 := AfterWidth(fmt, args, h1);
    PrecRead(fmt, args, h2, i3, d.prec);
    LengthRead(fmt, AfterPrecision(fmt, args, h2), i4, d.length);
    LengthPrecision(d.length, h2.flags, d.prec.Some?);
  }

  /** The parser's four stages and what is at their borders. */
  lemma SlicesRead(fmt: CString, d: Directive, c: char, args: Args, used: nat,
      i0: nat, i1: nat, i2: nat, i3: nat, i4: nat)
    requires Writable(d) && IsSpecifier(c) && i0 <= i1 <= i2 <= i3 <= i4 < |fmt| && fmt[i4] == c
    requires fmt[i0..i1] == d.flags && fmt[i1..i2] == AmountText(d.width)
    requires fmt[i2..i3] == PrecText(d) && fmt[i3..i4] == LengthText(d.length)
    ensures HeadAt(fmt, args, i0, used) == HeadOf(d, args, i4, used)
  {
    hide *;
    Borders(fmt, d, c, i1, i2, i3, i4);
    FlagsPlaced(fmt, d, i0, i1);
    PartsRead(fmt, d, args, used, i0, i1, i2, i3, i4);
  }

  /** A directive written into a format is read back: its flags, its width, its precision and its length, with
      stars taking words in order, and the parser stands on the specifier. */
  lemma DirectiveRoundTrip(fmt: CString, pre: seq<char>, d: Directive, c: char, post: seq<char>, args: Args, used: nat)
    requires Writable(d) && IsSpecifier(c) && fmt == pre + Written(d) + [c] + post
    ensures HeadAt(fmt, args, |pre|, used) == HeadOf(d, args, |pre| + |Written(d)|, used)
    ensures |pre| + |Written(d)| < |fmt| && fmt[|pre| + |Written(d)|] == c
  {
    hide AmountText, PrecText, LengthText, HeadAt, HeadOf, Writable, IsSpecifier;
    var i1 := |pre| + |d.flags|;
    var i2 := i1 + |AmountText(d.width)|;
    var i3 := i2 + |PrecText(d)|;
    var i4 := i3 + |LengthText(d.length)|;
    assert i4 == |pre| + |Written(d)|;
    assert fmt == pre + Written(d) + ([c] + post);
    Slices(fmt, pre, d.flags, AmountText(d.width), PrecText(d), LengthText(d.length), [c] + post, i1, i2, i3, i4);
    SlicesRead(fmt, d, c, args, used, |pre|, i1, i2, i3, i4);
  }

  /** The parser sees in a directive what the standard does if and only if no star takes a negative precision. */
  lemma HeadIsAsked(fmt: CString, pre: seq<char>, d: Directive, c: char, post: seq<char>, args: Args, used: nat)
    requires Writable(d) && IsSpecifier(c) && fmt == pre + Written(d) + [c] + post
    ensures var h := HeadAt(fmt, args, |pre|, used);
            h == AskedHead(d, args, h.at, used) <==> !NegativePrecision(d, args, used)
  {
    hide Written, HeadAt, Fields, Precision;
    DirectiveRoundTrip(fmt, pre, d, c, post, args, used);
    var at := |pre| + |Written(d)|;
    FieldsPrecision(d, args, at, used, true);
    FieldsPrecision(d, args, at, used, false);
  }

  lemma FieldsPrecision(d: Directive, args: Args, at: nat, used: nat, precision: bool)
    ensures Fields(d, args, at, used, precision).flags.precision == precision
    ensures Fields(d, args, at, used, precision).at == at
  {
    hide Added, LengthFlags, AmountOf, Precision;
  }
}
