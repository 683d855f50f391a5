/** Where the numeric conversions keep to the C standard, and where they print the number they were given. */
module NtoaProps {
  import opened Words
  import opened Numerals
  import opened Ntoa

  /** Spaces, a sign, zeros, digits, spaces. */
  datatype Shape = Shape(before: nat, sign: seq<char>, zeros: nat, after: nat)

  function Draw(s: Shape, digits: seq<char>): seq<char> {
    Fill(' ', s.before) + s.sign + (Fill('0', s.zeros) + digits) + Fill(' ', s.after)
  }

  /** n digits preceded by zeros up to len, in a field. */
  function InField(n: nat, len: nat, sign: seq<char>, width: nat, f: Flags): Shape {
    var rest := Max(width - |sign| - Max(n, len), 0);
    Shape(if f.left || f.zeropad then 0 else rest, sign, Max(len - n, 0), if f.left then rest else 0)
  }

  /** How many digits, zeros included, the source wants. */
  function Target(negative: bool, prec: nat, width: nat, f: Flags): nat {
    if f.left then 0 else if f.zeropad then Max(prec, NumberWidth(negative, width, f)) else prec
  }

  /** How many characters the padded digits take in the buffer. */
  function PaddedLength(n: nat, negative: bool, prec: nat, width: nat, f: Flags): nat {
    Max(n, Min(Target(negative, prec, width, f), BUFFER_SIZE))
  }

  /** The digits that both texts show, for a number that fits the buffer. */
  function Shown(value: nat, base: nat, f: Flags): seq<char>
    requires 2 <= base <= 36
  {
    if f.precision && value == 0 then [] else Digits(value, base, f.uppercase)
  }

  lemma ShownAre(value: nat, base: nat, f: Flags)
    requires 2 <= base <= 36 && |Digits(value, base, f.uppercase)| <= BUFFER_SIZE
    ensures Reverse(DigitsOrNothing(value, base, f)) == Shown(value, base, f)
    ensures |DigitsOrNothing(value, base, f)| == |Shown(value, base, f)| <= BUFFER_SIZE
  {
    hide Digits, LowDigits;
    LowDigitsReversed(value, base, f.uppercase, BUFFER_SIZE);
  }

  lemma {:induction false} FillSum(c: char, m: nat, n: nat)
    ensures Fill(c, m) + Fill(c, n) == Fill(c, m + n)
  {
    if n > 0 {
      FillSum(c, m, n - 1);
    }
  }

  lemma ZeroPadTwice(buf: seq<char>, m: nat, n: nat)
    ensures ZeroPad(ZeroPad(buf, m), n) == ZeroPad(buf, Max(m, n))
  {
    var a, b := Min(m, BUFFER_SIZE) - |buf|, Min(n, BUFFER_SIZE) - |buf|;
    FillAt('0', a);
    if a <= 0 {
      assert ZeroPad(buf, m) == buf;
    } else if b > a {
      FillSum('0', a, b - a);
      assert buf + Fill('0', a) + Fill('0', b - a) == buf + (Fill('0', a) + Fill('0', b - a));
    }
  }

  lemma PaddedIs(buf: seq<char>, negative: bool, prec: nat, width: nat, f: Flags)
    ensures Padded(buf, prec, NumberWidth(negative, width, f), f) == ZeroPad(buf, Target(negative, prec, width, f))
    ensures |ZeroPad(buf, Target(negative, prec, width, f))| == PaddedLength(|buf|, negative, prec, width, f)
  {
    FillAt('0', Min(Target(negative, prec, width, f), BUFFER_SIZE) - |buf|);
    ZeroPadTwice(buf, prec, NumberWidth(negative, width, f));
  }

  /** The sign that gets into the buffer. */
  function KeptSign(n: nat, negative: bool, prec: nat, width: nat, f: Flags): seq<char> {
    if PaddedLength(n, negative, prec, width, f) < BUFFER_SIZE then SignText(negative, f) else []
  }

  lemma ReverseOfSigned(buf: seq<char>, z: int, sign: seq<char>)
    requires |sign| <= 1
    ensures Reverse(buf + Fill('0', z) + sign) == sign + (Fill('0', z) + Reverse(buf))
    ensures |buf + Fill('0', z) + sign| == |sign| + Max(z, 0) + |buf|
  {
    hide Fill;
    FillAt('0', z);
    ReverseOfConcat(buf + Fill('0', z), sign);
    ReverseOfConcat(buf, Fill('0', z));
    ReverseOfFill('0', z);
    if sign != [] {
      assert sign == [sign[0]] && Reverse(sign) == [sign[0]];
    }
  }

  function NumberShape(n: nat, negative: bool, prec: nat, width: nat, f: Flags): Shape {
    InField(n, Min(Target(negative, prec, width, f), BUFFER_SIZE), KeptSign(n, negative, prec, width, f), width, f)
  }

  /** The text of a number without the '#' flag. */
  lemma NumberLayout(value: nat, negative: bool, base: nat, prec: nat, width: nat, f: Flags)
    requires 2 <= base <= 36 && |Digits(value, base, f.uppercase)| <= BUFFER_SIZE && !f.hash
    ensures var d := Shown(value, base, f);
            NumberText(value, negative, base, prec, width, f) == Draw(NumberShape(|d|, negative, prec, width, f), d)
  {
    hide Digits, DigitsOrNothing, Shown, NumberText, Draw, NumberShape, KeptSign, Target, RevText;
    var buf, d := DigitsOrNothing(value, base, f), Shown(value, base, f);
    ShownAre(value, base, f);
    PaddedText(value, negative, base, prec, width, f);
    FieldDrawn(buf, negative, prec, width, f);
  }

  /** The characters that out_rev reverses: the digits from the last one on, the zeros, and the sign. */
  function ReversedNumber(buf: seq<char>, negative: bool, prec: nat, width: nat, f: Flags): seq<char> {
    buf + Fill('0', Min(Target(negative, prec, width, f), BUFFER_SIZE) - |buf|) +
      KeptSign(|buf|, negative, prec, width, f)
  }

  lemma PaddedText(value: nat, negative: bool, base: nat, prec: nat, width: nat, f: Flags)
    requires 2 <= base <= 36 && |Digits(value, base, f.uppercase)| <= BUFFER_SIZE && !f.hash
    ensures NumberText(value, negative, base, prec, width, f) ==
            RevText(ReversedNumber(DigitsOrNothing(value, base, f), negative, prec, width, f),
                    NumberWidth(negative, width, f), f)
  {
    hide Digits, DigitsOrNothing, Fill, Target, PaddedLength, RevText, SignText, Padded, NumberWidth;
    var buf := DigitsOrNothing(value, base, f);
    PaddedIs(buf, negative, prec, width, f);
    NoFront(ZeroPad(buf, Target(negative, prec, width, f)));
  }

  lemma FieldDrawn(buf: seq<char>, negative: bool, prec: nat, width: nat, f: Flags)
    requires |buf| <= BUFFER_SIZE
    ensures RevText(ReversedNumber(buf, negative, prec, width, f), NumberWidth(negative, width, f), f) ==
            Draw(NumberShape(|buf|, negative, prec, width, f), Reverse(buf))
  {
    hide Fill, Reverse, RevText, Draw, SignText, Target, NumberWidth, KeptSign, InField;
    var len := Min(Target(negative, prec, width, f), BUFFER_SIZE);
    var sign := KeptSign(|buf|, negative, prec, width, f);
    SignKept(|buf|, negative, prec, width, f);
    ZerosDrawn(buf, len - |buf|, sign, NumberWidth(negative, width, f), f);
    SameSpaces(|buf|, len, sign, negative, width, f);
  }

  lemma ZerosDrawn(buf: seq<char>, zeros: int, sign: seq<char>, width: nat, f: Flags)
    requires |sign| <= 1
    ensures RevText(buf + Fill('0', zeros) + sign, width, f) ==
            Draw(InField(|buf|, Max(zeros, 0) + |buf|, sign, width, f), Reverse(buf))
  {
    hide Fill, Reverse, RevText, Draw, InField;
    ReverseTwice(buf);
    ReverseOfSigned(buf, zeros, sign);
    FillClamped('0', zeros);
    SpacesDrawn(buf + Fill('0', zeros) + sign, sign, Max(zeros, 0), Reverse(buf), width, f);
  }

  /** Room for the sign is only made where the field is filled with zeros. */
  lemma SameSpaces(n: nat, len: nat, sign: seq<char>, negative: bool, width: nat, f: Flags)
    ensures InField(n, Max(len - n, 0) + n, sign, NumberWidth(negative, width, f), f) == InField(n, len, sign, width, f)
  {
  }

  lemma SpacesDrawn(text: seq<char>, sign: seq<char>, zeros: nat, d: seq<char>, width: nat, f: Flags)
    requires Reverse(text) == sign + (Fill('0', zeros) + d) && |text| == |sign| + zeros + |d|
    ensures RevText(text, width, f) == Draw(InField(|d|, zeros + |d|, sign, width, f), d)
  {
    hide Fill, Reverse;
    var s := InField(|d|, zeros + |d|, sign, width, f);
    RevTextIs(text, width, f);
    hide RevText;
    FillAt('0', zeros);
    FillClamped(' ', width - |sign| - zeros - |d|);
    Regroup(Fill(' ', s.before), sign, Fill('0', zeros) + d);
  }

  lemma SignKept(n: nat, negative: bool, prec: nat, width: nat, f: Flags)
    ensures |KeptSign(n, negative, prec, width, f)| <= 1
  {
  }

  lemma RevTextIs(buf: seq<char>, width: nat, f: Flags)
    ensures RevText(buf, width, f) ==
            Fill(' ', if f.left || f.zeropad then 0 else width - |buf|) + Reverse(buf) +
              Fill(' ', if f.left then width - |buf| else 0)
  {
    hide Fill, Reverse;
    FillNothing(' ');
  }

  lemma FillNothing(c: char)
    ensures Fill(c, 0) == []
  {
  }

  /** How many digits, zeros included, the standard asks for. */
  function StandardLength(n: nat, negative: bool, prec: nat, width: nat, f: Flags): nat {
    var m := Max(n, prec);
    if f.zeropad && !f.left then Max(m, width - |SignText(negative, f)|) else m
  }

  lemma StandardLayout(value: nat, negative: bool, base: nat, prec: nat, width: nat, f: Flags)
    requires 2 <= base <= 36
    ensures var d := Shown(value, base, f);
            StandardText(value, negative, base, prec, width, f) ==
            Draw(StandardShape(|d|, negative, prec, width, f), d)
  {
    hide Digits, Fill, Field, Draw, StandardShape;
    FieldLayout(Shown(value, base, f), negative, prec, width, f);
  }

  /** A shape without spaces on one side. */
  lemma DrawLeft(s: Shape, d: seq<char>)
    requires s.before == 0
    ensures Draw(s, d) == s.sign + (Fill('0', s.zeros) + d) + Fill(' ', s.after)
  {
    FillNothing(' ');
    NoFront(s.sign);
  }

  lemma NoFront(a: seq<char>)
    ensures [] + a == a && a + [] == a
  {
  }

  lemma DrawRight(s: Shape, d: seq<char>)
    requires s.after == 0
    ensures Draw(s, d) == Fill(' ', s.before) + s.sign + (Fill('0', s.zeros) + d)
  {
    FillNothing(' ');
    NoFront(Fill(' ', s.before) + s.sign + (Fill('0', s.zeros) + d));
  }

  lemma FieldLayout(d: seq<char>, negative: bool, prec: nat, width: nat, f: Flags)
    ensures Field(Fill('0', prec - |d|) + d, SignText(negative, f), width, f) ==
            Draw(StandardShape(|d|, negative, prec, width, f), d)
  {
    hide Fill, Draw, SignText;
    var sign, zeros := SignText(negative, f), prec - |d|;
    FillAt('0', zeros);
    FillClamped('0', zeros);
    FillClamped(' ', width - |sign| - Max(|d|, prec));
    var s := StandardShape(|d|, negative, prec, width, f);
    if f.left {
      DrawLeft(s, d);
    } else if f.zeropad {
      ZeroField(d, sign, prec, width);
      DrawLeft(s, d);
      FillNothing(' ');
      NoFront(sign + (Fill('0', s.zeros) + d));
    } else {
      DrawRight(s, d);
    }
  }

  /** Zeros up to the precision and zeros up to the width are one run of zeros. */
  lemma ZeroField(digits: seq<char>, sign: seq<char>, prec: nat, width: nat)
    ensures var zeros, len := prec - |digits|, Max(Max(|digits|, prec), width - |sign|);
            var body := Fill('0', zeros) + digits;
            sign + Fill('0', width - |sign| - |body|) + body == sign + (Fill('0', Max(len - |digits|, 0)) + digits)
  {
    hide Fill;
    var zeros := prec - |digits|;
    FillAt('0', zeros);
    FillClamped('0', zeros);
    var rest := width - |sign| - |Fill('0', zeros) + digits|;
    FillClamped('0', rest);
    FillSum('0', Max(rest, 0), Max(zeros, 0));
    Regroup(Fill('0', rest), Fill('0', zeros), digits);
    Regroup(sign, Fill('0', rest), Fill('0', zeros) + digits);
  }

  lemma FillClamped(c: char, n: int)
    ensures Fill(c, n) == Fill(c, Max(n, 0))
  {
  }

  /** The lengths of a text's parts, and what its characters are. */
  lemma DrawAt(s: Shape, digits: seq<char>)
    ensures var text := Draw(s, digits);
            var end := s.before + |s.sign| + s.zeros + |digits|;
            && |text| == end + s.after
            && (forall p :: 0 <= p < s.before || end <= p < |text| ==> text[p] == ' ')
            && (forall p :: s.before <= p < s.before + |s.sign| ==> text[p] == s.sign[p - s.before])
            && (forall p :: s.before + |s.sign| <= p < end ==> text[p] == '0' || text[p] in digits)
  {
    hide Fill;
    FillAt(' ', s.before);
    FillAt('0', s.zeros);
    FillAt(' ', s.after);
  }

  lemma {:induction false} DigitsAreNoSpaces(value: nat, base: nat, f: Flags)
    requires 2 <= base <= 36
    ensures ' ' !in Shown(value, base, f)
  {
    NoSpaces(value, base, f.uppercase);
  }

  lemma {:induction false} NoSpaces(value: nat, base: nat, upper: bool)
    requires 2 <= base <= 36
    ensures ' ' !in Digits(value, base, upper)
    decreases value
  {
    hide Digits;
    DigitsOf(value, base, upper);
    if value >= base {
      Shrinks(value, base);
      NoSpaces(value / base, base, upper);
    }
  }

  /** When the conversion of a number of n digits prints what the standard asks for: a left-justified field
      ignores the precision; otherwise digits, zeros and sign must fit the buffer, except that a missing
      blank sign may be made up by the field's own padding. */
  predicate Conforms(n: nat, negative: bool, prec: nat, width: nat, f: Flags) {
    var sign := SignText(negative, f);
    var len := StandardLength(n, negative, prec, width, f);
    if f.left then prec <= n && n + |sign| <= BUFFER_SIZE
    else len + |sign| <= BUFFER_SIZE || (!f.zeropad && sign == " " && len == BUFFER_SIZE < width)
  }

  function StandardShape(n: nat, negative: bool, prec: nat, width: nat, f: Flags): Shape {
    InField(n, StandardLength(n, negative, prec, width, f), SignText(negative, f), width, f)
  }

  lemma ConformingShape(n: nat, negative: bool, prec: nat, width: nat, f: Flags)
    requires n <= BUFFER_SIZE && Conforms(n, negative, prec, width, f)
    ensures var s, t := NumberShape(n, negative, prec, width, f), StandardShape(n, negative, prec, width, f);
            s == t || (s.before > 0 && s.sign == "" && t == s.(before := s.before - 1, sign := " "))
  {
  }

  lemma BlankSign(s: Shape, digits: seq<char>)
    requires s.before > 0 && s.sign == ""
    ensures Draw(s, digits) == Draw(s.(before := s.before - 1, sign := " "), digits)
  {
    var last := Fill('0', s.zeros) + digits;
    assert Fill(' ', s.before) + [] + last == Fill(' ', s.before - 1) + " " + last;
  }

  /** Off the condition, the texts differ in length or where digits meet the field's padding. */
  lemma OtherShape(n: nat, negative: bool, prec: nat, width: nat, f: Flags)
    requires n <= BUFFER_SIZE && !Conforms(n, negative, prec, width, f)
    ensures var s, t := NumberShape(n, negative, prec, width, f), StandardShape(n, negative, prec, width, f);
            var end, end' := s.before + |s.sign| + s.zeros + n, t.before + |t.sign| + t.zeros + n;
            || end + s.after != end' + t.after
            || (f.left && s.before == t.before == 0 && |t.sign| <= end < end')
            || (!f.left && t.before + (if t.sign == " " then 1 else 0) < s.before <= end' && |t.sign| <= 1)
  {
  }

  lemma OtherText(s: Shape, t: Shape, digits: seq<char>, left: bool)
    requires ' ' !in digits
    requires var end, end' := s.before + |s.sign| + s.zeros + |digits|, t.before + |t.sign| + t.zeros + |digits|;
            || end + s.after != end' + t.after
            || (left && s.before == t.before == 0 && |t.sign| <= end < end')
            || (!left && t.before + (if t.sign == " " then 1 else 0) < s.before <= end' && |t.sign| <= 1)
    ensures Draw(s, digits) != Draw(t, digits)
  {
    hide Draw;
    DrawAt(s, digits);
    DrawAt(t, digits);
    if |Draw(s, digits)| == |Draw(t, digits)| {
      var p := if left then s.before + |s.sign| + s.zeros + |digits| else s.before - 1;
      assert Draw(s, digits)[p] == ' ' && Draw(t, digits)[p] != ' ';
    }
  }

  /** Without '#', an integer conversion prints what the standard asks for exactly when Conforms says so. */
  lemma NumberTextIsStandard(value: nat, negative: bool, base: nat, prec: nat, width: nat, f: Flags)
    requires 2 <= base <= 36 && |Digits(value, base, f.uppercase)| <= BUFFER_SIZE && !f.hash
    ensures NumberText(value, negative, base, prec, width, f) ==
            StandardText(value, negative, base, prec, width, f) <==>
            Conforms(|Shown(value, base, f)|, negative, prec, width, f)
  {
    hide *;
    var d := Shown(value, base, f);
    ShownAre(value, base, f);
    NumberLayout(value, negative, base, prec, width, f);
    StandardLayout(value, negative, base, prec, width, f);
    var s, t := NumberShape(|d|, negative, prec, width, f), StandardShape(|d|, negative, prec, width, f);
    if Conforms(|d|, negative, prec, width, f) {
      ConformingShape(|d|, negative, prec, width, f);
      if s != t {
        BlankSign(s, d);
      }
    } else {
      DigitsAreNoSpaces(value, base, f);
      OtherShape(|d|, negative, prec, width, f);
      OtherText(s, t, d, f.left);
    }
  }
}
