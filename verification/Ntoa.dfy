/** The numeric conversions of printf: digits, padding, sign. */
module Ntoa {
  import opened Words
  import opened Numerals

  const BUFFER_SIZE: nat := 32

  datatype Flags = Flags(
    zeropad: bool, left: bool, plus: bool, space: bool, hash: bool, uppercase: bool,
    char_: bool, short: bool, long: bool, long_long: bool, precision: bool)

  const NO_FLAGS := Flags(false, false, false, false, false, false, false, false, false, false, false)

  function Fill(c: char, n: int): seq<char> {
    if n <= 0 then [] else Fill(c, n - 1) + [c]
  }

  /** The digits last first, as many as fit. */
  function LowDigits(value: nat, base: nat, upper: bool, room: nat): seq<char>
    requires 2 <= base <= 36
    decreases room
  {
    if room == 0 then []
    else [DigitChar(value % base, upper)] +
         (if value < base then [] else LowDigits(value / base, base, upper, room - 1))
  }

  function SignText(negative: bool, f: Flags): seq<char> {
    if negative then "-" else if f.plus then "+" else if f.space then " " else ""
  }

  function ZeroPad(buf: seq<char>, upto: nat): seq<char> {
    buf + Fill('0', Min(upto, BUFFER_SIZE) - |buf|)
  }

  /** Zero padding leaves room for the sign. */
  function NumberWidth(negative: bool, width: nat, f: Flags): nat {
    if !f.left && width > 0 && f.zeropad && SignText(negative, f) != "" then width - 1 else width
  }

  function Padded(buf: seq<char>, prec: nat, width: nat, f: Flags): seq<char> {
    if f.left then buf else if f.zeropad then ZeroPad(ZeroPad(buf, prec), width) else ZeroPad(buf, prec)
  }

  /** Under the '#' flag: the characters that give way to the prefix. */
  function MadeRoom(buf: seq<char>, base: nat, prec: nat, width: nat, f: Flags): seq<char> {
    if !f.precision && buf != [] && (|buf| == prec || |buf| == width) then
      if |buf| > 1 && base == 16 then buf[..|buf| - 2] else buf[..|buf| - 1]
    else buf
  }

  function Pushed(buf: seq<char>, c: char): seq<char> {
    if |buf| < BUFFER_SIZE then buf + [c] else buf
  }

  function Prefixed(buf: seq<char>, base: nat, prec: nat, width: nat, f: Flags): seq<char> {
    if !f.hash then buf
    else
      var b := MadeRoom(buf, base, prec, width, f);
      Pushed(if base == 16 then Pushed(b, if f.uppercase then 'X' else 'x')
             else if base == 2 then Pushed(b, 'b') else b, '0')
  }

  function Signed(buf: seq<char>, negative: bool, f: Flags): seq<char> {
    if |buf| < BUFFER_SIZE then buf + SignText(negative, f) else buf
  }

  /** A reversed number in its field. */
  function RevText(buf: seq<char>, width: nat, f: Flags): seq<char> {
    (if !f.left && !f.zeropad then Fill(' ', width - |buf|) else []) +
    Reverse(buf) +
    (if f.left then Fill(' ', width - |buf|) else [])
  }

  function FormatText(buf: seq<char>, negative: bool, base: nat, prec: nat, width: nat, f: Flags): seq<char> {
    var w := NumberWidth(negative, width, f);
    RevText(Signed(Prefixed(Padded(buf, prec, w, f), base, prec, w, f), negative, f), w, f)
  }

  function DigitsOrNothing(value: nat, base: nat, f: Flags): seq<char>
    requires 2 <= base <= 36
  {
    if f.precision && value == 0 then [] else LowDigits(value, base, f.uppercase, BUFFER_SIZE)
  }

  function NumberText(value: nat, negative: bool, base: nat, prec: nat, width: nat, f: Flags): seq<char>
    requires 2 <= base <= 36
  {
    var shown := if value == 0 then f.(hash := false) else f;
    FormatText(DigitsOrNothing(value, base, f), negative, base, prec, width, shown)
  }

  /** What section 7.21.6.1 of ISO/IEC 9899:2011 asks for: at least prec digits, the sign in front, the field
      filled to its width with spaces on either side or, between sign and digits, with zeros. */
  function StandardText(value: nat, negative: bool, base: nat, prec: nat, width: nat, f: Flags): seq<char>
    requires 2 <= base <= 36
  {
    var digits := if f.precision && value == 0 then [] else Digits(value, base, f.uppercase);
    Field(Fill('0', prec - |digits|) + digits, SignText(negative, f), width, f)
  }

  /** Sign and digits in a field. */
  function Field(body: seq<char>, sign: seq<char>, width: nat, f: Flags): seq<char> {
    var rest := width - |sign| - |body|;
    if f.left then sign + body + Fill(' ', rest)
    else if f.zeropad then sign + Fill('0', rest) + body
    else Fill(' ', rest) + sign + body
  }

  lemma {:induction false} FillAt(c: char, n: int)
    ensures |Fill(c, n)| == Max(n, 0)
    ensures forall k :: 0 <= k < |Fill(c, n)| ==> Fill(c, n)[k] == c
  {
    if n > 0 {
      FillAt(c, n - 1);
    }
  }

  lemma FillIs(c: char, n: int, s: seq<char>)
    requires |s| == Max(n, 0) && forall k :: 0 <= k < |s| ==> s[k] == c
    ensures s == Fill(c, n)
  {
    FillAt(c, n);
  }

  lemma ReverseOfFill(c: char, n: int)
    ensures Reverse(Fill(c, n)) == Fill(c, n)
  {
    var s := Fill(c, n);
    FillAt(c, n);
    ReverseTwice(s);
    forall k | 0 <= k < |s| ensures Reverse(s)[k] == c {
      ReverseAt(s, k);
    }
    FillIs(c, n, Reverse(s));
  }

  /** When they all fit, the digits written are those of the number. */
  lemma {:induction false} LowDigitsReversed(value: nat, base: nat, upper: bool, room: nat)
    requires 2 <= base <= 36 && |Digits(value, base, upper)| <= room
    ensures Reverse(LowDigits(value, base, upper, room)) == Digits(value, base, upper)
    ensures |LowDigits(value, base, upper, room)| == |Digits(value, base, upper)|
    decreases room
  {
    hide DigitChar;
    DigitsOf(value, base, upper);
    var c := DigitChar(value % base, upper);
    ReverseOfConcat([c], if value < base then [] else LowDigits(value / base, base, upper, room - 1));
    ReverseTwice(LowDigits(value, base, upper, room));
    assert Reverse([c]) == [c];
    if value >= base {
      LowDigitsReversed(value / base, base, upper, room - 1);
    }
  }
}
