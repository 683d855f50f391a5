/** What section 7.21.6.1 of ISO/IEC 9899:2011 asks of a conversion, stated from the directive's own parts. */
module Standard {
  import opened Words
  import opened Numerals
  import opened Ntoa
  import opened Printf
  import opened Directives

  /** An argument word as an int. */
  function Int(w: nat): int {
    if w < 0x8000_0000 then w else w - 0x1_0000_0000
  }

  function WidthWords(d: Directive): nat {
    if d.width == Star then 1 else 0
  }

  /** Where the converted argument is: behind the words of the stars. */
  function ArgumentAt(d: Directive, used: nat): nat {
    used + WidthWords(d) + (if d.prec == Some(Star) then 1 else 0)
  }

  /** The width, as written or from the arguments; a negative one stands for a '-' flag. */
  function SignedWidth(d: Directive, args: Args, used: nat): int {
    match d.width
    case Absent => 0
    case Number(_, n) => n
    case Star => Int(args.stack(used))
  }

  function Width(d: Directive, args: Args, used: nat): nat {
    var w := SignedWidth(d, args, used);
    if w < 0 then -w else w
  }

  predicate IsLeft(d: Directive, args: Args, used: nat) {
    '-' in d.flags || SignedWidth(d, args, used) < 0
  }

  /** The precision; a period alone is 0, and a negative argument is as good as none. */
  function AskedPrecision(d: Directive, args: Args, used: nat): Option<nat> {
    match d.prec
    case None => None
    case Some(Absent) => Some(0)
    case Some(Number(_, n)) => Some(n)
    case Some(Star) =>
      var p := Int(args.stack(used + WidthWords(d)));
      if p < 0 then None else Some(p)
  }

  predicate IsSigned(c: char) {
    c == 'd' || c == 'i'
  }

  /** Binary is not in that edition of the standard; it is printed as the other bases are. */
  function Base(c: char): nat
    requires c in "diuoxXb"
  {
    match c
    case 'o' => 8
    case 'x' => 16
    case 'X' => 16
    case 'b' => 2
    case _ => 10
  }

  /** The digits in order of their value. */
  function DigitTable(c: char): string {
    if c == 'X' then "0123456789ABCDEF" else "0123456789abcdef"
  }

  /** On this target int, long, ptrdiff_t and size_t have 32 bits, long long and intmax_t 64. */
  function Bits(length: Length): nat {
    match length
    case HH => 8
    case H => 16
    case LL => 64
    case J => 64
    case _ => 32
  }

  function Modulus(bits: nat): nat {
    if bits == 8 then 0x100 else if bits == 16 then 0x1_0000
    else if bits == 32 then 0x1_0000_0000 else 0x1_0000_0000_0000_0000
  }

  function ArgumentWords(length: Length): nat {
    if Bits(length) == 64 then 2 else 1
  }

  /** The argument words as one number, low word first. */
  function Raw(args: Args, at: nat, length: Length): nat {
    args.stack(at) + if ArgumentWords(length) == 2 then 0x1_0000_0000 * args.stack(at + 1) else 0
  }

  /** v is the value of the argument: congruent to its words, and in the range of its type. */
  predicate IsArgument(v: int, raw: nat, m: nat, signed: bool)
    requires m > 0
  {
    (v - raw) % m == 0 && if signed then 0 <= 2 * v + m < 2 * m else 0 <= v < m
  }

  function Argument(c: char, length: Length, args: Args, at: nat): (v: int)
    ensures IsArgument(v, Raw(args, at, length), Modulus(Bits(length)), IsSigned(c))
  {
    var m := Modulus(Bits(length));
    var r := Raw(args, at, length) % m;
    Congruent(Raw(args, at, length), m);
    if IsSigned(c) && 2 * r >= m then r - m else r
  }

  /** There is just one such value. */
  lemma ArgumentUnique(v: int, w: int, raw: nat, m: nat, signed: bool)
    requires m > 0 && IsArgument(v, raw, m, signed) && IsArgument(w, raw, m, signed)
    ensures v == w
  {
    var i, j := (v - raw) / m, (w - raw) / m;
    assert v - raw == i * m && w - raw == j * m;
    Distribute(i, j, m);
    hide IsArgument;
    SmallMultiple(i - j, m);
  }

  lemma Distribute(i: int, j: int, m: int)
    ensures i * m - j * m == (i - j) * m
  {
  }

  lemma SmallMultiple(k: int, m: int)
    requires m > 0 && 0 < k * m + m < 2 * m
    ensures k == 0
  {
  }

  lemma Congruent(raw: nat, m: nat)
    requires m > 0
    ensures (raw % m - raw) % m == 0 && (raw % m - m - raw) % m == 0
  {
    var q := raw / m;
    assert raw % m - raw == -q * m && raw % m - m - raw == (-q - 1) * m;
    MultipleOf(-q, m);
    MultipleOf(-q - 1, m);
  }

  lemma MultipleOf(k: int, m: nat)
    requires m > 0
    ensures k * m % m == 0
  {
    var q, r := k * m / m, k * m % m;
    assert k * m == q * m + r;
    Distribute(k, q, m);
    SmallMultiple(k - q, m);
  }

  function Abs(v: int): nat {
    if v < 0 then -v else v
  }

  /** The digits of the number; with a precision of 0, the number 0 has none. */
  function NumberDigits(c: char, v: int, prec: Option<nat>): string
    requires c in "diuoxXb"
  {
    if v == 0 && prec == Some(0) then "" else Numeral(Abs(v), Base(c), DigitTable(c))
  }

  function Sign(d: Directive, c: char, v: int): string {
    if v < 0 then "-"
    else if IsSigned(c) && '+' in d.flags then "+"
    else if IsSigned(c) && ' ' in d.flags then " "
    else ""
  }

  /** Zeros fill the field only if neither '-' nor a precision is given. */
  predicate ZerosFill(d: Directive, prec: Option<nat>) {
    '0' in d.flags && prec.None?
  }

  function AtLeast(prec: Option<nat>): nat {
    if prec.Some? then prec.value else 0
  }

  /** An integer conversion without '#'. */
  function IntegerText(d: Directive, c: char, args: Args, used: nat): string
    requires c in "diuoxXb"
  {
    var prec, width := AskedPrecision(d, args, used), Width(d, args, used);
    var v := Argument(c, d.length, args, ArgumentAt(d, used));
    var digits, sign := NumberDigits(c, v, prec), Sign(d, c, v);
    InField(Fill('0', AtLeast(prec) - |digits|) + digits, sign, width, IsLeft(d, args, used), ZerosFill(d, prec))
  }

  /** Sign and digits in a field: on the left, filled with zeros behind the sign, or on the right. */
  function InField(body: string, sign: string, width: nat, left: bool, zeros: bool): string {
    var rest := width - |sign| - |body|;
    if left then sign + body + Fill(' ', rest)
    else if zeros then sign + Fill('0', rest) + body
    else Fill(' ', rest) + sign + body
  }

  /** How many digits there are before a precision adds zeros; the digit of the number 0 counts as one of those. */
  function Significant(c: char, v: int, prec: Option<nat>): nat
    requires c in "diuoxXb"
  {
    if v == 0 && prec.Some? then 0 else |Numeral(Abs(v), Base(c), DigitTable(c))|
  }

  /** The source prints it: a negative precision, which it takes for 0, shows in the number 0 and in zeros that
      should fill the field; any other precision, in a left-justified field, or if digits, zeros and sign exceed
      its 32 characters. */
  predicate PrintsInteger(d: Directive, c: char, args: Args, used: nat)
    requires c in "diuoxXb"
  {
    var prec, width, left := AskedPrecision(d, args, used), Width(d, args, used), IsLeft(d, args, used);
    var v := Argument(c, d.length, args, ArgumentAt(d, used));
    var n, sign := Significant(c, v, prec), Sign(d, c, v);
    if d.prec.Some? && prec.None? then
      v != 0 && ('0' !in d.flags || left || width <= n + |sign|)
    else Fits(n, sign, AtLeast(prec), width, left, ZerosFill(d, prec))
  }

  predicate Fits(n: nat, sign: string, prec: nat, width: nat, left: bool, zeros: bool) {
    if left then prec <= n && n + |sign| <= 32
    else
      var len := if zeros then Max(Max(n, prec), width - |sign|) else Max(n, prec);
      len + |sign| <= 32 || (!zeros && sign == " " && len == 32 < width)
  }

  /** A text in its field: on the left with spaces behind it, or on the right with spaces before it. */
  function InWidth(text: string, d: Directive, args: Args, used: nat): string {
    var rest := Width(d, args, used) - |text|;
    if IsLeft(d, args, used) then text + Fill(' ', rest) else Fill(' ', rest) + text
  }

  /** One character, of the argument's low byte. */
  function CharText(d: Directive, args: Args, used: nat): string {
    InWidth([(args.stack(ArgumentAt(d, used)) % 256) as char], d, args, used)
  }

  /** A string, or as much of it as the precision allows. */
  function StringText(d: Directive, args: Args, used: nat): string {
    var s, prec := args.memory(args.stack(ArgumentAt(d, used))), AskedPrecision(d, args, used);
    InWidth(if prec.Some? && prec.value < |s| then s[..prec.value] else s, d, args, used)
  }

  /** The source prints it, unless a negative precision cuts all of the string off, and the string is not just
      spaces that the field has room for. */
  predicate PrintsString(d: Directive, args: Args, used: nat) {
    var s := args.memory(args.stack(ArgumentAt(d, used)));
    (d.prec.Some? && AskedPrecision(d, args, used).None?) ==>
      |s| <= Width(d, args, used) && forall k :: 0 <= k < |s| ==> s[k] == ' '
  }
}
