/** Reading printed numbers back. */
module NtoaReads {
  import opened Words
  import opened Numerals
  import opened Ntoa
  import opened NtoaProps

  /** The end of the run of decimal digits that starts at i. */
  function DigitRun(s: seq<char>, i: nat): (end: nat)
    requires i <= |s|
    ensures i <= end <= |s|
    decreases |s| - i
  {
    if i < |s| && IsDigit(s[i]) then DigitRun(s, i + 1) else i
  }

  /** The loop of the format parser that reads a width or a precision. */
  method Atoi(str: seq<char>, from: nat) returns (i: nat, at: nat)
    requires from <= |str|
    ensures at == DigitRun(str, from) && i == Value(str[from..at], 10) % WORD_LIMIT
  {
    hide DigitValue, Value, DigitRun;
    i, at := 0, from;
    assert str[from..from] == [];
    ValueOfNothing(10);
    while at < |str| && IsDigit(str[at])
      invariant from <= at <= |str| && DigitRun(str, at) == DigitRun(str, from)
      invariant i == Value(str[from..at], 10) % WORD_LIMIT
    {
      AtoiStep(str, from, at);
      i := (i * 10 + (str[at] - '0') as nat) % WORD_LIMIT;
      at := at + 1;
    }
    RunEnds(str, at);
  }

  lemma RunEnds(s: seq<char>, at: nat)
    requires at <= |s| && (at < |s| ==> !IsDigit(s[at]))
    ensures DigitRun(s, at) == at
  {
  }

  /** One more digit read. */
  lemma AtoiStep(s: seq<char>, from: nat, at: nat)
    requires from <= at < |s| && IsDigit(s[at])
    ensures DigitRun(s, at) == DigitRun(s, at + 1)
    ensures Value(s[from..at + 1], 10) % WORD_LIMIT ==
            (Value(s[from..at], 10) % WORD_LIMIT * 10 + (s[at] - '0') as nat) % WORD_LIMIT
  {
    hide Value, DigitValue;
    var v := Value(s[from..at], 10);
    assert s[from..at + 1] == s[from..at] + [s[at]];
    ValueOfPush(s[from..at], s[at], 10, v);
    DigitIs(s[at]);
    WrapStep(v, (s[at] - '0') as nat);
  }

  lemma DigitIs(c: char)
    requires IsDigit(c)
    ensures DigitValue(c) == (c - '0') as nat
  {
  }

  lemma WrapStep(v: nat, d: nat)
    ensures (v % WORD_LIMIT * 10 + d) % WORD_LIMIT == (v * 10 + d) % WORD_LIMIT
  {
    var w := v / WORD_LIMIT;
    assert v * 10 + d == v % WORD_LIMIT * 10 + d + 10 * w * WORD_LIMIT;
  }

  predicate AllDigits(s: seq<char>) {
    forall k :: 0 <= k < |s| ==> IsDigit(s[k])
  }

  lemma {:induction false} RunOf(s: seq<char>, i: nat, end: nat)
    requires i <= end <= |s| && AllDigits(s[i..end]) && (end < |s| ==> !IsDigit(s[end]))
    ensures DigitRun(s, i) == end
    decreases end - i
  {
    if i < end {
      assert s[i] == s[i..end][0];
      assert s[i + 1..end] == s[i..end][1..];
      RunOf(s, i + 1, end);
    }
  }

  function Skip(s: seq<char>): seq<char> {
    if s != [] && s[0] == ' ' then Skip(s[1..]) else s
  }

  function Lead(s: seq<char>): nat {
    Value(s[..DigitRun(s, 0)], 10)
  }

  /** The decimal number at the front of a text: blanks, a sign, digits. */
  function ReadInt(s: seq<char>): int {
    var t := Skip(s);
    if t != [] && t[0] == '-' then 0 - Lead(t[1..])
    else if t != [] && t[0] == '+' then Lead(t[1..])
    else Lead(t)
  }

  lemma {:induction false} SkipFill(n: nat, t: seq<char>)
    ensures Skip(Fill(' ', n) + t) == Skip(t)
    decreases n
  {
    if n == 0 {
      assert Fill(' ', 0) + t == t;
    } else {
      SkipFill(n - 1, " " + t);
      assert Fill(' ', n) + t == Fill(' ', n - 1) + (" " + t);
      assert (" " + t)[1..] == t;
    }
  }

  lemma {:induction false} ValueOfZeros(z: nat, d: seq<char>)
    ensures Value(Fill('0', z) + d, 10) == Value(d, 10)
    decreases z + |d|
  {
    hide DigitValue;
    var s := Fill('0', z) + d;
    if d != [] {
      ValueOfZeros(z, d[..|d| - 1]);
      assert s[..|s| - 1] == Fill('0', z) + d[..|d| - 1];
    } else if z > 0 {
      ValueOfZeros(z - 1, []);
      assert s == Fill('0', z) == Fill('0', z - 1) + [] + ['0'];
      ValueOfPush(Fill('0', z - 1) + [], '0', 10, 0);
      DigitIs('0');
    }
  }

  /** Digits and zeros with blanks after them read as the digits' value. */
  lemma LeadOf(z: nat, d: seq<char>, after: nat)
    requires AllDigits(d)
    ensures Lead(Fill('0', z) + d + Fill(' ', after)) == Value(d, 10)
  {
    hide Value, Fill;
    var body := Fill('0', z) + d;
    var s := body + Fill(' ', after);
    FillAt('0', z);
    FillAt(' ', after);
    assert s[..|body|] == body == s[0..|body|];
    assert AllDigits(s[0..|body|]);
    RunOf(s, 0, |body|);
    ValueOfZeros(z, d);
  }

  /** A drawn number reads as its digits, with the sign that was drawn. */
  lemma DrawReads(s: Shape, d: seq<char>)
    requires AllDigits(d) && s.sign in {"", "-", "+", " "}
    ensures ReadInt(Draw(s, d)) == if s.sign == "-" then 0 - Value(d, 10) else Value(d, 10)
  {
    hide Value, Fill, Lead;
    var body := Fill('0', s.zeros) + d;
    var t := body + Fill(' ', s.after);
    FillAt('0', s.zeros);
    FillAt(' ', s.after);
    LeadOf(s.zeros, d, s.after);
    assert Draw(s, d) == Fill(' ', s.before) + (s.sign + t);
    SkipFill(s.before, s.sign + t);
    if body == [] {
      assert t == Fill(' ', s.after);
      BlankReads(s.after);
    } else {
      assert IsDigit(t[0]);
      assert Skip(t) == t;
    }
    assert s.sign != "" ==> (s.sign + t)[0] == s.sign[0] && (s.sign + t)[1..] == t;
    assert s.sign == "" ==> s.sign + t == t;
  }

  lemma BlankReads(n: nat)
    ensures Skip(Fill(' ', n)) == [] && Lead([]) == Lead(Fill(' ', n))
  {
    SkipFill(n, []);
    assert Fill(' ', n) + [] == Fill(' ', n);
    LeadOf(0, [], n);
    LeadOf(0, [], 0);
    assert Fill('0', 0) + [] + Fill(' ', n) == Fill(' ', n);
  }

  /** A long long has at most 22 digits in the bases from 8 on. */
  lemma Word64Digits(n: nat, base: nat, upper: bool)
    requires 8 <= base <= 36 && n < 0x1_0000_0000_0000_0000
    ensures |Digits(n, base, upper)| <= 22
  {
    hide *;
    LongPower();
    OctalCount(n, base, upper, 22);
  }

  lemma LongPower()
    ensures Pow2(66) == 0x4_0000_0000_0000_0000
  {
    assert Pow2(8) == 0x100 && Pow2(2) == 4;
    hide Pow2;
    Pow2Sum(8, 8);
    Pow2Sum(16, 16);
    Pow2Sum(32, 32);
    Pow2Sum(64, 2);
  }

  lemma {:induction false} OctalCount(n: nat, base: nat, upper: bool, k: nat)
    requires 8 <= base <= 36 && 1 <= k && n < Pow2(3 * k)
    ensures |Digits(n, base, upper)| <= k
    decreases k
  {
    hide DigitChar, Pow2, Digits;
    DigitsOf(n, base, upper);
    if n >= base {
      Eighth(n, base);
      EightTimes(k);
      if k == 1 {
        Pow2Zero();
      }
      OctalCount(n / base, base, upper, k - 1);
    }
  }

  lemma Pow2Zero()
    ensures Pow2(0) == 1
  {
  }

  lemma EightTimes(k: nat)
    requires k >= 1
    ensures Pow2(3 * k) == 8 * Pow2(3 * (k - 1))
  {
    Pow2Sum(3, 3 * (k - 1));
    assert Pow2(3) == 8;
  }

  lemma Eighth(n: nat, base: nat)
    requires base >= 8
    ensures 8 * (n / base) <= n
  {
    assert n / base * 8 <= n / base * base <= n;
  }

  lemma ShownDecimal(value: nat, f: Flags)
    ensures AllDigits(Shown(value, 10, f)) && Value(Shown(value, 10, f), 10) == value
  {
    hide Digits, Value;
    DecimalDigits(value, f.uppercase);
    DigitsDenote(value, 10, f.uppercase);
    ValueOfNothing(10);
  }

  /** A decimal conversion prints the number it was given, under all flags (but '#', which decimals ignore),
      widths and precisions, exactly when its zeros leave room for a minus sign. */
  lemma NumberReads(value: nat, negative: bool, prec: nat, width: nat, f: Flags)
    requires value < 0x1_0000_0000_0000_0000 && !f.hash
    ensures ReadInt(NumberText(value, negative, 10, prec, width, f)) == (if negative then 0 - value else value) <==>
            !negative || value == 0 || f.left || (prec < BUFFER_SIZE && (!f.zeropad || width <= BUFFER_SIZE))
  {
    hide Digits, Value, ReadInt, NumberText, Shown, Draw;
    Word64Digits(value, 10, f.uppercase);
    var d := Shown(value, 10, f);
    ShownAre(value, 10, f);
    ShownFits(value, f);
    ShownDecimal(value, f);
    NumberLayout(value, negative, 10, prec, width, f);
    DrawReads(NumberShape(|d|, negative, prec, width, f), d);
  }

  lemma ShownFits(value: nat, f: Flags)
    requires value < 0x1_0000_0000_0000_0000
    ensures |Shown(value, 10, f)| <= 22
  {
    hide Digits;
    Word64Digits(value, 10, f.uppercase);
  }

  /** What the plain conversion of a 32-bit number prints, the parser reads as that number. */
  lemma AtoiOfNumber(value: nat, rest: seq<char>)
    requires value < 0x1_0000_0000 && (rest == [] || !IsDigit(rest[0]))
    ensures var text := NumberText(value, false, 10, 0, 0, NO_FLAGS);
            && DigitRun(text + rest, 0) == |text|
            && Value((text + rest)[0..|text|], 10) % 0x1_0000_0000 == value
  {
    hide Digits, Value, NumberText, Shown, Fill;
    var text, d := NumberText(value, false, 10, 0, 0, NO_FLAGS), Shown(value, 10, NO_FLAGS);
    ShownFits(value, NO_FLAGS);
    Word64Digits(value, 10, false);
    ShownDecimal(value, NO_FLAGS);
    NumberLayout(value, false, 10, 0, 0, NO_FLAGS);
    FillNothing(' ');
    FillNothing('0');
    assert text == d;
    assert (text + rest)[0..|text|] == text;
    RunOf(text + rest, 0, |text|);
  }
}
