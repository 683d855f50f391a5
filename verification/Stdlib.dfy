/** itoa of the kernel's C library. */
module Stdlib {
  import opened Words
  import opened Numerals

  const INT_MIN: int := -0x8000_0000
  const INT_MAX: int := 0x7FFF_FFFF

  /** One character for every remainder from -35 to 35, so that the sign of the remainder does not matter. */
  const TABLE: string := FALLING + RISING
  const FALLING: string := "zyxwvutsrqpo" + "nmlkjihgfedc" + "ba987654321"
  const RISING: string := "0123456789" + "abcdefghijkl" + "mnopqrstuvwx" + "yz"

  /** Division and remainder of C: the quotient is rounded toward zero. */
  function Quotient(a: int, b: nat): int
    requires b > 0
  {
    if a >= 0 then a / b else -(-a / b)
  }

  function Remainder(a: int, b: nat): int
    requires b > 0
  {
    a - Quotient(a, b) * b
  }

  function Magnitude(v: int): nat {
    if v < 0 then -v else v
  }

  function Sign(v: int, base: nat): seq<char> {
    if v < 0 && base == 10 then "-" else ""
  }

  /** What itoa writes: the magnitude's digits, with a sign in base 10 only. */
  function IntText(v: int, base: nat): seq<char>
    requires 2 <= base <= 36
  {
    Sign(v, base) + Digits(Magnitude(v), base, false)
  }

  /** The int that a decimal text denotes. */
  function IntValue(s: seq<char>): int {
    if s != [] && s[0] == '-' then 0 - Value(s[1..], 10) else Value(s, 10)
  }

  lemma FallingAt(i: nat)
    requires i < 35
    ensures |FALLING| == 35 && FALLING[i] == DigitChar(35 - i, false)
  {
    if i < 12 {
      assert FALLING[i] == "zyxwvutsrqpo"[i];
    } else if i < 24 {
      assert FALLING[i] == "nmlkjihgfedc"[i - 12];
    } else {
      assert FALLING[i] == "ba987654321"[i - 24];
    }
  }

  lemma RisingAt(i: nat)
    requires i < 36
    ensures |RISING| == 36 && RISING[i] == DigitChar(i, false)
  {
    if i < 10 {
      assert RISING[i] == "0123456789"[i];
    } else if i < 22 {
      assert RISING[i] == "abcdefghijkl"[i - 10];
    } else if i < 34 {
      assert RISING[i] == "mnopqrstuvwx"[i - 22];
    } else {
      assert RISING[i] == "yz"[i - 34];
    }
  }

  lemma TableAt(r: int)
    requires Magnitude(r) < 36
    ensures |TABLE| == 71 && 0 <= 35 + r < 71 && TABLE[35 + r] == DigitChar(Magnitude(r), false)
  {
    FallingAt(if r < 0 then 35 + r else 0);
    RisingAt(if r < 0 then 0 else r);
  }

  /** The text is the number in the base's digits, with a '-' for a negative number in base 10 only. */
  lemma IntTextIs(v: int, base: nat)
    requires 2 <= base <= 36
    ensures |RISING| == 36
    ensures IntText(v, base) ==
            (if v < 0 && base == 10 then "-" else "") + Numeral(if v < 0 then -v else v, base, RISING)
  {
    forall k | 0 <= k < base ensures |RISING| == 36 && RISING[k] == DigitChar(k, false) {
      RisingAt(k);
    }
    RisingAt(0);
    DigitsAreNumeral(Magnitude(v), base, false, RISING);
    hide Digits, Numeral, RISING;
  }

  /** 33 characters, the terminator included, are enough for every int in every base. */
  lemma IntTextFits(v: int, base: nat)
    requires INT_MIN <= v <= INT_MAX && 2 <= base <= 36
    ensures |IntText(v, base)| <= 32
  {
    hide Digits;
    Word32Digits(Magnitude(v), base, false);
    if base == 10 {
      DigitsOf(Magnitude(v), 10, false);
      assert Pow2(28) == 0x1000_0000 by { Pow2Sum(14, 14); assert Pow2(14) == 0x4000 by { Pow2Sum(7, 7); } }
      DigitsCount(Magnitude(v) / 10, 10, false, 28, 0x1000_0000);
    }
  }

  lemma NaturalDivision(m: nat, base: nat)
    requires 2 <= base
    ensures m == m / base * base + m % base
    ensures m / base == 0 <==> m < base
  {
  }

  /** Truncated division of a negative number is the natural one with the signs turned. */
  lemma Division(v: int, base: nat)
    requires 2 <= base
    ensures Magnitude(Quotient(v, base)) == Magnitude(v) / base
    ensures Magnitude(Remainder(v, base)) == Magnitude(v) % base < base
    ensures Quotient(v, base) == 0 <==> Magnitude(v) < base
  {
    var m := Magnitude(v);
    NaturalDivision(m, base);
    var q := m / base;
    assert v < 0 ==> (-q) * base == -(q * base);
    assert Quotient(v, base) == if v >= 0 then q else -q;
  }

  /** In base 10 the text denotes the int, whatever the int, the smallest included. */
  lemma IntTextDenotes(v: int)
    ensures IntValue(IntText(v, 10)) == v
  {
    hide Digits, Value;
    var d := Digits(Magnitude(v), 10, false);
    DigitsDenote(Magnitude(v), 10, false);
    DecimalDigits(Magnitude(v), false);
    assert IsDigit(d[0]);
    if v < 0 {
      assert ("-" + d)[1..] == d;
    } else {
      assert "" + d == d;
    }
  }

  /** Two ints have the same text exactly when they are the same or, off base 10, differ in sign only. */
  lemma IntTextInjective(v: int, w: int, base: nat)
    requires 2 <= base <= 36
    ensures IntText(v, base) == IntText(w, base) <==> v == w || (base != 10 && v == -w)
  {
    hide Digits, Value;
    if base == 10 {
      IntTextDenotes(v);
      IntTextDenotes(w);
    } else {
      assert forall d: seq<char> :: "" + d == d;
      DigitsDenote(Magnitude(v), base, false);
      DigitsDenote(Magnitude(w), base, false);
    }
  }

  lemma TurnedAt(s: seq<char>, t: seq<char>)
    requires |s| == |t| && forall k :: 0 <= k < |s| ==> t[k] == s[|s| - 1 - k]
    ensures t == Reverse(s)
  {
    hide Reverse;
    ReverseTwice(s);
    forall k | 0 <= k < |s| ensures Reverse(s)[k] == t[k] {
      ReverseAt(s, k);
    }
  }

  /** t is s with the characters from from to to swapped end for end, as far as low and ptr have come. */
  ghost predicate Swapped(s: seq<char>, t: seq<char>, from: nat, to: nat, low: nat, ptr: int) {
    && |s| == |t| && from <= low <= ptr + 1 <= to + 1 <= |s| && low + ptr == from + to
    && forall k :: 0 <= k < |s| ==> t[k] == s[if from <= k < low || ptr < k <= to then from + to - k else k]
  }

  lemma SwapStep(s: seq<char>, t: seq<char>, from: nat, to: nat, low: nat, ptr: int)
    requires Swapped(s, t, from, to, low, ptr) && low < ptr
    ensures Swapped(s, t[low := t[ptr]][ptr := t[low]], from, to, low + 1, ptr - 1)
  {
  }

  lemma SwappedAll(s: seq<char>, t: seq<char>, from: nat, to: nat, low: nat, ptr: int)
    requires Swapped(s, t, from, to, low, ptr) && low >= ptr
    ensures t[..from] == s[..from] && t[to + 1..] == s[to + 1..] && t[from..to + 1] == Reverse(s[from..to + 1])
  {
    hide Reverse;
    TurnedAt(s[from..to + 1], t[from..to + 1]);
  }

  /** Swaps the characters from low to ptr, both included, in place. */
  method Invert(str: array<char>, from: nat, to: nat)
    requires from <= to < str.Length
    modifies str
    ensures str[..from] == old(str[..])[..from] && str[to + 1..] == old(str[..])[to + 1..]
    ensures str[from..to + 1] == Reverse(old(str[..])[from..to + 1])
  {
    ghost var was := str[..];
    var low, ptr := from, to;
    assert Swapped(was, str[..], from, to, low, ptr);
    hide Swapped, Reverse;
    while low < ptr
      invariant from <= low <= ptr + 1 <= to + 1
      invariant Swapped(was, str[..], from, to, low, ptr)
    {
      SwapStep(was, str[..], from, to, low, ptr);
      ghost var before := str[..];
      str[low], str[ptr] := str[ptr], str[low];
      assert str[..] == before[low := before[ptr]][ptr := before[low]];
      low := low + 1;
      ptr := ptr - 1;
    }
    SwappedAll(was, str[..], from, to, low, ptr);
  }

  /** Taking one digit off what is left and appending it to what is written. */
  lemma DigitStep(text: seq<char>, written: seq<char>, m: nat, base: nat)
    requires 2 <= base <= 36 && text == Digits(m, base, false) + Reverse(written)
    ensures |written| < |text| && |Reverse(written)| == |written|
    ensures var c := DigitChar(m % base, false);
            text == (if m < base then [] else Digits(m / base, base, false)) + Reverse(written + [c])
  {
    hide *;
    var c := DigitChar(m % base, false);
    ReverseTwice(written);
    DigitsOf(m, base, false);
    ReversedPush(written, c);
    Regroup(if m < base then [] else Digits(m / base, base, false), [c], Reverse(written));
  }

  lemma ReversedPush(s: seq<char>, c: char)
    ensures Reverse(s + [c]) == [c] + Reverse(s)
  {
    ReverseOfConcat(s, [c]);
    assert Reverse([c]) == [c];
  }

  /** The conversion loop: the digits of the magnitude, last digit first. */
  method PutDigits(value: int, str: array<char>, low: nat, base: nat) returns (ptr: nat)
    requires 2 <= base <= 36 && low + |Digits(Magnitude(value), base, false)| <= str.Length
    modifies str
    ensures var text := Digits(Magnitude(value), base, false);
            && low < ptr == low + |text| && |Reverse(text)| == |text|
            && str[..low] == old(str[..low]) && str[low..ptr] == Reverse(text) && str[ptr..] == old(str[..])[ptr..]
  {
    hide Digits, Reverse, DigitChar, Quotient, Magnitude, Remainder, TABLE;
    ghost var text := Digits(Magnitude(value), base, false);
    var v, more := value, true;
    ptr := low;
    assert str[low..low] == [] && Reverse(str[low..low]) == [] by {
      ReverseTwice(str[low..low]);
    }
    while more
      invariant low <= ptr <= str.Length
      invariant str[..low] == old(str[..low]) && str[ptr..] == old(str[..])[ptr..]
      invariant text == (if more then Digits(Magnitude(v), base, false) else []) + Reverse(str[low..ptr])
      invariant more || low < ptr
      decreases str.Length - ptr
    {
      ghost var written := str[low..ptr];
      Division(v, base);
      TableAt(Remainder(v, base));
      DigitStep(text, written, Magnitude(v), base);
      str[ptr] := TABLE[35 + Remainder(v, base)];
      ptr := ptr + 1;
      assert str[low..ptr] == written + [str[ptr - 1]];
      v := Quotient(v, base);
      more := v != 0;
    }
    assert text == Reverse(str[low..ptr]);
    ReverseTwice(str[low..ptr]);
  }

  /** The sign and the digits, last digit first. */
  method PutReversed(value: int, str: array<char>, base: nat) returns (low: nat, ptr: nat)
    requires 2 <= base <= 36 && |IntText(value, base)| <= str.Length
    modifies str
    ensures var text := Digits(Magnitude(value), base, false);
            && low == |Sign(value, base)| < ptr == low + |text|
            && str[..low] == Sign(value, base) && str[low..ptr] == Reverse(text) && str[ptr..] == old(str[..])[ptr..]
  {
    hide Digits, Reverse, Magnitude;
    low := 0;
    if value < 0 && base == 10 {
      str[0] := '-';
      low := 1;
    }
    ptr := PutDigits(value, str, low, base);
  }

  method Itoa(value: int, str: array<char>, base: int)
    requires INT_MIN <= value <= INT_MAX
    requires str.Length > if 2 <= base <= 36 then |IntText(value, base)| else 0
    modifies str
    ensures var text := if 2 <= base <= 36 then IntText(value, base) else "";
            str[..|text|] == text && str[|text|] == '\0' && str[|text| + 1..] == old(str[..])[|text| + 1..]
  {
    if base < 2 || base > 36 {
      str[0] := '\0';
      return;
    }
    hide Digits, Reverse, Magnitude, Sign;
    var low, ptr := PutReversed(value, str, base);
    ReverseTwice(Digits(Magnitude(value), base, false));
    ghost var reversed := str[low..ptr];
    str[ptr] := '\0';
    assert str[low..ptr] == reversed;
    Invert(str, low, ptr - 1);
    assert str[..ptr] == str[..low] + str[low..ptr];
  }
}
