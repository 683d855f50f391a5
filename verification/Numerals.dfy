/** Numbers written in a base from 2 to 36, most significant digit first. */
module Numerals {
  import opened Words

  function DigitChar(d: nat, upper: bool): char
    requires d < 36
  {
    if d < 10 then '0' + d as char else (if upper then 'A' else 'a') + (d - 10) as char
  }

  predicate IsDigit(c: char) {
    '0' <= c <= '9'
  }

  function DigitValue(c: char): nat {
    if IsDigit(c) then (c - '0') as nat
    else if 'a' <= c <= 'z' then 10 + (c - 'a') as nat
    else if 'A' <= c <= 'Z' then 10 + (c - 'A') as nat
    else 0
  }

  lemma Shrinks(n: nat, base: nat)
    requires base >= 2
    ensures 2 * (n / base) <= n
  {
    assert n / base * 2 <= n / base * base <= n;
  }

  function Digits(n: nat, base: nat, upper: bool): seq<char>
    requires 2 <= base <= 36
    decreases n
  {
    (if n < base then [] else Shrinks(n, base); Digits(n / base, base, upper)) + [DigitChar(n % base, upper)]
  }

  /** The number that a string of digits denotes. */
  function Value(s: seq<char>, base: nat): nat {
    if s == [] then 0 else Value(s[..|s| - 1], base) * base + DigitValue(s[|s| - 1])
  }

  lemma Regroup<T>(a: seq<T>, b: seq<T>, c: seq<T>)
    ensures a + (b + c) == a + b + c
  {
  }

  function Reverse<T>(s: seq<T>): seq<T> {
    if s == [] then [] else Reverse(s[1..]) + [s[0]]
  }

  lemma DigitRoundTrip(d: nat, upper: bool)
    requires d < 36
    ensures DigitValue(DigitChar(d, upper)) == d
    ensures IsDigit(DigitChar(d, upper)) <==> d < 10
  {
  }

  lemma ValueOfPush(s: seq<char>, c: char, base: nat, v: nat)
    requires Value(s, base) == v
    ensures Value(s + [c], base) == v * base + DigitValue(c)
  {
    assert (s + [c])[..|s|] == s;
  }

  lemma ValueOfNothing(base: nat)
    ensures Value([], base) == 0
  {
  }

  lemma DigitsOf(n: nat, base: nat, upper: bool)
    requires 2 <= base <= 36
    ensures Digits(n, base, upper) ==
            (if n < base then [] else Digits(n / base, base, upper)) + [DigitChar(n % base, upper)]
  {
  }

  lemma DivMod(n: nat, base: nat)
    requires base > 0
    ensures n / base * base + n % base == n && n % base < base
    ensures n < base ==> n / base == 0
  {
  }

  /** Appending the last digit to the text of the quotient gives the text of the number. */
  lemma ValueOfLast(high: seq<char>, n: nat, base: nat, upper: bool)
    requires 2 <= base <= 36 && Value(high, base) == n / base
    ensures Value(high + [DigitChar(n % base, upper)], base) == n
  {
    hide *;
    DivMod(n, base);
    DigitRoundTrip(n % base, upper);
    ValueOfPush(high, DigitChar(n % base, upper), base, n / base);
  }

  lemma {:induction false} DigitsDenote(n: nat, base: nat, upper: bool)
    requires 2 <= base <= 36
    ensures Value(Digits(n, base, upper), base) == n
    decreases n
  {
    hide *;
    DigitsOf(n, base, upper);
    DivMod(n, base);
    if n < base {
      assert Value([], base) == 0 by { ValueOfNothing(base); }
      ValueOfLast([], n, base, upper);
    } else {
      Shrinks(n, base);
      DigitsDenote(n / base, base, upper);
      ValueOfLast(Digits(n / base, base, upper), n, base, upper);
    }
  }

  /** Digits in base 10 are decimal digits. */
  lemma {:induction false} DecimalDigits(n: nat, upper: bool)
    ensures Digits(n, 10, upper) != []
    ensures forall k :: 0 <= k < |Digits(n, 10, upper)| ==> IsDigit(Digits(n, 10, upper)[k])
    decreases n
  {
    hide DigitChar, IsDigit;
    DigitRoundTrip(n % 10, upper);
    if n >= 10 {
      DecimalDigits(n / 10, upper);
    }
  }

  /** At most k digits are needed below base to the power k. */
  lemma {:induction false} DigitsCount(n: nat, base: nat, upper: bool, k: nat, limit: nat)
    requires 2 <= base <= 36 && 1 <= k && n < limit && limit <= Pow2(k)
    ensures 1 <= |Digits(n, base, upper)| <= k
    decreases k
  {
    hide DigitChar;
    if n >= base {
      Shrinks(n, base);
      DigitsCount(n / base, base, upper, k - 1, Pow2(k - 1));
    }
  }

  lemma Word32Digits(n: nat, base: nat, upper: bool)
    requires 2 <= base <= 36 && n < 0x1_0000_0000
    ensures 1 <= |Digits(n, base, upper)| <= 32
  {
    assert Pow2(8) == 0x100;
    Pow2Sum(8, 8);
    Pow2Sum(16, 16);
    DigitsCount(n, base, upper, 32, 0x1_0000_0000);
  }

  lemma {:induction false} ReverseOfConcat<T>(s: seq<T>, t: seq<T>)
    ensures Reverse(s + t) == Reverse(t) + Reverse(s)
  {
    if s == [] {
      assert s + t == t;
    } else {
      ReverseOfConcat(s[1..], t);
      assert (s + t)[1..] == s[1..] + t;
    }
  }

  lemma {:induction false} ReverseAt<T>(s: seq<T>, k: nat)
    requires k < |s|
    ensures |Reverse(s)| == |s| && Reverse(s)[k] == s[|s| - 1 - k]
  {
    if |s| > 1 {
      ReverseAt(s[1..], if k < |s| - 1 then k else 0);
    }
  }

  lemma {:induction false} ReverseTwice<T>(s: seq<T>)
    ensures Reverse(Reverse(s)) == s && |Reverse(s)| == |s|
  {
    if s != [] {
      ReverseTwice(s[1..]);
      ReverseOfConcat(Reverse(s[1..]), [s[0]]);
      assert Reverse([s[0]]) == [s[0]];
    }
  }

  /** A number written with the digits of a table. */
  function Numeral(n: nat, base: nat, table: string): string
    requires 2 <= base <= |table|
    decreases n
  {
    DivMod(n, base);
    (if n < base then "" else Shrinks(n, base); Numeral(n / base, base, table)) + [table[n % base]]
  }

  /** The digits are those of any table that has them. */
  lemma {:induction false} DigitsAreNumeral(n: nat, base: nat, upper: bool, table: string)
    requires 2 <= base <= 36 && base <= |table| && forall k :: 0 <= k < base ==> table[k] == DigitChar(k, upper)
    ensures Digits(n, base, upper) == Numeral(n, base, table)
    decreases n
  {
    DigitsOf(n, base, upper);
    hide Digits, DigitChar;
    if n >= base {
      Shrinks(n, base);
      DigitsAreNumeral(n / base, base, upper, table);
    }
  }
}
