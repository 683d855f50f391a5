/**
 Single bits of a 32-bit word. A word is a natural number below 2^32, bit k its k-th binary digit;
 SetBit and ClearBit are what `w |= 1 << k` and `w &= ~(1 << k)` store.
 */
module Bits {
  import opened Words

  const BITS_PER_CELL: nat := 32

  predicate Bit(w: nat, k: nat) {
    if k == 0 then w % 2 == 1 else Bit(w / 2, k - 1)
  }

  function SetBit(w: nat, k: nat): nat {
    if k == 0 then w / 2 * 2 + 1 else SetBit(w / 2, k - 1) * 2 + w % 2
  }

  function ClearBit(w: nat, k: nat): nat {
    if k == 0 then w / 2 * 2 else ClearBit(w / 2, k - 1) * 2 + w % 2
  }

  lemma {:induction false} BitOfSet(w: nat, k: nat, j: nat)
    ensures Bit(SetBit(w, k), j) <==> j == k || Bit(w, j)
  {
    if k > 0 && j > 0 {
      BitOfSet(w / 2, k - 1, j - 1);
      assert SetBit(w, k) / 2 == SetBit(w / 2, k - 1);
    } else if k == 0 && j > 0 {
      assert SetBit(w, k) / 2 == w / 2;
    }
  }

  lemma {:induction false} BitOfClear(w: nat, k: nat, j: nat)
    ensures Bit(ClearBit(w, k), j) <==> j != k && Bit(w, j)
  {
    if k > 0 && j > 0 {
      BitOfClear(w / 2, k - 1, j - 1);
      assert ClearBit(w, k) / 2 == ClearBit(w / 2, k - 1);
    } else if k == 0 && j > 0 {
      assert ClearBit(w, k) / 2 == w / 2;
    }
  }

  lemma {:induction false} BitBounds(w: nat, k: nat, n: nat)
    requires w < Pow2(n) && k < n
    ensures SetBit(w, k) < Pow2(n) && ClearBit(w, k) < Pow2(n)
  {
    if k > 0 {
      BitBounds(w / 2, k - 1, n - 1);
    }
  }

  lemma WordBounds(w: nat, k: nat)
    requires w < WORD_LIMIT && k < BITS_PER_CELL
    ensures SetBit(w, k) < WORD_LIMIT && ClearBit(w, k) < WORD_LIMIT
  {
    Pow2Values();
    BitBounds(w, k, 32);
  }

  lemma {:induction false} NoBits(k: nat)
    ensures !Bit(0, k)
  {
    if k > 0 { NoBits(k - 1); }
  }

  /** Digits above bit n - 1 do not show below it. */
  lemma {:induction false} BitBelow(w: nat, q: nat, n: nat, k: nat)
    requires k < n
    ensures Bit(w + Pow2(n) * q, k) == Bit(w, k)
  {
    var r := Pow2(n - 1) * q;
    assert Pow2(n) * q == 2 * r;
    assert (w + 2 * r) / 2 == w / 2 + r && (w + 2 * r) % 2 == w % 2;
    if k > 0 {
      BitBelow(w / 2, q, n - 1, k - 1);
    }
  }

  predicate AllSet(w: nat, n: nat) {
    forall k :: 0 <= k < n ==> Bit(w, k)
  }

  /** A word with every bit set is the all-ones word, and only that one. */
  lemma {:induction false} AllOnes(w: nat, n: nat)
    requires w < Pow2(n)
    ensures w == Pow2(n) - 1 <==> AllSet(w, n)
  {
    if n > 0 {
      AllOnes(w / 2, n - 1);
      assert w == Pow2(n) - 1 <==> w / 2 == Pow2(n - 1) - 1 && w % 2 == 1;
      AllSetStep(w, n);
    }
  }

  lemma AllSetStep(w: nat, n: nat)
    requires n > 0
    ensures AllSet(w, n) <==> AllSet(w / 2, n - 1) && w % 2 == 1
  {
    if AllSet(w, n) {
      assert Bit(w, 0);
      forall k | 0 <= k < n - 1 ensures Bit(w / 2, k) {
        assert Bit(w, k + 1);
      }
    }
    if AllSet(w / 2, n - 1) && w % 2 == 1 {
      forall k | 0 <= k < n ensures Bit(w, k) {
        assert k == 0 || Bit(w / 2, k - 1);
      }
    }
  }

  lemma AllOnesWord(w: nat)
    requires w < WORD_LIMIT
    ensures w == WORD_LIMIT - 1 <==> AllSet(w, BITS_PER_CELL)
  {
    Pow2Values();
    AllOnes(w, 32);
  }

  /** The bits of `w & (1 << k)` as a word, and the same word read as a signed int. */
  function Masked(w: nat, k: nat): nat {
    if Bit(w, k) then Pow2(k) else 0
  }

  function AsSigned(w: nat): int {
    if w < 0x8000_0000 then w else w - WORD_LIMIT
  }

  lemma {:induction false} Pow2Small(k: nat)
    requires k < 31
    ensures 0 < Pow2(k) < 0x8000_0000
    decreases 31 - k
  {
    if k == 30 {
      Pow2Values();
      assert Pow2(31) == 2 * Pow2(30);
    } else {
      Pow2Small(k + 1);
      assert Pow2(k + 1) == 2 * Pow2(k);
    }
  }

  /** Bitmap::test compares a signed int with 0, so it sees every bit but the last. */
  lemma SignedTest(w: nat, k: nat)
    requires k < BITS_PER_CELL
    ensures AsSigned(Masked(w, k)) > 0 <==> Bit(w, k) && k != 31
  {
    if k < 31 {
      Pow2Small(k);
    } else {
      Pow2Values();
    }
  }
}
