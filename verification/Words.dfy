/** What several modules count and choose with: 32-bit words, bytes, powers of two, an optional value. */
module Words {
  const WORD_LIMIT: nat := 0x1_0000_0000

  type Byte = b: nat | b < 0x100

  datatype Option<T> = None | Some(value: T)

  function Min(a: int, b: int): int {
    if a < b then a else b
  }

  function Max(a: int, b: int): int {
    if a < b then b else a
  }

  function Pow2(n: nat): nat {
    if n == 0 then 1 else 2 * Pow2(n - 1)
  }

  lemma {:induction false} Pow2Sum(a: nat, b: nat)
    ensures Pow2(a + b) == Pow2(a) * Pow2(b)
  {
    if a > 0 {
      Pow2Sum(a - 1, b);
      assert Pow2(a + b) == 2 * Pow2(a - 1 + b);
      TwiceProduct(Pow2(a - 1), Pow2(b));
    }
  }

  lemma TwiceProduct(m: nat, n: nat)
    ensures 2 * m * n == 2 * (m * n)
  {
  }

  lemma Pow2Values()
    ensures Pow2(12) == 4096 && Pow2(31) == 0x8000_0000 && Pow2(32) == WORD_LIMIT
  {
    assert Pow2(4) == 16;
    Pow2Sum(8, 4);
    Pow2Sum(4, 4);
    Pow2Sum(8, 8);
    Pow2Sum(16, 16);
    assert Pow2(32) == 2 * Pow2(31);
  }
}
