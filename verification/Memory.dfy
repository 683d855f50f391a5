/**
 Byte-addressed memory of the i686 target: one byte for each of the 2^32 addresses.
 A 32-bit word is stored little-endian in four consecutive bytes.
 */
module Memory {
  import opened Words

  type Memory = seq<Byte>

  ghost predicate Whole(m: Memory) {
    |m| == WORD_LIMIT
  }

  function Load32(m: Memory, a: nat): (w: nat)
    requires a + 4 <= |m|
    ensures w < WORD_LIMIT
  {
    m[a] as nat + 0x100 * m[a + 1] as nat + 0x1_0000 * m[a + 2] as nat + 0x100_0000 * m[a + 3] as nat
  }

  /** The four base-256 digits of a word denote the word. */
  lemma Digits(w: nat)
    ensures w == w % 0x100 + 0x100 * (w / 0x100 % 0x100) + 0x1_0000 * (w / 0x1_0000 % 0x100) +
            0x100_0000 * (w / 0x100_0000)
  {
    assert w / 0x1_0000 == w / 0x100 / 0x100 && w / 0x100_0000 == w / 0x1_0000 / 0x100;
  }

  function Bytes(m: Memory, a: nat, w: nat): (m': Memory)
    requires a + 4 <= |m| && w < WORD_LIMIT
    ensures |m'| == |m|
    ensures forall x {:trigger m'[x]} :: 0 <= x < |m| && !(a <= x < a + 4) ==> m'[x] == m[x]
    ensures m'[a] as nat == w % 0x100 && m'[a + 1] as nat == w / 0x100 % 0x100
    ensures m'[a + 2] as nat == w / 0x1_0000 % 0x100 && m'[a + 3] as nat == w / 0x100_0000
  {
    m[a := w % 0x100][a + 1 := w / 0x100 % 0x100][a + 2 := w / 0x1_0000 % 0x100][a + 3 := w / 0x100_0000]
  }

  function Store32(m: Memory, a: nat, w: nat): (m': Memory)
    requires a + 4 <= |m| && w < WORD_LIMIT
    ensures |m'| == |m|
    ensures forall x {:trigger m'[x]} :: 0 <= x < |m| && !(a <= x < a + 4) ==> m'[x] == m[x]
    ensures Load32(m', a) == w
    ensures forall b: nat {:trigger Load32(m', b)} ::
              b + 4 <= |m| && (b + 4 <= a || a + 4 <= b) ==> Load32(m', b) == Load32(m, b)
  {
    Digits(w);
    Bytes(m, a, w)
  }

  /** The two memories agree on the n bytes from a on. */
  ghost predicate Same(m: Memory, m': Memory, a: nat, n: nat)
    requires a + n <= |m| == |m'|
  {
    forall x {:trigger m[x]} {:trigger m'[x]} :: a <= x < a + n ==> m'[x] == m[x]
  }
}
