/** A bitmap of blocks in 32-bit cells: a set bit is a used block. */
module Bitmap {
  import opened Words
  import opened Bits

  ghost predicate Cells(cells: seq<nat>) {
    forall i :: 0 <= i < |cells| ==> cells[i] < WORD_LIMIT
  }

  function Blocks(cells: seq<nat>): nat {
    |cells| * BITS_PER_CELL
  }

  predicate Used(cells: seq<nat>, b: nat)
    requires b < Blocks(cells)
  {
    Bit(cells[b / BITS_PER_CELL], b % BITS_PER_CELL)
  }

  function Put(cells: seq<nat>, b: nat, used: bool): (cells': seq<nat>)
    requires b < Blocks(cells)
    ensures |cells'| == |cells|
  {
    var i, k := b / BITS_PER_CELL, b % BITS_PER_CELL;
    cells[i := if used then SetBit(cells[i], k) else ClearBit(cells[i], k)]
  }

  /** Putting one block changes that block and no other. */
  lemma UsedOfPut(cells: seq<nat>, b: nat, used: bool, c: nat)
    requires b < Blocks(cells) && c < Blocks(cells)
    ensures Used(Put(cells, b, used), c) <==> if c == b then used else Used(cells, c)
  {
    var i := b / BITS_PER_CELL;
    BitOfSet(cells[i], b % BITS_PER_CELL, c % BITS_PER_CELL);
    BitOfClear(cells[i], b % BITS_PER_CELL, c % BITS_PER_CELL);
  }

  lemma PutCells(cells: seq<nat>, b: nat, used: bool)
    requires Cells(cells) && b < Blocks(cells)
    ensures Cells(Put(cells, b, used))
  {
    WordBounds(cells[b / BITS_PER_CELL], b % BITS_PER_CELL);
  }

  method Set(bitmap: array<nat>, index: nat)
    requires index < Blocks(bitmap[..])
    modifies bitmap
    ensures bitmap[..] == Put(old(bitmap[..]), index, true)
  {
    bitmap[index / BITS_PER_CELL] := SetBit(bitmap[index / BITS_PER_CELL], index % BITS_PER_CELL);
  }

  method Clear(bitmap: array<nat>, index: nat)
    requires index < Blocks(bitmap[..])
    modifies bitmap
    ensures bitmap[..] == Put(old(bitmap[..]), index, false)
  {
    bitmap[index / BITS_PER_CELL] := ClearBit(bitmap[index / BITS_PER_CELL], index % BITS_PER_CELL);
  }

  /** The last block of every cell tests as free, whatever its bit is. */
  method Test(bitmap: array<nat>, index: nat) returns (used: bool)
    requires index < Blocks(bitmap[..])
    ensures used <==> Used(bitmap[..], index) && index % BITS_PER_CELL != 31
  {
    var result := AsSigned(Masked(bitmap[index / BITS_PER_CELL], index % BITS_PER_CELL));
    SignedTest(bitmap[index / BITS_PER_CELL], index % BITS_PER_CELL);
    used := result > 0;
  }
}
