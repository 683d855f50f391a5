/** The physical frame allocator: one bit for every 4 KB block of memory. */
module PhysicalMgr {
  import opened Words
  import opened Bits
  import opened Bitmap

  const BLOCK_SIZE: nat := 4096
  const USABLE_MEMORY_START: nat := 0x10_0000

  /** The lowest clear block at or after b; the number of blocks if there is none. */
  function LowestClear(cells: seq<nat>, b: nat): (c: nat)
    requires b <= Blocks(cells)
    ensures b <= c <= Blocks(cells)
    ensures c < Blocks(cells) ==> !Used(cells, c)
    ensures forall d :: b <= d < c ==> Used(cells, d)
    decreases Blocks(cells) - b
  {
    if b == Blocks(cells) || !Used(cells, b) then b else LowestClear(cells, b + 1)
  }

  /** The bitmap after allocate_block, and the block it hands out; the number of blocks for null. */
  function Allocate(cells: seq<nat>): (seq<nat>, nat) {
    var b := LowestClear(cells, 0);
    (if b < Blocks(cells) then Put(cells, b, true) else cells, b)
  }

  /** An address that is not a block's is ignored. */
  function Free(cells: seq<nat>, address: nat): seq<nat>
    requires address / BLOCK_SIZE < Blocks(cells)
  {
    if address % BLOCK_SIZE != 0 then cells else Put(cells, address / BLOCK_SIZE, false)
  }

  /** Does the range of bytes, one byte beyond its end included, touch block c? */
  predicate Touches(start: nat, size: nat, c: nat) {
    start / BLOCK_SIZE <= c <= (start + size) / BLOCK_SIZE
  }

  /** Every block the range touches has a bit, and no address wraps. */
  predicate Within(start: nat, size: nat, blocks: nat) {
    (start + size) / BLOCK_SIZE < blocks && start + size < WORD_LIMIT
  }

  /** The blocks that booting keeps: the first megabyte, the bitmap itself and the kernel. */
  ghost function Reserved(bitmap_start: nat, bitmap_size: nat, kernel_start: nat, kernel_size: nat): iset<nat> {
    iset c: nat |
      || Touches(0, USABLE_MEMORY_START, c)
      || Touches(bitmap_start, bitmap_size, c)
      || Touches(kernel_start, kernel_size, c)
  }

  /** From cells to cells', block b was taken: it was clear, all blocks below it were used, and nothing else
      has changed. */
  ghost predicate LowestTaken(cells: seq<nat>, cells': seq<nat>, b: nat) {
    && |cells'| == |cells| && b < Blocks(cells) && !Used(cells, b)
    && (forall c :: 0 <= c < b ==> Used(cells, c))
    && forall c :: 0 <= c < Blocks(cells) ==> (Used(cells', c) <==> c == b || Used(cells, c))
  }

  ghost predicate AllUsed(cells: seq<nat>) {
    forall c :: 0 <= c < Blocks(cells) ==> Used(cells, c)
  }

  lemma AllocateTakes(cells: seq<nat>)
    ensures var (cells', b) := Allocate(cells);
            if AllUsed(cells) then b == Blocks(cells) && cells' == cells else LowestTaken(cells, cells', b)
  {
    var (cells', b) := Allocate(cells);
    if b < Blocks(cells) {
      forall c | 0 <= c < Blocks(cells) ensures Used(cells', c) <==> c == b || Used(cells, c) {
        UsedOfPut(cells, b, true, c);
      }
    }
  }

  lemma NothingUsed(cells: seq<nat>)
    requires forall i :: 0 <= i < |cells| ==> cells[i] == 0
    ensures forall c :: 0 <= c < Blocks(cells) ==> !Used(cells, c)
  {
    forall c | 0 <= c < Blocks(cells) ensures !Used(cells, c) { NoBits(c % BITS_PER_CELL); }
  }

  /** In a cell that is not full, the first block that tests as free is free, the untestable last one too. */
  lemma FirstFree(cells: seq<nat>, i: nat, j: nat)
    requires Cells(cells) && i < |cells| && cells[i] != 0xFFFF_FFFF && j < BITS_PER_CELL
    requires forall b :: 0 <= b < i * BITS_PER_CELL + j ==> Used(cells, b)
    requires Used(cells, i * BITS_PER_CELL + j) ==> j == 31
    ensures !Used(cells, i * BITS_PER_CELL + j) && LowestClear(cells, 0) == i * BITS_PER_CELL + j
  {
    var b := i * BITS_PER_CELL + j;
    if Used(cells, b) {
      forall k | 0 <= k < BITS_PER_CELL ensures Bit(cells[i], k) {
        assert Used(cells, i * BITS_PER_CELL + k);
      }
      AllOnesWord(cells[i]);
    }
  }

  lemma FullCell(cells: seq<nat>, i: nat)
    requires Cells(cells) && i < |cells| && cells[i] == 0xFFFF_FFFF
    ensures forall b :: i * BITS_PER_CELL <= b < (i + 1) * BITS_PER_CELL ==> Used(cells, b)
  {
    AllOnesWord(cells[i]);
  }

  class PhysicalMgr {
    const bitmap: array<nat>

    ghost predicate Valid() reads bitmap {
      Cells(bitmap[..])
    }

    method AllocateBlock() returns (address: nat)
      requires Valid()
      modifies bitmap
      ensures Valid()
      ensures var (cells, b) := Allocate(old(bitmap[..]));
              bitmap[..] == cells && address == if b < Blocks(cells) then b * BLOCK_SIZE else 0
      ensures if AllUsed(old(bitmap[..])) then address == 0 && bitmap[..] == old(bitmap[..])
              else address % 4096 == 0 && LowestTaken(old(bitmap[..]), bitmap[..], address / 4096)
      ensures 0 < bitmap.Length && Used(old(bitmap[..]), 0) ==> (address == 0 <==> AllUsed(old(bitmap[..])))
    {
      AllocateTakes(bitmap[..]);
      for i := 0 to bitmap.Length
        invariant bitmap[..] == old(bitmap[..])
        invariant forall b :: 0 <= b < i * BITS_PER_CELL ==> Used(bitmap[..], b)
      {
        var cell := bitmap[i];
        if cell != 0xFFFF_FFFF {
          for j := 0 to 32
            invariant bitmap[..] == old(bitmap[..])
            invariant forall b :: 0 <= b < i * BITS_PER_CELL + j ==> Used(bitmap[..], b)
          {
            var bit := i * 32 + j;
            var used := Test(bitmap, bit);
            if !used {
              FirstFree(bitmap[..], i, j);
              PutCells(bitmap[..], bit, true);
              Set(bitmap, bit);
              return bit * BLOCK_SIZE;
            }
          }
          FirstFree(bitmap[..], i, 31);
        }
        FullCell(bitmap[..], i);
      }
      return 0;
    }

    method FreeBlock(block: nat)
      requires Valid() && block / BLOCK_SIZE < Blocks(bitmap[..])
      modifies bitmap
      ensures Valid() && bitmap[..] == Free(old(bitmap[..]), block)
      ensures block % 4096 != 0 ==> bitmap[..] == old(bitmap[..])
      ensures block % 4096 == 0 ==> forall c :: 0 <= c < Blocks(bitmap[..]) ==>
                (Used(bitmap[..], c) <==> c != block / 4096 && Used(old(bitmap[..]), c))
    {
      if block % BLOCK_SIZE != 0 {
        return;
      }
      ghost var cells := bitmap[..];
      PutCells(cells, block / BLOCK_SIZE, false);
      Clear(bitmap, block / BLOCK_SIZE);
      forall c | 0 <= c < Blocks(cells) ensures Used(bitmap[..], c) <==> c != block / 4096 && Used(cells, c) {
        UsedOfPut(cells, block / BLOCK_SIZE, false, c);
      }
    }

    /** A fresh, unwritten bitmap, found in memory by find_memory_for_bitmap. */
    constructor (number_of_cells: nat)
      ensures Valid() && fresh(bitmap) && bitmap.Length == number_of_cells
    {
      bitmap := new nat[number_of_cells](_ => 0);
    }

    method MarkMemoryAs(start_address: nat, size: nat, used: bool)
      requires Valid() && Within(start_address, size, Blocks(bitmap[..]))
      modifies bitmap
      ensures Valid()
      ensures forall c :: 0 <= c < Blocks(bitmap[..]) ==>
                (Used(bitmap[..], c) <==> if Touches(start_address, size, c) then used else Used(old(bitmap[..]), c))
    {
      var start_block := start_address / BLOCK_SIZE;
      var end_block := (start_address + size) / BLOCK_SIZE;
      var blocks_count := end_block - start_block + 1;
      for i := 0 to blocks_count
        invariant Valid()
        invariant forall c :: 0 <= c < Blocks(bitmap[..]) ==>
                    (Used(bitmap[..], c) <==>
                      if start_block <= c < start_block + i then used else Used(old(bitmap[..]), c))
      {
        ghost var cells := bitmap[..];
        PutCells(cells, start_block + i, used);
        if used {
          Set(bitmap, start_block + i);
        } else {
          Clear(bitmap, start_block + i);
        }
        forall c | 0 <= c < Blocks(cells)
          ensures Used(bitmap[..], c) <==> if c == start_block + i then used else Used(cells, c)
        {
          UsedOfPut(cells, start_block + i, used, c);
        }
      }
    }

    /** available: the address and size fields of the memory map's available entries. */
    method FillBitmap(available: seq<(nat, nat)>, bitmap_address: nat, kernel_start: nat, kernel_end: nat)
      requires Valid() && kernel_start <= kernel_end
      requires forall i :: 0 <= i < |available| ==> Within(available[i].0, available[i].1, Blocks(bitmap[..]))
      requires Within(0, USABLE_MEMORY_START, Blocks(bitmap[..]))
      requires Within(bitmap_address, 4 * bitmap.Length, Blocks(bitmap[..]))
      requires Within(kernel_start, kernel_end - kernel_start, Blocks(bitmap[..]))
      modifies bitmap
      ensures Valid()
      ensures forall c :: 0 <= c < Blocks(bitmap[..]) ==>
                (Used(bitmap[..], c) <==>
                  c in Reserved(bitmap_address, 4 * bitmap.Length, kernel_start, kernel_end - kernel_start))
    {
      for i := 0 to bitmap.Length
        invariant forall j :: 0 <= j < i ==> bitmap[j] == 0
      {
        bitmap[i] := 0;
      }
      NothingUsed(bitmap[..]);
      for i := 0 to |available|
        invariant Valid() && forall c :: 0 <= c < Blocks(bitmap[..]) ==> !Used(bitmap[..], c)
      {
        MarkMemoryAs(available[i].0, available[i].1, false);
      }
      MarkMemoryAs(0, USABLE_MEMORY_START, true);
      MarkMemoryAs(bitmap_address, 4 * bitmap.Length, true);
      MarkMemoryAs(kernel_start, kernel_end - kernel_start, true);
    }
  }
}
