/** What every run of allocate_block and free_block keeps, from the bitmap that booting leaves. */
module FrameRuns {
  import opened Bitmap
  import opened P = PhysicalMgr

  datatype State = State(cells: seq<nat>, out: set<nat>)

  datatype Op = Allocate | Free(block: nat)

  /** A block is used exactly when booting reserved it or a caller has it; block 0 is reserved. */
  ghost predicate Sound(s: State, reserved: iset<nat>) {
    && Cells(s.cells)
    && 0 in reserved
    && (forall b :: b in s.out ==> b < Blocks(s.cells) && b !in reserved)
    && (forall b :: 0 <= b < Blocks(s.cells) ==> (Used(s.cells, b) <==> b in reserved || b in s.out))
  }

  /** Only outstanding blocks are freed. */
  ghost predicate Allowed(s: State, op: Op) {
    op.Free? ==> op.block in s.out && op.block < Blocks(s.cells)
  }

  ghost function Step(s: State, op: Op): State
    requires Allowed(s, op)
  {
    match op
    case Allocate =>
      var (cells, b) := P.Allocate(s.cells);
      State(cells, if b < Blocks(s.cells) then s.out + {b} else s.out)
    case Free(b) => State(P.Free(s.cells, b * BLOCK_SIZE), s.out - {b})
  }

  /** The block a step hands out. */
  ghost function Handed(s: State, op: Op): set<nat> {
    if op.Allocate? && P.Allocate(s.cells).1 < Blocks(s.cells) then {P.Allocate(s.cells).1} else {}
  }

  ghost function ClearCount(cells: seq<nat>, n: nat): nat
    requires n <= Blocks(cells)
  {
    if n == 0 then 0 else ClearCount(cells, n - 1) + if Used(cells, n - 1) then 0 else 1
  }

  lemma {:induction false} ClearCountOfPut(cells: seq<nat>, b: nat, used: bool, n: nat)
    requires b < Blocks(cells) && n <= Blocks(cells) && Used(cells, b) != used
    ensures ClearCount(Put(cells, b, used), n) ==
            ClearCount(cells, n) + if b < n then (if used then -1 else 1) else 0
  {
    if n > 0 {
      ClearCountOfPut(cells, b, used, n - 1);
      UsedOfPut(cells, b, used, n - 1);
    }
  }

  /** Clear bits are there to be found, and allocating takes one of them. */
  lemma AllocateCount(cells: seq<nat>)
    ensures ClearCount(cells, Blocks(cells)) > 0 <==> P.Allocate(cells).1 < Blocks(cells)
    ensures P.Allocate(cells).1 < Blocks(cells) ==>
              ClearCount(P.Allocate(cells).0, Blocks(cells)) == ClearCount(cells, Blocks(cells)) - 1
  {
    ClearCountPositive(cells, Blocks(cells));
    var b := P.Allocate(cells).1;
    if b < Blocks(cells) {
      ClearCountOfPut(cells, b, true, Blocks(cells));
    }
  }

  lemma {:induction false} ClearCountPositive(cells: seq<nat>, n: nat)
    requires n <= Blocks(cells)
    ensures ClearCount(cells, n) > 0 <==> exists b :: 0 <= b < n && !Used(cells, b)
  {
    if n > 0 {
      ClearCountPositive(cells, n - 1);
      if exists b :: 0 <= b < n && !Used(cells, b) {
        var b :| 0 <= b < n && !Used(cells, b);
        assert b == n - 1 || b < n - 1;
      }
    }
  }

  lemma {:induction false} ClearCountGrows(cells: seq<nat>, m: nat, n: nat)
    requires m <= n <= Blocks(cells)
    ensures ClearCount(cells, m) <= ClearCount(cells, n)
    decreases n
  {
    if m < n {
      ClearCountGrows(cells, m, n - 1);
    }
  }

  lemma TwoClear(cells: seq<nat>, a: nat, b: nat)
    requires a < b < Blocks(cells) && !Used(cells, a) && !Used(cells, b)
    ensures ClearCount(cells, Blocks(cells)) >= 2
  {
    ClearCountPositive(cells, b);
    ClearCountGrows(cells, b + 1, Blocks(cells));
  }

  lemma PutSound(s: State, reserved: iset<nat>, b: nat, used: bool)
    requires Sound(s, reserved) && b < Blocks(s.cells) && b !in reserved
    ensures Sound(State(Put(s.cells, b, used), if used then s.out + {b} else s.out - {b}), reserved)
  {
    PutCells(s.cells, b, used);
    forall c | 0 <= c < Blocks(s.cells)
      ensures Used(Put(s.cells, b, used), c) <==> if c == b then used else Used(s.cells, c)
    {
      UsedOfPut(s.cells, b, used, c);
    }
  }

  /** A block changing hands keeps clear bits and outstanding blocks in balance. */
  lemma PutBalance(s: State, reserved: iset<nat>, b: nat, used: bool)
    requires Sound(s, reserved) && b < Blocks(s.cells) && b !in reserved && Used(s.cells, b) != used
    ensures var s' := State(Put(s.cells, b, used), if used then s.out + {b} else s.out - {b});
            && Sound(s', reserved) && |s'.cells| == |s.cells|
            && ClearCount(s'.cells, Blocks(s.cells)) + |s'.out| == ClearCount(s.cells, Blocks(s.cells)) + |s.out|
  {
    PutSound(s, reserved, b, used);
    ClearCountOfPut(s.cells, b, used, Blocks(s.cells));
    hide *;
    if used {
      assert |s.out + {b}| == |s.out| + 1;
    } else {
      assert |s.out - {b}| == |s.out| - 1;
    }
  }

  /** A step hands out a block nobody has and nobody reserved, and loses track of none. */
  lemma StepSound(s: State, reserved: iset<nat>, op: Op)
    requires Sound(s, reserved) && Allowed(s, op)
    ensures Sound(Step(s, op), reserved)
    ensures forall b :: b in Handed(s, op) ==> b !in reserved && b !in s.out && b in Step(s, op).out
    ensures ClearCount(Step(s, op).cells, Blocks(s.cells)) + |Step(s, op).out| ==
            ClearCount(s.cells, Blocks(s.cells)) + |s.out|
    ensures |Step(s, op).cells| == |s.cells|
  {
    hide ClearCount, Put;
    match op
    case Allocate =>
      var b := P.Allocate(s.cells).1;
      if b < Blocks(s.cells) {
        PutBalance(s, reserved, b, true);
      }
    case Free(b) =>
      PutBalance(s, reserved, b, false);
  }

  ghost predicate RunAllowed(s: State, ops: seq<Op>)
    decreases |ops|
  {
    ops == [] || (Allowed(s, ops[0]) && RunAllowed(Step(s, ops[0]), ops[1..]))
  }

  ghost function Run(s: State, ops: seq<Op>): State
    requires RunAllowed(s, ops)
    decreases |ops|
  {
    if ops == [] then s else Run(Step(s, ops[0]), ops[1..])
  }

  ghost function HandedIn(s: State, ops: seq<Op>): set<nat>
    requires RunAllowed(s, ops)
    decreases |ops|
  {
    if ops == [] then {} else Handed(s, ops[0]) + HandedIn(Step(s, ops[0]), ops[1..])
  }

  /** No run ever hands out a reserved block, two holders of one block, or loses a block. */
  lemma {:induction false} RunSound(s: State, reserved: iset<nat>, ops: seq<Op>)
    requires Sound(s, reserved) && RunAllowed(s, ops)
    ensures Sound(Run(s, ops), reserved) && |Run(s, ops).cells| == |s.cells|
    ensures forall b :: b in HandedIn(s, ops) ==> b !in reserved
    ensures ClearCount(Run(s, ops).cells, Blocks(s.cells)) + |Run(s, ops).out| ==
            ClearCount(s.cells, Blocks(s.cells)) + |s.out|
    decreases |ops|
  {
    if ops != [] {
      StepSound(s, reserved, ops[0]);
      RunSound(Step(s, ops[0]), reserved, ops[1..]);
    }
  }

  /** Block b shares no byte with the range, nor with the byte after it. */
  predicate Apart(b: nat, start: nat, size: nat) {
    (b + 1) * 4096 <= start || start + size < b * 4096
  }

  lemma ApartFromRange(b: nat, start: nat, size: nat)
    ensures Apart(b, start, size) <==> !P.Touches(start, size, b)
  {
  }

  /** From the bitmap that fill_bitmap leaves, no run hands out a block of the first megabyte, of the bitmap
      or of the kernel. */
  lemma BootRun(cells: seq<nat>, bitmap_address: nat, kernel_start: nat, kernel_end: nat, ops: seq<Op>)
    requires Cells(cells) && kernel_start <= kernel_end
    requires var reserved := P.Reserved(bitmap_address, 4 * |cells|, kernel_start, kernel_end - kernel_start);
             forall c :: 0 <= c < Blocks(cells) ==> (Used(cells, c) <==> c in reserved)
    requires RunAllowed(State(cells, {}), ops)
    ensures forall b :: b in HandedIn(State(cells, {}), ops) ==>
              && Apart(b, 0, 0x10_0000)
              && Apart(b, bitmap_address, 4 * |cells|)
              && Apart(b, kernel_start, kernel_end - kernel_start)
  {
    var reserved := P.Reserved(bitmap_address, 4 * |cells|, kernel_start, kernel_end - kernel_start);
    RunSound(State(cells, {}), reserved, ops);
    forall b | b in HandedIn(State(cells, {}), ops)
      ensures Apart(b, 0, 0x10_0000) && Apart(b, bitmap_address, 4 * |cells|)
              && Apart(b, kernel_start, kernel_end - kernel_start)
    {
      assert b !in reserved;
      ApartFromRange(b, 0, P.USABLE_MEMORY_START);
      ApartFromRange(b, bitmap_address, 4 * |cells|);
      ApartFromRange(b, kernel_start, kernel_end - kernel_start);
    }
  }

  /** null comes back exactly when every block is used. */
  lemma NullWhenFull(s: State, reserved: iset<nat>)
    requires Sound(s, reserved)
    ensures P.Allocate(s.cells).1 == Blocks(s.cells) <==> forall b :: 0 <= b < Blocks(s.cells) ==> Used(s.cells, b)
    ensures P.Allocate(s.cells).1 == 0 <==> Blocks(s.cells) == 0
  {
  }
}
