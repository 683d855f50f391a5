/** Short runs from the initial heap that lose memory, or leave a hole too short for its header. */
module HeapLosses {
  import opened HeapLayout
  import opened HeapTiles
  import opened HeapRuns

  lemma StepMalloc(s: State, size: nat, i: nat)
    requires Sound(s) && size > 0 && i < |s.tiles| && s.tiles[i].Serves(size + SIZE_WORD)
    requires forall j :: 0 <= j < i ==> !s.tiles[j].Serves(size + SIZE_WORD)
    requires CutSafe(s.tiles[i].size, size + SIZE_WORD)
    ensures Allowed(s, OpMalloc(size, 0))
            && Step(s, OpMalloc(size, 0)) == s.(tiles := Take(s.tiles, i, size + SIZE_WORD))
  {
    assert FirstFit(s.tiles, size + SIZE_WORD) == i;
  }

  lemma StepFree(s: State, i: nat)
    requires Sound(s) && i < |s.tiles| && s.tiles[i].kind.Live?
    ensures var p := s.tiles[i].addr + SIZE_WORD;
            && Allowed(s, OpFree(p))
            && Step(s, OpFree(p)) ==
               s.(tiles := Release(s.tiles, i, s.nullWord), nullWord := NullAfter(s.tiles, i, s.nullWord))
  {
    LiveIndexUnique(s.tiles, i);
    hide Tiling, Release, NullAfter, HoleAddrs, Accounts;
  }

  /** One allowed call takes the sound state s to t. */
  ghost predicate Goes(s: State, op: Op, t: State) {
    Sound(s) && Allowed(s, op) && Step(s, op) == t
  }

  lemma RunStep(s: State, op: Op, t: State, ops: seq<Op>)
    requires Goes(s, op, t) && Sound(t) && RunAllowed(t, ops)
    ensures Sound(s) && RunAllowed(s, [op] + ops) && Run(s, [op] + ops) == Run(t, ops)
  {
    assert ([op] + ops)[1..] == ops;
  }

  lemma RunTwo(s: State, op: Op, t: State, op': Op, u: State, ops: seq<Op>)
    requires Goes(s, op, t) && Goes(t, op', u) && Sound(u) && RunAllowed(u, ops)
    ensures Sound(s) && RunAllowed(s, [op, op'] + ops) && Run(s, [op, op'] + ops) == Run(u, ops)
  {
    assert Sound(t);
    hide *;
    RunStep(t, op', u, ops);
    RunStep(s, op, t, [op'] + ops);
    OneByOne(op, op', ops);
  }

  lemma OneByOne(op: Op, op': Op, ops: seq<Op>)
    ensures [op, op'] + ops == [op] + ([op'] + ops)
  {
  }

  /** A tile so many bytes into the heap's first page. */
  function At(offset: nat, size: nat, kind: Kind): Tile {
    Tile(HEAP_START + offset, size, kind)
  }

  /** The heap while it is one page. */
  function Page(ts: seq<Tile>, nullWord: nat): State {
    State(ts, HEAP_START, nullWord)
  }

  /** The first tile cut, with no other hole. */
  lemma CutFirst(size: nat, nullWord: nat)
    requires 8 <= size <= 4000
    ensures Goes(Initial(nullWord), OpMalloc(size, 0),
                 Page([At(0, size + 4, Live), At(size + 4, 4092 - size, Hole)], nullWord))
  {
    var s := Initial(nullWord);
    StepMalloc(s, size, 0);
    assert Take(s.tiles, 0, size + 4) == [At(0, size + 4, Live), At(size + 4, 4092 - size, Hole)];
  }

  lemma CutSecond(a: nat, nullWord: nat)
    requires 12 <= a <= 4000
    ensures Goes(Page([At(0, a, Live), At(a, 4096 - a, Hole)], nullWord), OpMalloc(8, 0),
                 TwoBlocks(a, nullWord))
  {
    var s := Page([At(0, a, Live), At(a, 4096 - a, Hole)], nullWord);
    StepMalloc(s, 8, 1);
    assert Take(s.tiles, 1, 12) == [At(0, a, Live), At(a, 12, Live), At(a + 12, 4084 - a, Hole)];
  }

  lemma CutThird(nullWord: nat)
    ensures Goes(TwoBlocks(12, nullWord), OpMalloc(8, 0), ThreeBlocks(nullWord))
  {
    var s := TwoBlocks(12, nullWord);
    assert Sound(s);
    StepMalloc(s, 8, 2);
    hide Tiling, Step;
    assert Take(s.tiles, 2, 12) == [At(0, 12, Live), At(12, 12, Live), At(24, 12, Live), At(36, 4060, Hole)];
  }

  /** The first block is freed while the second is live. */
  lemma FreeFirst(a: nat, rest: seq<Tile>, nullWord: nat)
    requires 12 <= a <= 4000 && nullWord != HEAP_START && Sound(Page([At(0, a, Live)] + rest, nullWord))
    requires rest == [] || !rest[0].kind.Hole?
    ensures Goes(Page([At(0, a, Live)] + rest, nullWord), OpFree(HEAP_START + 4),
                 Page([At(0, a, Hole)] + rest, nullWord))
  {
    hide HoleAddrs, Tiling;
    var s := Page([At(0, a, Live)] + rest, nullWord);
    StepFree(s, 0);
    assert s.tiles[1..] == rest && s.tiles[..0] == [];
    assert Release(s.tiles, 0, nullWord) == [At(0, a, Hole)] + rest;
  }

  lemma FreeThird(nullWord: nat)
    ensures Goes(FirstFreed(nullWord), OpFree(HEAP_START + 28), OneLeft(12, nullWord))
  {
    var s := FirstFreed(nullWord);
    assert Sound(s);
    StepFree(s, 2);
    ReleaseThird(s.tiles, nullWord);
    hide HoleAddrs, Tiling, Step, Allowed, Release, NullAfter;
  }

  lemma ReleaseThird(ts: seq<Tile>, nullWord: nat)
    requires ts == [At(0, 12, Hole), At(12, 12, Live), At(24, 12, Live), At(36, 4060, Hole)]
    ensures Release(ts, 2, nullWord) == [At(0, 12, Hole), At(12, 12, Live), At(24, 4072, Hole)]
    ensures NullAfter(ts, 2, nullWord) == nullWord
  {
    hide HoleAddrs;
    assert HoleAddrs(ts[..2]) != [] by {
      assert ts[..2] == [At(0, 12, Hole)] + [At(12, 12, Live)];
      HoleAddrsConcat([At(0, 12, Hole)], [At(12, 12, Live)]);
      HoleAddrsOfOne(At(0, 12, Hole));
    }
    assert Merged(ts, 2, nullWord) == [At(24, 4072, Hole)];
    assert ts[..2] == [At(0, 12, Hole), At(12, 12, Live)] && ts[4..] == [];
  }

  lemma FreeBetween(nullWord: nat)
    ensures Goes(OneLeft(12, nullWord), OpFree(HEAP_START + 16), Lossy(nullWord))
    ensures Sound(Lossy(nullWord))
  {
    var s := OneLeft(12, nullWord);
    assert Sound(s);
    StepFree(s, 1);
    assert s.tiles[..1] == [At(0, 12, Hole)];
    HoleAddrsOfOne(At(0, 12, Hole));
    hide HoleAddrs, Tiling;
    assert Release(s.tiles, 1, nullWord) == [At(0, 24, Hole), At(24, 4072, Lost)];
  }

  /** Three blocks of 8 bytes, and the first of them freed. */
  function ThreeBlocks(nullWord: nat): State {
    Page([At(0, 12, Live), At(12, 12, Live), At(24, 12, Live), At(36, 4060, Hole)], nullWord)
  }

  function FirstFreed(nullWord: nat): State {
    Page([At(0, 12, Hole), At(12, 12, Live), At(24, 12, Live), At(36, 4060, Hole)], nullWord)
  }

  function TwoBlocks(a: nat, nullWord: nat): State
    requires a <= 4084
  {
    Page([At(0, a, Live), At(a, 12, Live), At(a + 12, 4084 - a, Hole)], nullWord)
  }

  function OneLeft(a: nat, nullWord: nat): State
    requires a <= 4084
  {
    Page([At(0, a, Hole), At(a, 12, Live), At(a + 12, 4084 - a, Hole)], nullWord)
  }

  function Lossy(nullWord: nat): State {
    Page([At(0, 24, Hole), At(24, 4072, Lost)], nullWord)
  }

  lemma FreeFirstOfThree(nullWord: nat)
    requires nullWord != HEAP_START
    ensures Goes(ThreeBlocks(nullWord), OpFree(HEAP_START + 4), FirstFreed(nullWord))
  {
    var rest := [At(12, 12, Live), At(24, 12, Live), At(36, 4060, Hole)];
    assert [At(0, 12, Live)] + rest == ThreeBlocks(nullWord).tiles;
    assert [At(0, 12, Hole)] + rest == FirstFreed(nullWord).tiles;
    FreeFirst(12, rest, nullWord);
  }

  lemma FreeFirstOfTwo(a: nat, nullWord: nat)
    requires nullWord != HEAP_START && 12 <= a <= 4000
    ensures Goes(TwoBlocks(a, nullWord), OpFree(HEAP_START + 4), OneLeft(a, nullWord))
  {
    var rest := [At(a, 12, Live), At(a + 12, 4084 - a, Hole)];
    assert [At(0, a, Live)] + rest == TwoBlocks(a, nullWord).tiles;
    assert [At(0, a, Hole)] + rest == OneLeft(a, nullWord).tiles;
    FreeFirst(a, rest, nullWord);
  }

  /** Three blocks of 8 bytes; the first and the third are freed, then the second between them: the hole behind
      it, which is all the rest of the page, leaves the list. */
  lemma DoubleMergeRun(nullWord: nat)
    requires nullWord != HEAP_START
    ensures var ops := [OpMalloc(8, 0), OpMalloc(8, 0), OpMalloc(8, 0),
                        OpFree(HEAP_START + 4), OpFree(HEAP_START + 28), OpFree(HEAP_START + 16)];
            && Sound(Initial(nullWord)) && RunAllowed(Initial(nullWord), ops)
            && Run(Initial(nullWord), ops).tiles == [At(0, 24, Hole), At(24, 4072, Lost)]
  {
    CutFirst(8, nullWord);
    CutSecond(12, nullWord);
    CutThird(nullWord);
    FreeFirstOfThree(nullWord);
    FreeThird(nullWord);
    FreeBetween(nullWord);
    RunNone(Lossy(nullWord));
    var s1 := Page([At(0, 12, Live), At(12, 4084, Hole)], nullWord);
    SixCalls(Initial(nullWord), s1, TwoBlocks(12, nullWord), ThreeBlocks(nullWord), FirstFreed(nullWord),
             OneLeft(12, nullWord), Lossy(nullWord));
  }

  lemma SixCalls(s0: State, s1: State, s2: State, s3: State, s4: State, s5: State, s6: State)
    requires Goes(s0, OpMalloc(8, 0), s1) && Goes(s1, OpMalloc(8, 0), s2) && Goes(s2, OpMalloc(8, 0), s3)
    requires Goes(s3, OpFree(HEAP_START + 4), s4) && Goes(s4, OpFree(HEAP_START + 28), s5)
    requires Goes(s5, OpFree(HEAP_START + 16), s6) && Sound(s6)
    ensures var ops := [OpMalloc(8, 0), OpMalloc(8, 0), OpMalloc(8, 0),
                        OpFree(HEAP_START + 4), OpFree(HEAP_START + 28), OpFree(HEAP_START + 16)];
            Sound(s0) && RunAllowed(s0, ops) && Run(s0, ops) == s6
  {
    assert Sound(s0) && Sound(s6);
    hide *;
    RunNone(s6);
    var last := [OpFree(HEAP_START + 28), OpFree(HEAP_START + 16)] + [];
    RunTwo(s4, OpFree(HEAP_START + 28), s5, OpFree(HEAP_START + 16), s6, []);
    RunTwo(s2, OpMalloc(8, 0), s3, OpFree(HEAP_START + 4), s4, last);
    RunTwo(s0, OpMalloc(8, 0), s1, OpMalloc(8, 0), s2, [OpMalloc(8, 0), OpFree(HEAP_START + 4)] + last);
    InPairs(OpMalloc(8, 0), OpMalloc(8, 0), OpMalloc(8, 0),
            OpFree(HEAP_START + 4), OpFree(HEAP_START + 28), OpFree(HEAP_START + 16));
  }

  lemma InPairs(a: Op, b: Op, c: Op, d: Op, e: Op, f: Op)
    ensures [a, b, c, d, e, f] == [a, b] + ([c, d] + ([e, f] + []))
  {
  }

  /** If the word at the null pointer is the heap's start, one malloc and one free lose the whole heap. */
  lemma NullMergeRun(size: nat)
    requires 8 <= size <= 4000
    ensures var ops := [OpMalloc(size, 0), OpFree(HEAP_START + 4)];
            && Sound(Initial(HEAP_START)) && RunAllowed(Initial(HEAP_START), ops)
            && Run(Initial(HEAP_START), ops).tiles == [At(0, size + 4, Lost), At(size + 4, 4092 - size, Lost)]
  {
    var s0 := Initial(HEAP_START);
    var s1 := Page([At(0, size + 4, Live), At(size + 4, 4092 - size, Hole)], HEAP_START);
    var s2 := State([At(0, size + 4, Lost), At(size + 4, 4092 - size, Lost)], HEAP_START, HEAP_START + size + 4);
    CutFirst(size, HEAP_START);
    StepFree(s1, 0);
    HoleAddrsOfOne(s1.tiles[0]);
    assert s1.tiles[..0] == [];
    assert Release(s1.tiles, 0, HEAP_START) == s2.tiles;
    assert Goes(s1, OpFree(HEAP_START + 4), s2) && Sound(s2);
    hide Sound, Step, Allowed, Run, RunAllowed, Initial, Goes;
    RunNone(s2);
    RunTwo(s0, OpMalloc(size, 0), s1, OpFree(HEAP_START + 4), s2, []);
    assert [OpMalloc(size, 0), OpFree(HEAP_START + 4)] == [OpMalloc(size, 0), OpFree(HEAP_START + 4)] + [];
  }

  /** A hole of 21 bytes between blocks: a request of 4 bytes cuts it into 12 and 9, and 9 bytes hold no header. */
  lemma UnsafeCutRun(nullWord: nat)
    requires nullWord != HEAP_START
    ensures var ops := [OpMalloc(17, 0), OpMalloc(8, 0), OpFree(HEAP_START + 4)];
            && Sound(Initial(nullWord)) && RunAllowed(Initial(nullWord), ops)
            && var s := Run(Initial(nullWord), ops);
            && !MallocAllowed(s, 4, 0)
            && Malloc(s, 4, 0).0.tiles == [At(0, 12, Live), At(12, 9, Hole), At(21, 12, Live), At(33, 4063, Hole)]
            && !Tiling(Malloc(s, 4, 0).0.tiles)
  {
    var s1 := Page([At(0, 21, Live), At(21, 4075, Hole)], nullWord);
    CutFirst(17, nullWord);
    CutSecond(21, nullWord);
    FreeFirstOfTwo(21, nullWord);
    UnsafeCut(OneLeft(21, nullWord));
    assert Sound(OneLeft(21, nullWord));
    hide *;
    RunNone(OneLeft(21, nullWord));
    RunTwo(s1, OpMalloc(8, 0), TwoBlocks(21, nullWord), OpFree(HEAP_START + 4), OneLeft(21, nullWord), []);
    RunStep(Initial(nullWord), OpMalloc(17, 0), s1, [OpMalloc(8, 0), OpFree(HEAP_START + 4)] + []);
    OneFirst(OpMalloc(17, 0), OpMalloc(8, 0), OpFree(HEAP_START + 4));
  }

  lemma OneFirst(a: Op, b: Op, c: Op)
    ensures [a, b, c] == [a] + ([b, c] + [])
  {
  }

  /** A request that the first page cannot serve, when there is no frame: the heap's one hole is lost. */
  lemma ExtensionLoses(size: nat, nullWord: nat)
    requires 4093 <= size <= 0x1000_0000
    ensures var s := Initial(nullWord);
            && Sound(s) && MallocAllowed(s, size, 0) && LosesHoles(s, size, 0)
            && Malloc(s, size, 0) == (State(s.tiles, HEAP_START + PAGE, 0), 0)
  {
    var s := Initial(nullWord);
    HoleAddrsOfOne(s.tiles[0]);
    assert FirstFit(s.tiles, size + SIZE_WORD) == 1;
    assert Extend(s, size + SIZE_WORD, 0).tiles == s.tiles;
  }

  lemma UnsafeCut(s: State)
    requires s.tiles == [At(0, 21, Hole), At(21, 12, Live), At(33, 4063, Hole)]
    ensures !MallocAllowed(s, 4, 0)
    ensures Malloc(s, 4, 0).0.tiles == [At(0, 12, Live), At(12, 9, Hole), At(21, 12, Live), At(33, 4063, Hole)]
    ensures !Tiling(Malloc(s, 4, 0).0.tiles)
  {
    assert FirstFit(s.tiles, 8) == 0;
    var us := Take(s.tiles, 0, 8);
    assert us == [At(0, 12, Live), At(12, 9, Hole), At(21, 12, Live), At(33, 4063, Hole)];
    assert us[1].size < HEADER;
  }

  lemma RunNone(s: State)
    requires Sound(s)
    ensures RunAllowed(s, []) && Run(s, []) == s
  {
  }
}
