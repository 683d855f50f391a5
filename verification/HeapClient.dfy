/** A client of the heap: calls and stores into its own blocks, in any order. */
module HeapClient {
  import opened Words
  import opened HeapLayout
  import opened Memory
  import opened HeapTiles
  import opened HeapRep
  import R = HeapRuns
  import H = Heap

  /** frames are what the frame allocator hands out to the call. */
  datatype Call =
    | Malloc(size: nat, frames: seq<seq<Byte>>)
    | Free(p: nat)
    | Realloc(p: nat, size: nat, frames: seq<seq<Byte>>)
    | Store(p: nat, offset: nat, b: Byte)

  predicate IsFrames(frames: seq<seq<Byte>>) {
    forall i :: 0 <= i < |frames| ==> |frames[i]| == PAGE
  }

  function OpOf(c: Call): R.Op
    requires !c.Store?
  {
    match c
    case Malloc(size, frames) => R.OpMalloc(size, |frames|)
    case Free(p) => R.OpFree(p)
    case Realloc(p, size, frames) => R.OpRealloc(p, size, |frames|)
  }

  /** A store is to a byte of a live block behind its size word; other calls are those the heap serves. */
  ghost predicate Allowed(s: R.State, c: Call) {
    match c
    case Store(p, offset, _) => R.IsLive(s, p) && SIZE_WORD + offset < s.tiles[R.LiveIndex(s.tiles, p - SIZE_WORD)].size
    case Free(_) => R.Allowed(s, OpOf(c))
    case Malloc(_, frames) => IsFrames(frames) && R.Allowed(s, OpOf(c))
    case Realloc(_, _, frames) => IsFrames(frames) && R.Allowed(s, OpOf(c))
  }

  ghost function Step(s: R.State, c: Call): (s': R.State)
    requires R.Sound(s) && Allowed(s, c)
    ensures R.Sound(s')
  {
    if c.Store? then s else R.Step(s, OpOf(c))
  }

  ghost predicate RunAllowed(s: R.State, calls: seq<Call>)
    requires R.Sound(s)
    decreases |calls|
  {
    calls == [] || (Allowed(s, calls[0]) && RunAllowed(Step(s, calls[0]), calls[1..]))
  }

  ghost function Run(s: R.State, calls: seq<Call>): R.State
    requires R.Sound(s) && RunAllowed(s, calls)
    decreases |calls|
  {
    if calls == [] then s else Run(Step(s, calls[0]), calls[1..])
  }

  /** The call neither frees the block at p nor stores into it. */
  ghost predicate Spares(s: R.State, c: Call, p: nat) {
    if c.Store? then c.p != p else !R.Frees(s, OpOf(c), p)
  }

  ghost predicate RunSpares(s: R.State, calls: seq<Call>, p: nat)
    requires R.Sound(s) && RunAllowed(s, calls)
    decreases |calls|
  {
    calls == [] || (Spares(s, calls[0], p) && RunSpares(Step(s, calls[0]), calls[1..], p))
  }

  /** The block still stands where it was, and every byte of it is what it was. */
  ghost predicate Kept(heap: H.Heap, m: Memory, t: Tile)
    reads heap
  {
    t in heap.tiles && t.End() <= |m| == |heap.mem| && Same(m, heap.mem, t.addr, t.size)
  }

  lemma StepKeeps(s: R.State, c: Call, t: Tile)
    requires R.Sound(s) && Allowed(s, c) && t in s.tiles && t.kind.Live? && Spares(s, c, t.addr + SIZE_WORD)
    ensures t in Step(s, c).tiles
  {
    if !c.Store? {
      R.StepKeepsLive(s, OpOf(c), t);
    }
  }

  /** Over any run of calls and stores, a block that no call frees and no store is aimed at keeps its place and
      every byte. */
  method Perform(heap: H.Heap, calls: seq<Call>)
    requires heap.Valid() && RunAllowed(heap.State(), calls)
    modifies heap
    ensures heap.Valid() && heap.State() == Run(old(heap.State()), calls)
    ensures var s := old(heap.State());
            forall t :: t in s.tiles && t.kind.Live? && RunSpares(s, calls, t.addr + SIZE_WORD) ==>
              Kept(heap, old(heap.mem), t)
    decreases |calls|
  {
    if calls == [] {
      NothingDone(heap, heap.State());
      return;
    }
    ghost var s, m := heap.State(), heap.mem;
    One(heap, calls[0]);
    ghost var m1 := heap.mem;
    Perform(heap, calls[1..]);
    forall t | t in s.tiles && t.kind.Live? && RunSpares(s, calls, t.addr + SIZE_WORD) ensures Kept(heap, m, t) {
      StepKeeps(s, calls[0], t);
    }
  }

  lemma NothingDone(heap: H.Heap, s: R.State)
    requires heap.Valid() && s == heap.State()
    ensures forall t :: t in s.tiles ==> Kept(heap, heap.mem, t)
  {
    hide R.Sound;
  }

  /** What a call's frame says of the blocks it spares. */
  lemma SparedKept(heap: H.Heap, m: Memory, s: R.State, c: Call, but: set<int>)
    requires R.Sound(s) && Allowed(s, c) && heap.tiles == Step(s, c).tiles && BlocksSame(m, heap.mem, s.tiles, but)
    requires forall p: nat :: Spares(s, c, p) ==> p - SIZE_WORD !in but
    ensures forall t :: t in s.tiles && t.kind.Live? && Spares(s, c, t.addr + SIZE_WORD) ==> Kept(heap, m, t)
  {
    hide Spares, Allowed, Step, R.Sound;
    forall t | t in s.tiles && t.kind.Live? && Spares(s, c, t.addr + SIZE_WORD) ensures Kept(heap, m, t) {
      StepKeeps(s, c, t);
      var i :| 0 <= i < |s.tiles| && s.tiles[i] == t;
      assert t.addr + SIZE_WORD - SIZE_WORD == t.addr;
    }
  }

  /** One call. */
  method One(heap: H.Heap, c: Call)
    requires heap.Valid() && Allowed(heap.State(), c)
    modifies heap
    ensures heap.Valid() && heap.State() == Step(old(heap.State()), c)
    ensures forall t :: t in old(heap.tiles) && t.kind.Live? && Spares(old(heap.State()), c, t.addr + SIZE_WORD) ==>
              Kept(heap, old(heap.mem), t)
  {
    hide Kept, BlocksSame, R.Malloc, R.Free, R.Realloc, R.Sound, R.IsLive, R.LiveIndex, R.MallocAllowed,
         R.LosesHoles, R.Succeeds, Represents, R.NeedsExtension;
    ghost var s, m := heap.State(), heap.mem;
    match c {
      case Malloc(size, frames) =>
        var _ := heap.Malloc(size, frames);
        SparedKept(heap, m, s, c, {});
      case Free(p) =>
        heap.Free(p);
        SparedKept(heap, m, s, c, {p - SIZE_WORD});
      case Realloc(p, size, frames) =>
        R.ReallocSound(s, p, size, |frames|);
        var q := heap.Realloc(p, size, frames);
        SparedKept(heap, m, s, c, if p != 0 && (size == 0 || q != 0) then {p - SIZE_WORD} else {});
      case Store(p, offset, b) =>
        heap.StoreByte(p, offset, b);
        SparedKept(heap, m, s, c, {p - SIZE_WORD});
    }
  }
}
