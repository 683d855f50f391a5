/** What malloc, free and realloc do to the tiles, in numbers. */
module HeapExact {
  import opened Words
  import opened HeapLayout
  import opened HeapTiles
  import opened HeapRuns

  /** Some hole is big enough for size bytes and the word in front of them. */
  ghost predicate HasRoom(ts: seq<Tile>, size: nat) {
    exists t :: t in ts && t.kind.Hole? && t.size >= size + 4
  }

  lemma NoRoom(ts: seq<Tile>, size: nat)
    ensures FirstFit(ts, size + SIZE_WORD) == |ts| <==> !HasRoom(ts, size)
  {
    var i := FirstFit(ts, size + SIZE_WORD);
    if i < |ts| {
      assert ts[i] in ts;
    }
  }

  /** n is the least number of pages with room for a request of size bytes, its size word and a header. */
  predicate LeastPages(n: nat, size: nat) {
    (n - 1) * 4096 <= size + 16 < n * 4096
  }

  lemma PagesAsked(size: nat, n: nat)
    requires LeastPages(n, size)
    ensures ExtensionPages(size + SIZE_WORD) == n
  {
  }

  lemma PagesExist(size: nat) returns (n: nat)
    ensures LeastPages(n, size)
  {
    n := (size + 16) / 4096 + 1;
  }

  /** The bytes of the block that a hole of this many bytes gives up: all of them, unless what is left is longer
      than a header; then as many as asked for, and at least a header. */
  function BlockSize(hole: nat, size: nat): nat {
    if hole > size + 16 then Max(size + 4, 12) else hole
  }

  /** The tiles that come out of a hole. */
  function Pieces(addr: nat, hole: nat, size: nat): seq<Tile> {
    var n := BlockSize(hole, size);
    [Tile(addr, n, Live)] + if n < hole then [Tile(addr + n, hole - n, Hole)] else []
  }

  /** A hole that serves is cut at its start, at exactly the size the request has or the header needs. */
  lemma CarveExactly(t: Tile, size: nat)
    requires t.kind.Hole? && size + 4 <= t.size
    ensures Carve(t, size + SIZE_WORD) == Pieces(t.addr, t.size, size)
    ensures t.size > size + 16 ==> Carve(t, size + SIZE_WORD)[0].size == Max(size + 4, 12)
  {
  }

  /** If some hole has room, malloc takes the lowest one that has. */
  lemma MallocInHole(s: State, size: nat, frames: nat, i: nat)
    requires size > 0 && i < |s.tiles| && s.tiles[i].kind.Hole? && s.tiles[i].size >= size + 4
    requires forall j :: 0 <= j < i && s.tiles[j].kind.Hole? ==> s.tiles[j].size < size + 4
    ensures var hole := s.tiles[i].size;
            MallocAllowed(s, size, frames) <==> hole <= size + 16 || size >= 8 || hole >= 24
    ensures var t := s.tiles[i];
            Malloc(s, size, frames) ==
            (s.(tiles := s.tiles[..i] + Pieces(t.addr, t.size, size) + s.tiles[i + 1..]), t.addr + 4)
  {
    assert FirstFit(s.tiles, size + SIZE_WORD) == i;
    CarveExactly(s.tiles[i], size);
  }

  /** If no hole has room, the least number of pages that have is mapped, one page after the last ones; the block
      is at their start. With too few frames all of them are mapped, and there is no block. */
  lemma MallocInExtension(s: State, size: nat, frames: nat, n: nat)
    requires size > 0 && !HasRoom(s.tiles, size) && LeastPages(n, size)
    ensures MallocAllowed(s, size, frames) <==> s.lastPage + 4096 + n * 4096 <= 0xFFC0_0000
    ensures frames >= n ==>
              var start := s.lastPage + 4096;
              Malloc(s, size, frames) ==
              (State(s.tiles + Pieces(start, n * 4096, size), start + n * 4096, s.nullWord), start + 4)
    ensures 0 < frames < n ==>
              var start := s.lastPage + 4096;
              Malloc(s, size, frames) ==
              (State(s.tiles + [Tile(start, frames * 4096, Hole)], start + frames * 4096, s.nullWord), 0)
    ensures frames == 0 ==> Malloc(s, size, frames) == (State(s.tiles, s.lastPage + 4096, 0), 0)
  {
    PagesAsked(size, n);
    NoRoom(s.tiles, size);
    if frames >= n {
      MallocAtTheEnd(s, size, frames, n);
    }
    hide FirstFit, Carve, HasRoom;
    assert s.tiles + [] == s.tiles;
  }

  lemma MallocAtTheEnd(s: State, size: nat, frames: nat, n: nat)
    requires size > 0 && !HasRoom(s.tiles, size) && LeastPages(n, size) && frames >= n
    ensures var start := s.lastPage + 4096;
            Malloc(s, size, frames) ==
            (State(s.tiles + Pieces(start, n * 4096, size), start + n * 4096, s.nullWord), start + 4)
  {
    PagesAsked(size, n);
    NoRoom(s.tiles, size);
    var t := Tile(s.lastPage + 4096, n * 4096, Hole);
    FitsLast(s.tiles, t, size);
    CarveExactly(t, size);
    CutLast(s.tiles, t, Pieces(t.addr, t.size, size));
    hide FirstFit, Carve, HasRoom, Pieces, Replace;
  }

  lemma CutLast(ts: seq<Tile>, t: Tile, us: seq<Tile>)
    ensures Replace(ts + [t], |ts|, |ts| + 1, us) == ts + us
  {
    assert (ts + [t])[..|ts|] == ts && (ts + [t])[|ts| + 1..] == [];
  }

  /** A new last hole that serves is the first that does, if no other has room. */
  lemma FitsLast(ts: seq<Tile>, t: Tile, size: nat)
    requires !HasRoom(ts, size) && t.Serves(size + SIZE_WORD)
    ensures FirstFit(ts + [t], size + SIZE_WORD) == |ts|
  {
    NoRoom(ts, size);
    assert (ts + [t])[|ts|] == t;
    forall j | 0 <= j < |ts| ensures !(ts + [t])[j].Serves(size + SIZE_WORD) {
      assert ts[j] in ts;
    }
  }

  /** malloc comes back with a block if and only if some hole has room, or the frames have. */
  lemma MallocSucceeds(s: State, size: nat, frames: nat)
    requires Sound(s) && MallocAllowed(s, size, frames)
    ensures Malloc(s, size, frames).1 != 0 <==> size > 0 && (HasRoom(s.tiles, size) || frames * 4096 > size + 16)
  {
    MallocSound(s, size, frames);
    NoRoom(s.tiles, size);
    var n := PagesExist(size);
    PagesAsked(size, n);
    assert frames >= n <==> frames * 4096 > size + 16;
  }

  function Maybe(o: Option<Tile>): seq<Tile> {
    if o.Some? then [o.value] else []
  }

  /** What becomes of a freed block and the holes that touch it: one hole, unless both sides touch, when the next
      one is lost, or the block is joined to the null pointer, when it is lost itself. */
  function Freed(before: Option<Tile>, t: Tile, after: Option<Tile>, toNull: bool): seq<Tile> {
    var lost := if after.Some? then [Tile(after.value.addr, after.value.size, Lost)] else [];
    if toNull then [Tile(t.addr, t.size, Lost)] + lost
    else if before.Some? then [Tile(before.value.addr, before.value.size + t.size, Hole)] + lost
    else if after.Some? then [Tile(t.addr, t.size + after.value.size, Hole)]
    else [Tile(t.addr, t.size, Hole)]
  }

  /** before and after are the holes that end where the block t starts, and start where it ends. */
  ghost predicate Around(left: seq<Tile>, before: Option<Tile>, t: Tile, after: Option<Tile>, right: seq<Tile>) {
    && (before.Some? ==> before.value.kind.Hole? && before.value.addr + before.value.size == t.addr)
    && (before.None? ==> forall u :: u in left && u.kind.Hole? ==> u.addr + u.size != t.addr)
    && (after.Some? ==> after.value.kind.Hole? && after.value.addr == t.addr + t.size)
    && (after.None? ==> forall u :: u in right && u.kind.Hole? ==> u.addr != t.addr + t.size)
  }

  /** free exchanges the block and the holes that touch it for Freed, and leaves all other tiles alone. Null is
      joined exactly when no hole lies before the block and the word there is the block's address. */
  lemma FreeExactly(s: State, left: seq<Tile>, before: Option<Tile>, t: Tile, after: Option<Tile>, right: seq<Tile>)
    requires Sound(s) && s.tiles == left + Maybe(before) + [t] + Maybe(after) + right && t.kind.Live?
    requires Around(left, before, t, after, right)
    ensures IsLive(s, t.addr + 4)
    ensures var toNull := s.nullWord == t.addr && forall u :: u in left + Maybe(before) ==> !u.kind.Hole?;
            Free(s, t.addr + 4) ==
            State(left + Freed(before, t, after, toNull) + right, s.lastPage, s.nullWord + if toNull then t.size else 0)
  {
    hide Sound, HoleAddrs, Release, JoinsPrevious, JoinsNext, JoinsNull, Around, Freed, LiveIndex;
    var i := |left + Maybe(before)|;
    assert Tiling(s.tiles) by { SoundTiles(s); }
    assert s.tiles[i] == t && s.tiles[..i] == left + Maybe(before);
    LiveIndexUnique(s.tiles, i);
    TouchingHoles(s.tiles, i, left, before, t, after, right);
    NoneBefore(s.tiles, i);
    NullExactly(s.tiles, i, s.nullWord);
    ReleaseIs(s.tiles, i, s.nullWord, left, before, t, after, right);
  }

  lemma SoundTiles(s: State)
    requires Sound(s)
    ensures Tiling(s.tiles)
  {
  }

  lemma TouchingHoles(ts: seq<Tile>, i: nat, left: seq<Tile>, before: Option<Tile>, t: Tile, after: Option<Tile>,
      right: seq<Tile>)
    requires ts == left + Maybe(before) + [t] + Maybe(after) + right && i == |left + Maybe(before)|
    requires Around(left, before, t, after, right)
    ensures JoinsPrevious(ts, i) <==> before.Some?
    ensures JoinsNext(ts, i) <==> after.Some?
  {
    assert ts[i] == t;
    assert i > 0 ==> ts[i - 1] == if before.Some? then before.value else left[i - 1];
    assert i + 1 < |ts| ==> ts[i + 1] == if after.Some? then after.value else right[0];
  }

  lemma NullExactly(ts: seq<Tile>, i: nat, nullWord: nat)
    requires i < |ts|
    ensures JoinsNull(ts, i, nullWord) <==> nullWord == ts[i].addr && forall u :: u in ts[..i] ==> !u.kind.Hole?
  {
    NoneBefore(ts, i);
    hide HoleAddrs;
    assert forall k :: 0 <= k < i ==> ts[..i][k] == ts[k] && ts[k] in ts[..i];
  }

  lemma {:induction false} NoneBefore(ts: seq<Tile>, i: nat)
    requires i <= |ts|
    ensures HoleAddrs(ts[..i]) == [] <==> forall k :: 0 <= k < i ==> !ts[k].kind.Hole?
  {
    if i > 0 {
      NoneBefore(ts, i - 1);
      assert ts[..i] == ts[..i - 1] + [ts[i - 1]];
      HoleAddrsConcat(ts[..i - 1], [ts[i - 1]]);
      HoleAddrsOfOne(ts[i - 1]);
    }
  }

  lemma ReleaseIs(ts: seq<Tile>, i: nat, nullWord: nat, left: seq<Tile>, before: Option<Tile>, t: Tile,
      after: Option<Tile>, right: seq<Tile>)
    requires ts == left + Maybe(before) + [t] + Maybe(after) + right && i == |left + Maybe(before)|
    requires i < |ts| && ts[i] == t
    requires (JoinsPrevious(ts, i) <==> before.Some?) && (JoinsNext(ts, i) <==> after.Some?)
    ensures Release(ts, i, nullWord) == left + Freed(before, t, after, JoinsNull(ts, i, nullWord)) + right
  {
    if JoinsNull(ts, i, nullWord) {
      NullNotPrevious(ts, i);
    }
    hide JoinsPrevious, JoinsNext, JoinsNull;
    assert before.Some? ==> ts[i - 1] == before.value;
    assert after.Some? ==> ts[i + 1] == after.value;
    assert Merged(ts, i, nullWord) == Freed(before, t, after, JoinsNull(ts, i, nullWord));
    assert ts[..MergeStart(ts, i)] == left && ts[MergeEnd(ts, i)..] == right;
  }

  lemma LiveAt(s: State, t: Tile)
    requires Sound(s) && t in s.tiles && t.kind.Live?
    ensures IsLive(s, t.addr + 4) && s.tiles[LiveIndex(s.tiles, t.addr)] == t
  {
    var i :| 0 <= i < |s.tiles| && s.tiles[i] == t;
    LiveIndexUnique(s.tiles, i);
  }

  /** No block is live at this address. */
  ghost predicate NoBlockAt(s: State, addr: nat) {
    forall u :: u in s.tiles && u.kind.Live? ==> u.addr != addr
  }

  lemma NotLiveAt(s: State, p: nat)
    requires !IsLive(s, p) && 4 <= p
    ensures NoBlockAt(s, p - 4)
  {
  }

  lemma ProvidesBlock(s: State, q: nat, size: nat)
    requires Provides(s, q, size)
    ensures 4 <= q && exists u :: u in s.tiles && u.kind.Live? && u.addr == q - 4 && u.size >= size + 4
  {
    var u := s.tiles[LiveIndex(s.tiles, q - SIZE_WORD)];
    assert u in s.tiles && u.kind.Live? && u.addr == q - 4;
  }

  /** realloc of the block t: when it gives a block, of what size, and which blocks are live afterwards. */
  lemma ReallocExactly(s: State, t: Tile, size: nat, frames: nat)
    requires Sound(s) && t in s.tiles && t.kind.Live? && MallocAllowed(s, size, frames) && !LosesHoles(s, size, frames)
    ensures Allowed(s, OpRealloc(t.addr + 4, size, frames))
    ensures Malloc(s, size, frames).1 != 0 ==> IsLive(Malloc(s, size, frames).0, t.addr + 4)
    ensures var (s', q) := Realloc(s, t.addr + 4, size, frames);
            && (q != 0 <==> size > 0 && (HasRoom(s.tiles, size) || frames * 4096 > size + 16))
            && (q == 0 && size > 0 ==> t in s'.tiles)
            && (q != 0 || size == 0 ==> NoBlockAt(s', t.addr))
            && (q != 0 ==> 4 <= q && NoBlockAt(s, q - 4)
                           && exists u :: u in s'.tiles && u.kind.Live? && u.addr == q - 4 && u.size >= size + 4)
            && (forall u :: u in s.tiles && u.kind.Live? && u != t ==> u in s'.tiles)
  {
    var p := t.addr + 4;
    LiveAt(s, t);
    MallocSound(s, size, frames);
    MallocSucceeds(s, size, frames);
    ReallocSound(s, p, size, frames);
    hide Malloc, Free, Accounts, LiveIndex, MallocAllowed, LosesHoles, HasRoom, Bytes, Sound, IsLive, Provides,
         NoBlockAt;
    var (s1, r) := Malloc(s, size, frames);
    var (s', q) := Realloc(s, p, size, frames);
    if size == 0 {
      NothingAsked(s, frames);
      FreeSound(s, p);
      NotLiveAt(s', p);
    } else if r != 0 {
      LiveAt(s1, t);
      FreeSound(s1, p);
      NotLiveAt(s', p);
      ProvidesBlock(s', q, size);
      NotLiveAt(s, q);
    }
  }

  /** The first two calls of a heap: 8 bytes from its first page, and 5000 bytes from two more pages. */
  lemma FirstCalls(nullWord: nat)
    ensures Malloc(Initial(nullWord), 8, 0) ==
            (State([Tile(0xC0C0_0000, 12, Live), Tile(0xC0C0_000C, 4084, Hole)], 0xC0C0_0000, nullWord), 0xC0C0_0004)
    ensures Malloc(Initial(nullWord), 5000, 2) ==
            (State([Tile(0xC0C0_0000, 4096, Hole), Tile(0xC0C0_1000, 5004, Live), Tile(0xC0C0_238C, 3188, Hole)],
                   0xC0C0_3000, nullWord), 0xC0C0_1004)
  {
    var s := Initial(nullWord);
    MallocInHole(s, 8, 0, 0);
    assert !HasRoom(s.tiles, 5000);
    MallocInExtension(s, 5000, 2, 2);
    hide HasRoom, Malloc;
    assert Pieces(0xC0C0_0000, 4096, 8) == [Tile(0xC0C0_0000, 12, Live), Tile(0xC0C0_000C, 4084, Hole)];
    assert Pieces(0xC0C0_1000, 8192, 5000) == [Tile(0xC0C0_1000, 5004, Live), Tile(0xC0C0_238C, 3188, Hole)];
    hide Pieces;
    var one, two := Pieces(0xC0C0_0000, 4096, 8), Pieces(0xC0C0_1000, 8192, 5000);
    assert s.tiles[..0] + one + s.tiles[1..] == one;
    assert s.tiles + two == [s.tiles[0], two[0], two[1]];
  }
}
