/**
 The heap as a state machine over tiles, and what every run of malloc, free and realloc keeps.
 A state is followed by the class in Heap.dfy, whose methods are proved equal to these functions.
 */
module HeapRuns {
  import opened Words
  import opened HeapLayout
  import opened HeapTiles

  /** nullWord is the word at the null pointer, which merge reads and an extension without a frame writes. */
  datatype State = State(tiles: seq<Tile>, lastPage: nat, nullWord: nat)

  function Initial(nullWord: nat): State {
    State([Tile(HEAP_START, PAGE, Hole)], HEAP_START, nullWord)
  }

  ghost predicate Sound(s: State) {
    && Tiling(s.tiles)
    && HEAP_START <= s.lastPage
    && forall i :: 0 <= i < |s.tiles| ==> s.tiles[i].End() <= s.lastPage + PAGE && s.tiles[i].End() <= HEAP_LIMIT
  }

  /** The pages an extension asks for, so that the request and a header fit. */
  function ExtensionPages(required: nat): nat {
    (required + HEADER) / PAGE + 1
  }

  /** An extension when the frame allocator has `frames` frames to give. */
  function Extend(s: State, required: nat, frames: nat): State {
    var got := Min(ExtensionPages(required), frames);
    var start := s.lastPage + PAGE;
    State(s.tiles + if got == 0 then [] else [Tile(start, got * PAGE, Hole)], start + got * PAGE,
          if got == 0 then 0 else s.nullWord)
  }

  predicate NeedsExtension(s: State, required: nat) {
    FirstFit(s.tiles, required) == |s.tiles|
  }

  /** A cut of a hole of this size leaves room for the header of the rest. */
  predicate CutSafe(size: nat, required: nat) {
    size <= required + HEADER || HEADER <= required || 2 * HEADER <= size
  }

  /** The state after malloc(size), and the address it returns; 0 is null. */
  function Malloc(s: State, size: nat, frames: nat): (State, nat) {
    var required := size + SIZE_WORD;
    if size == 0 then (s, 0)
    else if !NeedsExtension(s, required) then
      var i := FirstFit(s.tiles, required);
      (s.(tiles := Take(s.tiles, i, required)), s.tiles[i].addr + SIZE_WORD)
    else
      var e := Extend(s, required, frames);
      var i := FirstFit(e.tiles, required);
      if frames < ExtensionPages(required) || i == |e.tiles| then (e, 0)
      else (e.(tiles := Take(e.tiles, i, required)), e.tiles[i].addr + SIZE_WORD)
  }

  /** What malloc needs of its caller and of the machine: see README. */
  predicate MallocAllowed(s: State, size: nat, frames: nat) {
    var required := size + SIZE_WORD;
    size == 0
    || if NeedsExtension(s, required) then
         s.lastPage + PAGE + ExtensionPages(required) * PAGE <= HEAP_LIMIT
       else
         CutSafe(s.tiles[FirstFit(s.tiles, required)].size, required)
  }

  /** With no frame at all the new hole is written at the null pointer, and the list is lost. */
  predicate LosesHoles(s: State, size: nat, frames: nat) {
    size > 0 && NeedsExtension(s, size + SIZE_WORD) && frames == 0 && HoleAddrs(s.tiles) != []
  }

  /** The live block that starts at this address; |ts| if there is none. */
  function LiveIndex(ts: seq<Tile>, addr: nat): (i: nat)
    ensures i <= |ts|
    ensures i < |ts| ==> ts[i].kind.Live? && ts[i].addr == addr
    ensures i == |ts| ==> forall j :: 0 <= j < |ts| ==> !(ts[j].kind.Live? && ts[j].addr == addr)
  {
    if ts == [] || (ts[0].kind.Live? && ts[0].addr == addr) then 0 else 1 + LiveIndex(ts[1..], addr)
  }

  /** p was returned by malloc and not freed since. */
  predicate IsLive(s: State, p: nat) {
    SIZE_WORD <= p && LiveIndex(s.tiles, p - SIZE_WORD) < |s.tiles|
  }

  function Free(s: State, p: nat): State
    requires IsLive(s, p)
  {
    var i := LiveIndex(s.tiles, p - SIZE_WORD);
    s.(tiles := Release(s.tiles, i, s.nullWord), nullWord := NullAfter(s.tiles, i, s.nullWord))
  }

  lemma NothingLost(s: State, frames: nat)
    ensures !LosesHoles(s, 0, frames)
  {
  }

  lemma ReplaceTiling(ts: seq<Tile>, i: nat, j: nat, us: seq<Tile>)
    requires Tiling(ts) && Tiling(us) && i < j <= |ts| && us != []
    requires ts[i].addr <= us[0].addr && us[|us| - 1].End() <= ts[j - 1].End()
    ensures Tiling(Replace(ts, i, j, us))
  {
    var rs := Replace(ts, i, j, us);
    forall a, b | 0 <= a < b < |rs| ensures rs[a].End() <= rs[b].addr {
      if a < i <= b < i + |us| {
        assert ts[a].End() <= ts[i].addr;
        assert us[0].addr <= us[b - i].addr;
      } else if i <= a < i + |us| <= b {
        assert us[a - i].End() <= us[|us| - 1].End();
        assert ts[j - 1].End() <= ts[b - i - |us| + j].addr;
      }
    }
  }

  lemma ReplaceBytes(ts: seq<Tile>, i: nat, j: nat, us: seq<Tile>, kind: Kind)
    requires i <= j <= |ts|
    ensures Bytes(Replace(ts, i, j, us), kind) == Bytes(ts, kind) - Bytes(ts[i..j], kind) + Bytes(us, kind)
  {
    BytesConcat(ts[..i] + us, ts[j..], kind);
    BytesConcat(ts[..i], us, kind);
    assert ts == ts[..i] + ts[i..j] + ts[j..];
    BytesConcat(ts[..i] + ts[i..j], ts[j..], kind);
    BytesConcat(ts[..i], ts[i..j], kind);
  }

  /** Cutting a hole keeps the tiling exactly when the rest, if any, holds a header. */
  lemma TakeTiling(ts: seq<Tile>, i: nat, required: nat)
    requires Tiling(ts) && i < |ts| && ts[i].Serves(required)
    ensures Tiling(Take(ts, i, required)) <==> CutSafe(ts[i].size, required)
  {
    var us := Carve(ts[i], required);
    if CutSafe(ts[i].size, required) {
      ReplaceTiling(ts, i, i + 1, us);
    } else {
      assert Take(ts, i, required)[i + 1] == us[1];
    }
  }

  lemma ReleaseTiling(ts: seq<Tile>, i: nat, nullWord: nat)
    requires Tiling(ts) && i < |ts|
    ensures Tiling(Release(ts, i, nullWord))
  {
    hide Tiling, Merged, MergeStart, MergeEnd, JoinsNull;
    MergedTiling(ts, i, nullWord);
    ReplaceTiling(ts, MergeStart(ts, i), MergeEnd(ts, i), Merged(ts, i, nullWord));
  }

  /** The tiles that come out of a merge fill the place of those that went in. */
  lemma MergedTiling(ts: seq<Tile>, i: nat, nullWord: nat)
    requires Tiling(ts) && i < |ts|
    ensures var a, b, us := MergeStart(ts, i), MergeEnd(ts, i), Merged(ts, i, nullWord);
            && a < b <= |ts| && us != [] && ts[a].addr <= us[0].addr && us[|us| - 1].End() <= ts[b - 1].End()
            && Tiling(us)
  {
    var t, us := ts[i], Merged(ts, i, nullWord);
    assert HEAP_START <= t.addr && HEADER <= t.size;
    assert JoinsPrevious(ts, i) ==> HEAP_START <= ts[i - 1].addr;
    assert JoinsNext(ts, i) ==> HEADER <= ts[i + 1].size;
    if JoinsNull(ts, i, nullWord) {
      NullNotPrevious(ts, i);
    }
    hide HoleAddrs, Tiling;
    if |us| == 1 {
      PairTiling(us[0], us[0].(addr := us[0].End()));
    } else {
      PairTiling(us[0], us[1]);
    }
  }

  lemma PairTiling(t: Tile, u: Tile)
    requires HEAP_START <= t.addr && HEADER <= t.size && HEADER <= u.size && t.End() <= u.addr
    ensures forall ts :: ts == [t] || ts == [t, u] ==> Tiling(ts)
  {
  }

  /** The bytes free loses: the next hole, when the freed block touches holes on both sides; and the block
      itself with a hole touching its end, when it is joined to the null pointer. */
  function LostByRelease(ts: seq<Tile>, i: nat, nullWord: nat): nat requires i < |ts| {
    var next := if JoinsNext(ts, i) then ts[i + 1].size else 0;
    if JoinsNull(ts, i, nullWord) then ts[i].size + next else if JoinsPrevious(ts, i) then next else 0
  }

  /** A freed block becomes part of a hole, as if the null pointer held no size, exactly when the word there is
      not the block's address or some hole lies before the block. */
  lemma ReleaseExactly(ts: seq<Tile>, i: nat, nullWord: nat)
    requires Tiling(ts) && i < |ts| && ts[i].kind.Live?
    ensures Release(ts, i, nullWord) == Release(ts, i, 0) <==> !JoinsNull(ts, i, nullWord)
  {
    if JoinsNull(ts, i, nullWord) {
      NullNotPrevious(ts, i);
      assert Release(ts, i, nullWord)[i].kind.Lost?;
      assert Release(ts, i, 0)[i].kind.Hole?;
    }
  }

  /** Freeing loses nothing exactly when the null pointer is not joined and at most one neighbour touches. */
  lemma NothingLostByRelease(ts: seq<Tile>, i: nat, nullWord: nat)
    requires Tiling(ts) && i < |ts|
    ensures LostByRelease(ts, i, nullWord) == 0 <==>
            !JoinsNull(ts, i, nullWord) && !(JoinsPrevious(ts, i) && JoinsNext(ts, i))
  {
  }

  /** How freeing tile i changes the bytes of each kind. */
  function ReleaseChange(ts: seq<Tile>, i: nat, nullWord: nat, kind: Kind): int requires i < |ts| {
    match kind
    case Live => -(ts[i].size as int)
    case Hole => ts[i].size - LostByRelease(ts, i, nullWord)
    case Lost => LostByRelease(ts, i, nullWord)
  }

  lemma WindowBytes(ts: seq<Tile>, i: nat, kind: Kind)
    requires i < |ts| && ts[i].kind.Live?
    ensures Bytes(ts[MergeStart(ts, i)..MergeEnd(ts, i)], kind) ==
            (if JoinsPrevious(ts, i) then BytesIf(ts[i - 1], kind) else 0) + BytesIf(ts[i], kind)
            + (if JoinsNext(ts, i) then BytesIf(ts[i + 1], kind) else 0)
  {
    var t := ts[i];
    if JoinsPrevious(ts, i) {
      if JoinsNext(ts, i) {
        assert ts[i - 1..i + 2] == [ts[i - 1], t, ts[i + 1]];
        BytesFew(ts[i - 1], t, ts[i + 1], kind);
      } else {
        assert ts[i - 1..i + 1] == [ts[i - 1], t];
        BytesFew(ts[i - 1], t, t, kind);
      }
    } else if JoinsNext(ts, i) {
      assert ts[i..i + 2] == [t, ts[i + 1]];
      BytesFew(t, ts[i + 1], t, kind);
    } else {
      assert ts[i..i + 1] == [t];
      BytesFew(t, t, t, kind);
    }
  }

  lemma MergedBytes(ts: seq<Tile>, i: nat, nullWord: nat, kind: Kind)
    requires i < |ts| && ts[i].kind.Live?
    ensures Bytes(Merged(ts, i, nullWord), kind) - Bytes(ts[MergeStart(ts, i)..MergeEnd(ts, i)], kind) ==
            ReleaseChange(ts, i, nullWord, kind)
  {
    if JoinsNull(ts, i, nullWord) {
      NullNotPrevious(ts, i);
    }
    WindowBytes(ts, i, kind);
    var vs := Merged(ts, i, nullWord);
    if |vs| == 1 {
      BytesFew(vs[0], vs[0], vs[0], kind);
    } else {
      BytesFew(vs[0], vs[1], vs[0], kind);
    }
  }

  /** What free moves: the block's bytes go to the holes, and a lost hole leaves them. */
  lemma ReleaseBytes(ts: seq<Tile>, i: nat, nullWord: nat, kind: Kind)
    requires i < |ts| && ts[i].kind.Live?
    ensures Bytes(Release(ts, i, nullWord), kind) == Bytes(ts, kind) + ReleaseChange(ts, i, nullWord, kind)
  {
    MergedBytes(ts, i, nullWord, kind);
    ReplaceBytes(ts, MergeStart(ts, i), MergeEnd(ts, i), Merged(ts, i, nullWord), kind);
  }

  lemma TakeBytes(ts: seq<Tile>, i: nat, required: nat)
    requires i < |ts| && ts[i].Serves(required)
    ensures Bytes(Take(ts, i, required), Hole) + Bytes(Take(ts, i, required), Live) == Bytes(ts, Hole) + Bytes(ts, Live)
    ensures Bytes(Take(ts, i, required), Lost) == Bytes(ts, Lost)
  {
    var us := Carve(ts[i], required);
    assert ts[i..i + 1] == [ts[i]];
    forall kind: Kind
      ensures Bytes(Take(ts, i, required), kind) == Bytes(ts, kind) - BytesIf(ts[i], kind) + Bytes(us, kind)
    {
      BytesFew(ts[i], ts[i], ts[i], kind);
      ReplaceBytes(ts, i, i + 1, us, kind);
    }
    CarveBytes(ts[i], required, Hole);
    CarveBytes(ts[i], required, Live);
    CarveBytes(ts[i], required, Lost);
  }

  lemma CarveBytes(t: Tile, required: nat, kind: Kind)
    requires t.Serves(required)
    ensures var us := Carve(t, required);
            Bytes(us, kind) == match kind
                               case Live => us[0].size
                               case Hole => t.size - us[0].size
                               case Lost => 0
  {
    var us := Carve(t, required);
    if |us| == 1 {
      BytesFew(us[0], t, t, kind);
    } else {
      BytesFew(us[0], us[1], t, kind);
    }
  }

  lemma LiveIndexUnique(ts: seq<Tile>, i: nat)
    requires Tiling(ts) && i < |ts| && ts[i].kind.Live?
    ensures LiveIndex(ts, ts[i].addr) == i
  {
    var j := LiveIndex(ts, ts[i].addr);
    assert j < |ts|;
    assert ts[j].addr < ts[j].End() && ts[i].addr < ts[i].End();
  }

  /** Every tile that is not a hole is still there. */
  ghost predicate KeepsBlocks(ts: seq<Tile>, us: seq<Tile>) {
    forall t {:trigger t in us} {:trigger t in ts} :: t in ts && !t.kind.Hole? ==> t in us
  }

  /** From s to s', with so many bytes newly mapped and so many lost, every byte is accounted for. */
  ghost predicate Accounts(s: State, s': State, mapped: nat, lost: nat) {
    && Bytes(s'.tiles, Hole) + Bytes(s'.tiles, Live) == Bytes(s.tiles, Hole) + Bytes(s.tiles, Live) + mapped - lost
    && Bytes(s'.tiles, Lost) == Bytes(s.tiles, Lost) + lost
  }

  /** The bytes of fresh pages that malloc(size) maps. */
  function MappedByMalloc(s: State, size: nat, frames: nat): nat {
    if size > 0 && NeedsExtension(s, size + SIZE_WORD) then Min(ExtensionPages(size + SIZE_WORD), frames) * PAGE else 0
  }

  lemma ExtendBytes(s: State, required: nat, frames: nat)
    ensures Accounts(s, Extend(s, required, frames), Min(ExtensionPages(required), frames) * PAGE, 0)
  {
    var e := Extend(s, required, frames);
    var added := e.tiles[|s.tiles|..];
    assert e.tiles == s.tiles + added;
    BytesConcat(s.tiles, added, Hole);
    BytesConcat(s.tiles, added, Live);
    BytesConcat(s.tiles, added, Lost);
  }

  lemma ExtendShape(s: State, required: nat, frames: nat)
    requires Sound(s) && s.lastPage + PAGE + ExtensionPages(required) * PAGE <= HEAP_LIMIT
    ensures var got := Min(ExtensionPages(required), frames);
            && (got == 0 <==> frames == 0)
            && Extend(s, required, frames) ==
               State(if got == 0 then s.tiles else s.tiles + [Tile(s.lastPage + PAGE, got * PAGE, Hole)],
                     s.lastPage + PAGE + got * PAGE, if got == 0 then 0 else s.nullWord)
            && Sound(Extend(s, required, frames))
    ensures HEAP_START <= s.lastPage
    ensures forall i :: 0 <= i < |s.tiles| ==> s.tiles[i].addr + SIZE_WORD <= s.tiles[i].End() <= s.lastPage + PAGE
  {
  }

  lemma ExtendSound(s: State, required: nat, frames: nat)
    requires Sound(s) && NeedsExtension(s, required)
    requires s.lastPage + PAGE + ExtensionPages(required) * PAGE <= HEAP_LIMIT
    ensures var e := Extend(s, required, frames);
            && Sound(e) && s.tiles <= e.tiles
            && FirstFit(e.tiles, required) >= |s.tiles|
            && (frames >= ExtensionPages(required) ==>
                 FirstFit(e.tiles, required) == |s.tiles| == |e.tiles| - 1
                   && e.tiles[|s.tiles|].size > required + HEADER)
  {
    var e := Extend(s, required, frames);
    assert forall j :: 0 <= j < |s.tiles| ==> e.tiles[j] == s.tiles[j];
    assert frames >= ExtensionPages(required) ==> e.tiles[|s.tiles|].Serves(required);
  }

  lemma AppendKeeps(ts: seq<Tile>)
    ensures KeepsBlocks(ts, ts) && forall t :: KeepsBlocks(ts, ts + [t])
  {
  }

  lemma ReplaceKeeps(ts: seq<Tile>, i: nat, j: nat, us: seq<Tile>)
    requires i <= j <= |ts|
    requires forall k :: i <= k < j && !ts[k].kind.Hole? ==> ts[k] in us
    ensures KeepsBlocks(ts, Replace(ts, i, j, us))
  {
    forall t | t in ts && !t.kind.Hole? ensures t in Replace(ts, i, j, us) {
      var k :| 0 <= k < |ts| && ts[k] == t;
      assert t in ts[..i] || t in us || t in ts[j..];
    }
  }

  lemma ReplaceBound(ts: seq<Tile>, i: nat, j: nat, us: seq<Tile>, bound: nat)
    requires i <= j <= |ts|
    requires forall k :: 0 <= k < |ts| ==> ts[k].End() <= bound
    requires forall k :: 0 <= k < |us| ==> us[k].End() <= bound
    ensures forall k :: 0 <= k < |Replace(ts, i, j, us)| ==> Replace(ts, i, j, us)[k].End() <= bound
  {
  }

  /** Cutting a hole of a sound heap: what is kept, and the block that comes out. */
  lemma TakeSound(s: State, i: nat, required: nat)
    requires Sound(s) && i < |s.tiles| && s.tiles[i].Serves(required) && CutSafe(s.tiles[i].size, required)
    ensures var us := Take(s.tiles, i, required);
            && Sound(s.(tiles := us)) && KeepsBlocks(s.tiles, us)
            && i < |us| && us[i].kind.Live? && us[i].addr == s.tiles[i].addr && us[i].size >= required
            && LiveIndex(us, s.tiles[i].addr) == i
  {
    var us, cut := Take(s.tiles, i, required), Carve(s.tiles[i], required);
    TakeTiling(s.tiles, i, required);
    ReplaceKeeps(s.tiles, i, i + 1, cut);
    ReplaceBound(s.tiles, i, i + 1, cut, s.lastPage + PAGE);
    ReplaceBound(s.tiles, i, i + 1, cut, HEAP_LIMIT);
    assert us[i] == cut[0];
    LiveIndexUnique(us, i);
  }

  /** A non-null result p: a live block big enough for the request. */
  ghost predicate Provides(s: State, p: nat, size: nat) {
    IsLive(s, p) && s.tiles[LiveIndex(s.tiles, p - SIZE_WORD)].size >= size + SIZE_WORD
  }

  /** Does malloc come back with a block? */
  predicate Succeeds(s: State, size: nat, frames: nat) {
    size > 0 && (NeedsExtension(s, size + SIZE_WORD) ==> frames >= ExtensionPages(size + SIZE_WORD))
  }

  lemma MallocCarves(s: State, size: nat)
    requires Sound(s) && size > 0 && !NeedsExtension(s, size + SIZE_WORD) && MallocAllowed(s, size, 0)
    ensures var (s', p) := Malloc(s, size, 0);
            && Sound(s') && KeepsBlocks(s.tiles, s'.tiles)
            && Accounts(s, s', 0, 0)
            && p != 0 && Provides(s', p, size) && !IsLive(s, p)
  {
    hide Take, Bytes, KeepsBlocks, Tiling, LiveIndex, Sound;
    var i := FirstFit(s.tiles, size + SIZE_WORD);
    HoleIsNotLive(s, i);
    TakeSound(s, i, size + SIZE_WORD);
    TakeBytes(s.tiles, i, size + SIZE_WORD);
  }

  lemma HoleIsNotLive(s: State, i: nat)
    requires Sound(s) && i < |s.tiles| && s.tiles[i].kind.Hole?
    ensures !IsLive(s, s.tiles[i].addr + SIZE_WORD) && s.tiles[i].addr >= HEAP_START
  {
    var j := LiveIndex(s.tiles, s.tiles[i].addr);
    assert j < |s.tiles| ==> s.tiles[i].addr < s.tiles[i].End() && s.tiles[j].addr < s.tiles[j].End();
  }

  /** Extending ends the search: malloc on the extended heap is a plain cut, and does not extend again. */
  lemma MallocAfterExtension(s: State, size: nat, frames: nat)
    requires Sound(s) && size > 0 && NeedsExtension(s, size + SIZE_WORD) && frames >= ExtensionPages(size + SIZE_WORD)
    requires MallocAllowed(s, size, frames)
    ensures var e := Extend(s, size + SIZE_WORD, frames);
            && !NeedsExtension(e, size + SIZE_WORD) && MallocAllowed(e, size, 0)
            && Malloc(s, size, frames) == Malloc(e, size, 0)
  {
    ExtendSound(s, size + SIZE_WORD, frames);
  }

  lemma KeptIsLive(s: State, s': State, p: nat)
    requires Sound(s) && Sound(s') && IsLive(s, p) && s.tiles[LiveIndex(s.tiles, p - SIZE_WORD)] in s'.tiles
    ensures IsLive(s', p) && s'.tiles[LiveIndex(s'.tiles, p - SIZE_WORD)] == s.tiles[LiveIndex(s.tiles, p - SIZE_WORD)]
  {
    var t := s.tiles[LiveIndex(s.tiles, p - SIZE_WORD)];
    var i :| 0 <= i < |s'.tiles| && s'.tiles[i] == t;
    LiveIndexUnique(s'.tiles, i);
  }

  /** malloc on a sound heap. */
  lemma MallocSound(s: State, size: nat, frames: nat)
    requires Sound(s) && MallocAllowed(s, size, frames)
    ensures var (s', p) := Malloc(s, size, frames);
            && Sound(s') && KeepsBlocks(s.tiles, s'.tiles)
            && Accounts(s, s', MappedByMalloc(s, size, frames), 0)
            && (p != 0 <==> Succeeds(s, size, frames))
            && (p != 0 ==> Provides(s', p, size) && !IsLive(s, p) && !LosesHoles(s, size, frames))
  {
    var required := size + SIZE_WORD;
    if size == 0 {
    } else if NeedsExtension(s, required) {
      var e := Extend(s, required, frames);
      ExtendSound(s, required, frames);
      ExtendBytes(s, required, frames);
      assert KeepsBlocks(s.tiles, e.tiles);
      if frames >= ExtensionPages(required) {
        MallocAfterExtension(s, size, frames);
        MallocCarves(e, size);
        if IsLive(s, Malloc(e, size, 0).1) { KeptIsLive(s, e, Malloc(e, size, 0).1); }
      }
    } else {
      MallocCarves(s, size);
    }
  }

  lemma ReplaceSound(s: State, i: nat, j: nat, us: seq<Tile>)
    requires Sound(s) && Tiling(us) && i < j <= |s.tiles| && us != []
    requires s.tiles[i].addr <= us[0].addr && us[|us| - 1].End() <= s.tiles[j - 1].End()
    ensures Sound(s.(tiles := Replace(s.tiles, i, j, us)))
  {
    ReplaceTiling(s.tiles, i, j, us);
    forall k | 0 <= k < |us| ensures us[k].End() <= s.tiles[j - 1].End() {
      assert us[k].End() <= us[|us| - 1].End();
    }
    ReplaceBound(s.tiles, i, j, us, s.lastPage + PAGE);
    ReplaceBound(s.tiles, i, j, us, HEAP_LIMIT);
  }

  /** free of a live block on a sound heap. */
  lemma FreeSound(s: State, p: nat)
    requires Sound(s) && IsLive(s, p)
    ensures var i := LiveIndex(s.tiles, p - SIZE_WORD);
            var s' := Free(s, p);
            && Sound(s') && !IsLive(s', p)
            && (forall t {:trigger t in s'.tiles} :: t in s.tiles && !t.kind.Hole? && t != s.tiles[i] ==> t in s'.tiles)
            && Accounts(s, s', 0, LostByRelease(s.tiles, i, s.nullWord))
  {
    hide Release, Bytes, HoleAddrs;
    var i := LiveIndex(s.tiles, p - SIZE_WORD);
    ReleaseTiling(s.tiles, i, s.nullWord);
    ReleaseBytes(s.tiles, i, s.nullWord, Hole);
    ReleaseBytes(s.tiles, i, s.nullWord, Live);
    ReleaseBytes(s.tiles, i, s.nullWord, Lost);
    ReleaseBound(s.tiles, i, s.nullWord, s.lastPage + PAGE);
    ReleaseBound(s.tiles, i, s.nullWord, HEAP_LIMIT);
    ReleaseKeeps(s.tiles, i, s.nullWord);
  }

  lemma ReleaseBound(ts: seq<Tile>, i: nat, nullWord: nat, bound: nat)
    requires i < |ts| && forall k :: 0 <= k < |ts| ==> ts[k].End() <= bound
    ensures forall k :: 0 <= k < |Release(ts, i, nullWord)| ==> Release(ts, i, nullWord)[k].End() <= bound
  {
    if JoinsNull(ts, i, nullWord) {
      NullNotPrevious(ts, i);
    }
    ReplaceBound(ts, MergeStart(ts, i), MergeEnd(ts, i), Merged(ts, i, nullWord), bound);
  }

  lemma ReleaseKeeps(ts: seq<Tile>, i: nat, nullWord: nat)
    requires Tiling(ts) && i < |ts| && ts[i].kind.Live?
    ensures var rs := Release(ts, i, nullWord);
            forall t {:trigger t in rs} :: t in ts && !t.kind.Hole? && t != ts[i] ==> t in rs
    ensures LiveIndex(Release(ts, i, nullWord), ts[i].addr) == |Release(ts, i, nullWord)|
  {
    if JoinsNull(ts, i, nullWord) {
      NullNotPrevious(ts, i);
    }
    hide HoleAddrs, LiveIndex;
    var a, b, us := MergeStart(ts, i), MergeEnd(ts, i), Merged(ts, i, nullWord);
    assert forall k :: a <= k < b && k != i ==> ts[k].kind.Hole?;
    assert forall k :: 0 <= k < |us| ==> !us[k].kind.Live?;
    assert a <= i < b;
    hide JoinsNull, MergeStart, MergeEnd, Merged;
    KeptAround(ts, a, b, i, us);
    OthersElsewhere(ts, a, b, i, us);
    NoLiveAt(Replace(ts, a, b, us), ts[i].addr);
  }

  lemma KeptAround(ts: seq<Tile>, a: nat, b: nat, i: nat, us: seq<Tile>)
    requires a <= i < b <= |ts| && forall k :: a <= k < b && k != i ==> ts[k].kind.Hole?
    ensures forall t :: t in ts && !t.kind.Hole? && t != ts[i] ==> t in Replace(ts, a, b, us)
  {
    forall t | t in ts && !t.kind.Hole? && t != ts[i] ensures t in Replace(ts, a, b, us) {
      var k :| 0 <= k < |ts| && ts[k] == t;
      assert t in ts[..a] || t in ts[b..];
    }
  }

  lemma OthersElsewhere(ts: seq<Tile>, a: nat, b: nat, i: nat, us: seq<Tile>)
    requires Tiling(ts) && a <= i < b <= |ts| && forall k :: 0 <= k < |us| ==> !us[k].kind.Live?
    ensures forall t :: t in Replace(ts, a, b, us) && t.kind.Live? ==> t.addr != ts[i].addr
  {
    forall t | t in Replace(ts, a, b, us) && t.kind.Live? ensures t.addr != ts[i].addr {
      assert t in ts[..a] || t in us || t in ts[b..];
    }
  }

  lemma NoLiveAt(ts: seq<Tile>, addr: nat)
    requires forall t :: t in ts && t.kind.Live? ==> t.addr != addr
    ensures LiveIndex(ts, addr) == |ts|
  {
  }

  /** realloc(p, size): a new block, then the old one is freed. */
  function Realloc(s: State, p: nat, size: nat, frames: nat): (State, nat)
    requires p != 0 ==> IsLive(s, p)
    requires p != 0 && size != 0 && Malloc(s, size, frames).1 != 0 ==> IsLive(Malloc(s, size, frames).0, p)
  {
    if p == 0 then Malloc(s, size, frames)
    else if size == 0 then (Free(s, p), 0)
    else
      var (s', q) := Malloc(s, size, frames);
      if q == 0 then (s', 0) else (Free(s', p), q)
  }

  datatype Op =
    | OpMalloc(size: nat, frames: nat)
    | OpFree(p: nat)
    | OpRealloc(p: nat, size: nat, frames: nat)

  /** The call is one the heap is meant to serve: arguments it gave out, and memory to extend with. */
  ghost predicate Allowed(s: State, op: Op) {
    match op
    case OpMalloc(size, frames) => MallocAllowed(s, size, frames) && !LosesHoles(s, size, frames)
    case OpFree(p) => IsLive(s, p)
    case OpRealloc(p, size, frames) =>
      (p != 0 ==> IsLive(s, p)) && MallocAllowed(s, size, frames) && !LosesHoles(s, size, frames)
  }

  lemma ReallocDefined(s: State, p: nat, size: nat, frames: nat)
    requires Sound(s) && IsLive(s, p) && MallocAllowed(s, size, frames)
    ensures IsLive(Malloc(s, size, frames).0, p)
  {
    MallocSound(s, size, frames);
    KeptIsLive(s, Malloc(s, size, frames).0, p);
  }

  /** The bytes of fresh pages a call maps. */
  ghost function MappedBy(s: State, op: Op): nat {
    match op
    case OpMalloc(size, frames) => MappedByMalloc(s, size, frames)
    case OpFree(_) => 0
    case OpRealloc(_, size, frames) => MappedByMalloc(s, size, frames)
  }

  /** The block a call frees, and the state it frees it in. */
  ghost predicate Frees(s: State, op: Op, p: nat) {
    match op
    case OpMalloc(_, _) => false
    case OpFree(q) => p == q
    case OpRealloc(q, size, frames) => p == q != 0 && (size == 0 || Succeeds(s, size, frames))
  }

  /** The bytes a call loses: what LostByRelease says of the block it frees. */
  ghost function LostBy(s: State, op: Op): nat
    requires Sound(s) && Allowed(s, op)
  {
    match op
    case OpMalloc(_, _) => 0
    case OpFree(p) => LostByRelease(s.tiles, LiveIndex(s.tiles, p - SIZE_WORD), s.nullWord)
    case OpRealloc(p, size, frames) =>
      if !Frees(s, op, p) then 0
      else
        ReallocDefined(s, p, size, frames);
        var s1 := Malloc(s, size, frames).0;
        LostByRelease(s1.tiles, LiveIndex(s1.tiles, p - SIZE_WORD), s1.nullWord)
  }

  ghost function Step(s: State, op: Op): (s': State)
    requires Sound(s) && Allowed(s, op)
    ensures Sound(s') && Accounts(s, s', MappedBy(s, op), LostBy(s, op))
  {
    hide Sound, Accounts, Malloc, Free, Realloc, MallocAllowed, LosesHoles, IsLive, LiveIndex, MappedByMalloc,
         LostByRelease, Succeeds, KeepsBlocks, Provides;
    match op
    case OpMalloc(size, frames) => MallocSound(s, size, frames); Malloc(s, size, frames).0
    case OpFree(p) => FreeSound(s, p); Free(s, p)
    case OpRealloc(p, size, frames) => ReallocSound(s, p, size, frames); Realloc(s, p, size, frames).0
  }

  lemma FreeKeepsProvided(s: State, p: nat, q: nat, size: nat)
    requires Sound(s) && IsLive(s, p) && Provides(s, q, size) && p != q
    ensures Provides(Free(s, p), q, size)
  {
    FreeSound(s, p);
    assert s.tiles[LiveIndex(s.tiles, q - SIZE_WORD)].addr != p - SIZE_WORD;
    hide Free, Accounts;
    KeptIsLive(s, Free(s, p), q);
  }

  /** realloc that got its new block: the old one is freed, the new one stays. */
  lemma ReallocMoves(s: State, p: nat, size: nat, frames: nat)
    requires Sound(s) && p != 0 && Allowed(s, OpRealloc(p, size, frames)) && Succeeds(s, size, frames)
    ensures var (s1, q) := Malloc(s, size, frames);
            && q != 0 && IsLive(s1, p)
            && Sound(Free(s1, p)) && Provides(Free(s1, p), q, size)
            && Accounts(s, Free(s1, p), MappedByMalloc(s, size, frames), LostBy(s, OpRealloc(p, size, frames)))
  {
    hide Malloc, Free, Sound, Provides, Accounts, MallocAllowed, Succeeds, LosesHoles;
    hide IsLive, LiveIndex, LostByRelease, MappedByMalloc, KeepsBlocks;
    var (s1, q) := Malloc(s, size, frames);
    ReallocDefined(s, p, size, frames);
    MallocSound(s, size, frames);
    FreeSound(s1, p);
    NotBoth(s, p, q);
    FreeKeepsProvided(s1, p, q, size);
    AccountsTwice(s, s1, Free(s1, p), MappedByMalloc(s, size, frames),
                  LostByRelease(s1.tiles, LiveIndex(s1.tiles, p - SIZE_WORD), s1.nullWord));
  }

  lemma NotBoth(s: State, p: nat, q: nat)
    requires IsLive(s, p) && !IsLive(s, q)
    ensures p != q
  {
  }

  lemma AccountsTwice(s: State, s1: State, s2: State, mapped: nat, lost: nat)
    requires Accounts(s, s1, mapped, 0) && Accounts(s1, s2, 0, lost)
    ensures Accounts(s, s2, mapped, lost)
  {
  }

  lemma NothingAsked(s: State, frames: nat)
    ensures Malloc(s, 0, frames) == (s, 0) && MappedByMalloc(s, 0, frames) == 0 && !Succeeds(s, 0, frames)
  {
  }

  lemma ReallocSound(s: State, p: nat, size: nat, frames: nat)
    requires Sound(s) && Allowed(s, OpRealloc(p, size, frames))
    ensures p != 0 && size != 0 && Malloc(s, size, frames).1 != 0 ==> IsLive(Malloc(s, size, frames).0, p)
    ensures var op := OpRealloc(p, size, frames);
            var (s', q) := Realloc(s, p, size, frames);
            && Sound(s') && Accounts(s, s', MappedBy(s, op), LostBy(s, op))
            && (q != 0 <==> Succeeds(s, size, frames))
            && (q != 0 ==> Provides(s', q, size))
  {
    hide Malloc, Free, Sound, Provides, Accounts, MallocAllowed, Succeeds, LosesHoles;
    hide IsLive, LiveIndex, LostByRelease, MappedByMalloc, KeepsBlocks;
    MallocSound(s, size, frames);
    if p != 0 {
      ReallocDefined(s, p, size, frames);
      if size == 0 {
        NothingAsked(s, frames);
        FreeSound(s, p);
      } else if Succeeds(s, size, frames) {
        ReallocMoves(s, p, size, frames);
      }
    }
  }

  /** The old and the new block while realloc has both. */
  lemma ReallocTiles(s: State, p: nat, size: nat, frames: nat)
    requires Sound(s) && IsLive(s, p) && MallocAllowed(s, size, frames)
    ensures var (s1, q) := Malloc(s, size, frames);
            && IsLive(s1, p) && KeepsBlocks(s.tiles, s1.tiles) && Tiling(s.tiles)
            && (q != 0 ==> !LosesHoles(s, size, frames))
            && (q != 0 ==>
                 var i, j := LiveIndex(s1.tiles, p - SIZE_WORD), LiveIndex(s1.tiles, q - SIZE_WORD);
                 && SIZE_WORD <= q && i < |s1.tiles| && j < |s1.tiles|
                 && s1.tiles[i] == s.tiles[LiveIndex(s.tiles, p - SIZE_WORD)]
                 && (forall t :: t in s.tiles && !t.kind.Hole? ==> t.addr != s1.tiles[j].addr)
                 && size + SIZE_WORD <= s1.tiles[j].size && q != p
                 && (s1.tiles[i].End() <= s1.tiles[j].addr || s1.tiles[j].End() <= s1.tiles[i].addr))
  {
    hide Malloc, MallocAllowed, Succeeds, Accounts, MappedByMalloc;
    var (s1, q) := Malloc(s, size, frames);
    MallocSound(s, size, frames);
    KeptIsLive(s, s1, p);
  }

  /** A block stays where it is, and as long as it is, until a call frees it. */
  lemma StepKeepsLive(s: State, op: Op, t: Tile)
    requires Sound(s) && Allowed(s, op) && t in s.tiles && t.kind.Live? && !Frees(s, op, t.addr + SIZE_WORD)
    ensures t in Step(s, op).tiles
  {
    match op
    case OpMalloc(size, frames) => MallocSound(s, size, frames);
    case OpFree(p) => FreeSound(s, p);
    case OpRealloc(p, size, frames) =>
      MallocSound(s, size, frames);
      if Frees(s, op, p) {
        ReallocDefined(s, p, size, frames);
        FreeSound(Malloc(s, size, frames).0, p);
      }
  }

  ghost predicate RunAllowed(s: State, ops: seq<Op>)
    requires Sound(s)
    decreases |ops|
  {
    ops == [] || (Allowed(s, ops[0]) && RunAllowed(Step(s, ops[0]), ops[1..]))
  }

  ghost function Run(s: State, ops: seq<Op>): State
    requires Sound(s) && RunAllowed(s, ops)
    decreases |ops|
  {
    if ops == [] then s else Run(Step(s, ops[0]), ops[1..])
  }

  ghost function MappedIn(s: State, ops: seq<Op>): nat
    requires Sound(s) && RunAllowed(s, ops)
    decreases |ops|
  {
    if ops == [] then 0 else MappedBy(s, ops[0]) + MappedIn(Step(s, ops[0]), ops[1..])
  }

  ghost function LostIn(s: State, ops: seq<Op>): nat
    requires Sound(s) && RunAllowed(s, ops)
    decreases |ops|
  {
    if ops == [] then 0 else LostBy(s, ops[0]) + LostIn(Step(s, ops[0]), ops[1..])
  }

  /** Every run keeps the heap sound and accounts for every byte. */
  lemma {:induction false} RunSound(s: State, ops: seq<Op>)
    requires Sound(s) && RunAllowed(s, ops)
    ensures Sound(Run(s, ops)) && Accounts(s, Run(s, ops), MappedIn(s, ops), LostIn(s, ops))
    decreases |ops|
  {
    if ops != [] {
      RunSound(Step(s, ops[0]), ops[1..]);
    }
  }

  /** No call of the run frees p. */
  ghost predicate NeverFrees(s: State, ops: seq<Op>, p: nat)
    requires Sound(s) && RunAllowed(s, ops)
    decreases |ops|
  {
    ops == [] || (!Frees(s, ops[0], p) && NeverFrees(Step(s, ops[0]), ops[1..], p))
  }

  /** Whatever else a run does, a block nobody frees stays in place. */
  lemma {:induction false} RunKeepsLive(s: State, ops: seq<Op>, t: Tile)
    requires Sound(s) && RunAllowed(s, ops) && t in s.tiles && t.kind.Live? && NeverFrees(s, ops, t.addr + SIZE_WORD)
    ensures t in Run(s, ops).tiles
    decreases |ops|
  {
    if ops != [] {
      StepKeepsLive(s, ops[0], t);
      RunKeepsLive(Step(s, ops[0]), ops[1..], t);
    }
  }

  /** The word at the null pointer is no address of the heap. */
  predicate NullIsForeign(s: State) {
    s.nullWord < HEAP_START || HEAP_LIMIT <= s.nullWord
  }

  /** A null word outside the heap stays outside, and no free is joined to the null pointer. */
  lemma StepKeepsForeign(s: State, op: Op)
    requires Sound(s) && Allowed(s, op) && NullIsForeign(s)
    ensures NullIsForeign(Step(s, op))
    ensures forall i :: 0 <= i < |s.tiles| ==> !JoinsNull(s.tiles, i, s.nullWord)
  {
    hide Bytes, Release, Take, HoleAddrs;
    match op
    case OpMalloc(size, frames) =>
    case OpFree(p) => ForeignFree(s, p);
    case OpRealloc(p, size, frames) =>
      MallocSound(s, size, frames);
      if Frees(s, op, p) {
        ReallocDefined(s, p, size, frames);
        ForeignFree(Malloc(s, size, frames).0, p);
      }
  }

  lemma ForeignFree(s: State, p: nat)
    requires Sound(s) && IsLive(s, p) && NullIsForeign(s)
    ensures Free(s, p).nullWord == s.nullWord
  {
  }

  /** Over a whole run the heap keeps clear of a foreign null word. */
  lemma {:induction false} RunKeepsForeign(s: State, ops: seq<Op>)
    requires Sound(s) && RunAllowed(s, ops) && NullIsForeign(s)
    ensures NullIsForeign(Run(s, ops))
    decreases |ops|
  {
    if ops != [] {
      StepKeepsForeign(s, ops[0]);
      RunKeepsForeign(Step(s, ops[0]), ops[1..]);
    }
  }
}
