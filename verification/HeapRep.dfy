/**
 How tiles lie in memory: the list of holes, and a size word at the start of every hole and block.
 */
module HeapRep {
  import opened Words
  import opened HeapLayout
  import opened Memory
  import opened HoleList
  import opened HeapTiles
  import HeapRuns

  ghost predicate Sizes(m: Memory, ts: seq<Tile>) {
    forall i :: 0 <= i < |ts| && !ts[i].kind.Lost? ==> ts[i].addr + 4 <= |m| && Load32(m, ts[i].addr) == ts[i].size
  }

  /** Every byte of every tile is a mapped byte of memory. */
  ghost predicate InMemory(mapped: set<nat>, ts: seq<Tile>) {
    forall i :: 0 <= i < |ts| ==> ts[i].End() <= WORD_LIMIT && IsMapped(mapped, ts[i].addr, ts[i].size)
  }

  ghost predicate Represents(m: Memory, mapped: set<nat>, ts: seq<Tile>) {
    && Tiling(ts)
    && InMemory(mapped, ts)
    && IsList(m, mapped, HoleAddrs(ts))
    && Sizes(m, ts)
  }

  /** Only link bytes of the headers xs and bytes from lo up to hi may have changed. */
  ghost predicate Untouched(m: Memory, m': Memory, xs: seq<nat>, lo: nat, hi: nat) {
    && |m'| == |m|
    && forall x {:trigger m'[x]} :: 0 <= x < |m| && !IsLink(xs, x) && !(lo <= x < hi) ==> m'[x] == m[x]
  }

  lemma UntouchedTransitive(m: Memory, m': Memory, m'': Memory, xs: seq<nat>, lo: nat, hi: nat)
    requires Untouched(m, m', xs, lo, hi) && Untouched(m', m'', xs, lo, hi)
    ensures Untouched(m, m'', xs, lo, hi)
  {
  }

  lemma UntouchedLength(m: Memory, m': Memory, xs: seq<nat>, lo: nat, hi: nat)
    requires Untouched(m, m', xs, lo, hi)
    ensures |m'| == |m|
  {
  }

  lemma UntouchedPages(m: Memory, m': Memory, m'': Memory, lo: nat, mid: nat, hi: nat)
    requires lo <= mid <= hi && Untouched(m, m', [], lo, mid) && Untouched(m', m'', [], mid, hi)
    ensures Untouched(m, m'', [], lo, hi)
  {
  }

  lemma UntouchedWiden(m: Memory, m': Memory, xs: seq<nat>, lo: nat, hi: nat, lo': nat, hi': nat)
    requires Untouched(m, m', xs, lo, hi) && lo' <= lo && hi <= hi'
    ensures Untouched(m, m', xs, lo', hi')
  {
  }

  lemma UntouchedAny(m: Memory, m': Memory, xs: seq<nat>, lo: nat, hi: nat)
    requires Untouched(m, m', [], lo, hi)
    ensures Untouched(m, m', xs, lo, hi)
  {
  }

  /** The heap does not touch the null header. */
  lemma NullKept(m: Memory, m': Memory, ts: seq<Tile>, lo: nat, hi: nat)
    requires Whole(m) && Tiling(ts) && Untouched(m, m', HoleAddrs(ts), lo, hi) && HEAP_START <= lo
    ensures Load32(m', 0) == Load32(m, 0)
  {
    forall k | 0 <= k < |HoleAddrs(ts)| ensures HEAP_START <= HoleAddrs(ts)[k] {
      HoleInTile(ts, k);
    }
  }

  /** A hole that is linked to nothing, its address left at the null pointer's previous link. */
  lemma LoneHole(m: Memory, mapped: set<nat>, hole: nat)
    requires Whole(m) && HEADER <= hole && hole + HEADER <= WORD_LIMIT && IsMapped(mapped, hole, HEADER)
    ensures var m' := Store32(Store32(Store32(m, hole + 8, 0), hole + 4, 0), 8, hole);
            IsList(m', mapped, [hole]) && Untouched(m, m', [hole], 8, HEADER)
  {
    var m' := Store32(Store32(Store32(m, hole + 8, 0), hole + 4, 0), 8, hole);
    forall x | 0 <= x < |m| && !IsLink([hole], x) && !(8 <= x < HEADER) ensures m'[x] == m[x] {
      assert IsLink([hole], x) || !([hole][0] + 4 <= x < [hole][0] + HEADER);
    }
  }

  lemma UntouchedNothing(m: Memory, lo: nat)
    ensures Untouched(m, m, [], lo, lo)
  {
  }

  lemma IsMappedRange(mapped: set<nat>, a: nat, n: nat)
    requires forall x :: a <= x < a + n ==> x in mapped
    ensures forall n': nat :: n' <= n ==> IsMapped(mapped, a, n')
  {
  }

  lemma IsMappedMore(mapped: set<nat>, mapped': set<nat>, a: nat, n: nat)
    requires IsMapped(mapped, a, n) && mapped <= mapped'
    ensures IsMapped(mapped', a, n)
  {
  }

  lemma HoleAddrsAppend(ts: seq<Tile>, t: Tile)
    requires t.kind.Hole?
    ensures HoleAddrs(ts + [t]) == HoleAddrs(ts) + [t.addr]
  {
    HoleAddrsConcat(ts, [t]);
    assert HoleAddrs([t]) == [t.addr];
  }

  lemma LinkOf(xs: seq<nat>, y: nat, x: nat)
    requires y + 4 <= x < y + HEADER
    ensures y in xs ==> IsLink(xs, x)
  {
  }

  lemma LinksUntouched(m: Memory, m': Memory, ys: seq<nat>, xs: seq<nat>, lo: nat, hi: nat)
    requires OnlyLinks(m, m', ys)
    requires forall i :: 0 <= i < |ys| ==> ys[i] in xs || lo <= ys[i] <= ys[i] + HEADER <= hi
    ensures Untouched(m, m', xs, lo, hi)
  {
    forall x: nat | x < |m| && !IsLink(xs, x) && !(lo <= x < hi) ensures !IsLink(ys, x) {
      if IsLink(ys, x) {
        var i :| 0 <= i < |ys| && ys[i] + 4 <= x < ys[i] + HEADER;
        LinkOf(xs, ys[i], x);
      }
    }
  }

  /** The address of a hole lies where its tile lies. */
  lemma HoleInTile(ts: seq<Tile>, k: nat)
    requires k < |HoleAddrs(ts)|
    ensures exists i :: 0 <= i < |ts| && ts[i].kind.Hole? && ts[i].addr == HoleAddrs(ts)[k]
  {
    var i := HoleIndex(ts, k);
    assert ts[i].kind.Hole?;
  }

  /** A tile that is not a hole has no link bytes, and no tile has one in its size word. */
  lemma NoLinks(ts: seq<Tile>, j: nat, x: nat)
    requires Tiling(ts) && j < |ts| && ts[j].addr <= x < ts[j].End()
    requires ts[j].kind.Hole? ==> x < ts[j].addr + 4
    ensures !IsLink(HoleAddrs(ts), x)
  {
    var xs := HoleAddrs(ts);
    if IsLink(xs, x) {
      var k :| 0 <= k < |xs| && xs[k] + 4 <= x < xs[k] + HEADER;
      HoleInTile(ts, k);
    }
  }

  /** Tile j keeps its bytes, unless it is a hole; then it still keeps its size word. */
  lemma UntouchedTile(m: Memory, m': Memory, ts: seq<Tile>, lo: nat, hi: nat, j: nat)
    requires Tiling(ts) && Untouched(m, m', HoleAddrs(ts), lo, hi)
    requires j < |ts| && (ts[j].End() <= lo || hi <= ts[j].addr) && ts[j].End() <= |m|
    ensures !ts[j].kind.Hole? ==> Same(m, m', ts[j].addr, ts[j].size)
    ensures Load32(m', ts[j].addr) == Load32(m, ts[j].addr)
  {
    forall x | ts[j].addr <= x < ts[j].End() && (ts[j].kind.Hole? ==> x < ts[j].addr + 4) ensures m'[x] == m[x] {
      NoLinks(ts, j, x);
    }
  }

  lemma HoleAddrsReplace(ts: seq<Tile>, i: nat, j: nat, us: seq<Tile>)
    requires i <= j <= |ts|
    ensures HoleAddrs(ts) == HoleAddrs(ts[..i]) + HoleAddrs(ts[i..j]) + HoleAddrs(ts[j..])
    ensures HoleAddrs(Replace(ts, i, j, us)) == HoleAddrs(ts[..i]) + HoleAddrs(us) + HoleAddrs(ts[j..])
  {
    HoleAddrsConcat(ts[..i] + us, ts[j..]);
    HoleAddrsConcat(ts[..i], us);
    assert ts == ts[..i] + ts[i..j] + ts[j..];
    HoleAddrsConcat(ts[..i] + ts[i..j], ts[j..]);
    HoleAddrsConcat(ts[..i], ts[i..j]);
  }

  /** Where in the list a header goes that lies after the first i tiles and before tile j. */
  lemma HoleFits(ts: seq<Tile>, i: nat, j: nat, h: nat)
    requires Tiling(ts) && i <= j <= |ts|
    requires h + HEADER <= WORD_LIMIT && HEAP_START <= h
    requires 0 < i ==> ts[i - 1].addr + HEADER <= h
    requires j < |ts| ==> h + HEADER <= ts[j].addr
    requires forall l :: i <= l < j ==> !ts[l].kind.Hole?
    ensures Fits(HoleAddrs(ts), h, |HoleAddrs(ts[..i])|)
  {
    hide HoleAddrs, Fits;
    HoleAddrsReplace(ts, i, j, []);
    NoHoles(ts[i..j]);
    forall l | 0 <= l < i ensures HEAP_START <= ts[l].addr && ts[l].addr + HEADER <= h {
      if l < i - 1 { assert ts[l].End() <= ts[i - 1].addr; }
    }
    StartsWithin(ts[..i], h);
    forall l | j <= l < |ts| ensures h + HEADER <= ts[l].addr {
      if j < l { assert ts[j].End() <= ts[l].addr; }
    }
    StartsAfter(ts[j..], h + HEADER);
    FitsBetween(HoleAddrs(ts[..i]), HoleAddrs(ts[j..]), h);
    assert HoleAddrs(ts[..i]) + [] + HoleAddrs(ts[j..]) == HoleAddrs(ts[..i]) + HoleAddrs(ts[j..]);
  }

  lemma FitsBetween(xs: seq<nat>, ys: seq<nat>, h: nat)
    requires 0 < h && h + HEADER <= WORD_LIMIT
    requires forall k :: 0 <= k < |xs| ==> xs[k] + HEADER <= h
    requires forall k :: 0 <= k < |ys| ==> h + HEADER <= ys[k]
    ensures Fits(xs + ys, h, |xs|)
  {
  }

  lemma StartsWithin(ts: seq<Tile>, h: nat)
    requires forall i :: 0 <= i < |ts| ==> ts[i].addr + HEADER <= h
    ensures forall k :: 0 <= k < |HoleAddrs(ts)| ==> HoleAddrs(ts)[k] + HEADER <= h
  {
    forall k | 0 <= k < |HoleAddrs(ts)| ensures HoleAddrs(ts)[k] + HEADER <= h { HoleInTile(ts, k); }
  }

  lemma StartsAfter(ts: seq<Tile>, h: nat)
    requires forall i :: 0 <= i < |ts| ==> h <= ts[i].addr
    ensures forall k :: 0 <= k < |HoleAddrs(ts)| ==> h <= HoleAddrs(ts)[k]
  {
    forall k | 0 <= k < |HoleAddrs(ts)| ensures h <= HoleAddrs(ts)[k] { HoleInTile(ts, k); }
  }

  lemma NoHoles(ts: seq<Tile>)
    requires forall l :: 0 <= l < |ts| ==> !ts[l].kind.Hole?
    ensures HoleAddrs(ts) == []
  {
  }

  /** A hole's place in the list of holes. */
  lemma HoleAt(ts: seq<Tile>, i: nat)
    requires i < |ts|
    ensures var k := |HoleAddrs(ts[..i])|;
            && HoleAddrs(ts[..i + 1]) == HoleAddrs(ts[..i]) + (if ts[i].kind.Hole? then [ts[i].addr] else [])
            && k <= |HoleAddrs(ts)|
            && (ts[i].kind.Hole? ==> k < |HoleAddrs(ts)| && HoleAddrs(ts)[k] == ts[i].addr)
  {
    HoleAddrsReplace(ts, i, i + 1, []);
    assert ts[i..i + 1] == [ts[i]];
    assert ts[..i + 1] == ts[..i] + [ts[i]];
    HoleAddrsConcat(ts[..i], [ts[i]]);
  }

  /** Tiles i up to j replaced by us, in place: what memory must show for it. */
  lemma ReplaceRep(m: Memory, m': Memory, mapped: set<nat>, ts: seq<Tile>, i: nat, j: nat, us: seq<Tile>)
    requires Represents(m, mapped, ts) && i < j <= |ts| && us != []
    requires Tiling(us) && ts[i].addr <= us[0].addr && us[|us| - 1].End() <= ts[j - 1].End()
    requires InMemory(mapped, us) && Sizes(m', us)
    requires IsList(m', mapped, HoleAddrs(Replace(ts, i, j, us)))
    requires Untouched(m, m', HoleAddrs(ts), ts[i].addr, ts[j - 1].End())
    ensures Represents(m', mapped, Replace(ts, i, j, us))
  {
    hide Tiling, InMemory, IsList, Untouched, Sizes;
    HeapRuns.ReplaceTiling(ts, i, j, us);
    ReplaceInMemory(mapped, ts, i, j, us);
    KeptSizes(m, m', mapped, ts, i, j);
    ReplaceSizes(m', ts, i, j, us);
  }

  lemma ReplaceInMemory(mapped: set<nat>, ts: seq<Tile>, i: nat, j: nat, us: seq<Tile>)
    requires i <= j <= |ts| && InMemory(mapped, ts) && InMemory(mapped, us)
    ensures InMemory(mapped, Replace(ts, i, j, us))
  {
  }

  lemma KeptSizes(m: Memory, m': Memory, mapped: set<nat>, ts: seq<Tile>, i: nat, j: nat)
    requires Represents(m, mapped, ts) && i < j <= |ts|
    requires Untouched(m, m', HoleAddrs(ts), ts[i].addr, ts[j - 1].End())
    ensures Sizes(m', ts[..i]) && Sizes(m', ts[j..])
  {
    forall l | 0 <= l < i || j <= l < |ts| ensures Load32(m', ts[l].addr) == Load32(m, ts[l].addr) {
      UntouchedTile(m, m', ts, ts[i].addr, ts[j - 1].End(), l);
    }
  }

  lemma ReplaceSizes(m: Memory, ts: seq<Tile>, i: nat, j: nat, us: seq<Tile>)
    requires i <= j <= |ts| && Sizes(m, ts[..i]) && Sizes(m, us) && Sizes(m, ts[j..])
    ensures Sizes(m, Replace(ts, i, j, us))
  {
    var rs := Replace(ts, i, j, us);
    forall l | 0 <= l < |rs| && !rs[l].kind.Lost? ensures rs[l].addr + 4 <= |m| && Load32(m, rs[l].addr) == rs[l].size {
      assert rs[l] == if l < i then ts[..i][l] else if l < i + |us| then us[l - i] else ts[j..][l - i - |us|];
    }
  }

  lemma SizeAt(m: Memory, mapped: set<nat>, ts: seq<Tile>, i: nat)
    requires Represents(m, mapped, ts) && i < |ts| && !ts[i].kind.Lost?
    ensures Whole(m) && HEAP_START <= ts[i].addr && ts[i].addr + HEADER <= ts[i].End() <= |m|
    ensures IsMapped(mapped, ts[i].addr, HEADER) && IsMapped(mapped, ts[i].addr, ts[i].size)
            && Load32(m, ts[i].addr) == ts[i].size
  {
  }

  /** Before the rest of a cut hole goes into the list: it fits behind the hole, and its size can be stored. */
  lemma SplitFits(m: Memory, mapped: set<nat>, ts: seq<Tile>, i: nat, required: nat, rest: nat)
    requires Represents(m, mapped, ts) && i < |ts| && ts[i].Serves(required)
    requires HeapRuns.CutSafe(ts[i].size, required) && ts[i].size - required > HEADER
    requires rest == Carve(ts[i], required)[1].addr
    ensures var k := |HoleAddrs(ts[..i])|;
            var size := Carve(ts[i], required)[1].size;
            && |m| == WORD_LIMIT && rest + HEADER <= ts[i].End() <= |m| && size < WORD_LIMIT
            && IsMapped(mapped, rest, HEADER)
            && k < |HoleAddrs(ts)| && HoleAddrs(ts)[k] == ts[i].addr
            && IsMapped(mapped, ts[i].addr, HEADER) && Load32(m, ts[i].addr) == ts[i].size
            && Fits(HoleAddrs(ts), rest, k + 1)
            && IsList(Store32(m, rest, size), mapped, HoleAddrs(ts))
  {
    HoleAt(ts, i);
    HoleFits(ts, i + 1, i + 1, rest);
    StoreSize(m, mapped, HoleAddrs(ts), rest, Carve(ts[i], required)[1].size);
  }

  lemma SplitHoles(ts: seq<Tile>, i: nat, required: nat)
    requires i < |ts| && ts[i].Serves(required) && ts[i].size - required > HEADER
    ensures var k := |HoleAddrs(ts[..i])|;
            var rest := Carve(ts[i], required)[1].addr;
            && k < |HoleAddrs(ts)|
            && RemoveAt(InsertAt(HoleAddrs(ts), k + 1, rest), k) == HoleAddrs(Take(ts, i, required))
  {
    hide HoleAddrs;
    var us := Carve(ts[i], required);
    HoleAt(ts, i);
    HoleAddrsReplace(ts, i, i + 1, us);
    assert ts[i..i + 1] == [ts[i]];
    assert HoleAddrs([ts[i]]) == [ts[i].addr] && HoleAddrs(us) == [us[1].addr] by {
      HoleAddrsOfOne(ts[i]);
      HoleAddrsOfOne(us[0]);
      HoleAddrsOfOne(us[1]);
      assert us == [us[0]] + [us[1]];
      HoleAddrsConcat([us[0]], [us[1]]);
    }
    InsertRemove(HoleAddrs(ts[..i]), ts[i].addr, HoleAddrs(ts[i + 1..]), us[1].addr);
  }

  lemma InsertRemove(a: seq<nat>, x: nat, b: seq<nat>, y: nat)
    ensures RemoveAt(InsertAt(a + [x] + b, |a| + 1, y), |a|) == a + [y] + b
  {
    assert a + [x] + b == a + ([x] + b);
    assert InsertAt(a + [x] + b, |a| + 1, y) == a + [x] + ([y] + b);
  }

  /** The stores of a split: the size of the rest, its links, then the links around the cut hole. */
  lemma SplitFrame(m: Memory, m1: Memory, m2: Memory, m3: Memory, mapped: set<nat>,
                   xs: seq<nat>, k: nat, rest: nat, size: nat, end: nat)
    requires k < |xs| && xs[k] + HEADER <= rest <= rest + HEADER <= end <= WORD_LIMIT && Whole(m) && size < WORD_LIMIT
    requires m1 == Store32(m, rest, size) && IsList(m2, mapped, InsertAt(xs, k + 1, rest))
    requires OnlyLinks(m1, m2, InsertAt(xs, k + 1, rest))
    requires OnlyLinks(m2, m3, RemoveAt(InsertAt(xs, k + 1, rest), k))
    ensures Untouched(m, m3, xs, xs[k], end)
    ensures rest + 4 <= |m3| && Load32(m3, rest) == size
  {
    var ys := InsertAt(xs, k + 1, rest);
    var zs := RemoveAt(ys, k);
    assert ys[k + 1] == rest && zs[k] == rest;
    assert Untouched(m, m1, xs, xs[k], end);
    assert |m| == WORD_LIMIT && Whole(m1) && Whole(m2) && Headers(ys) && Load32(m1, rest) == size;
    assert forall i :: 0 <= i < |ys| ==> ys[i] in xs || ys[i] == rest;
    assert forall i :: 0 <= i < |zs| ==> zs[i] in xs || zs[i] == rest;
    hide IsList, OnlyLinks, Load32, Store32, Untouched, Headers, Whole, InsertAt, RemoveAt;
    OnlyLinksSize(m1, m2, ys, k + 1);
    RemoveAtHeaders(ys, k);
    OnlyLinksSize(m2, m3, zs, k);
    LinksUntouched(m1, m2, ys, xs, xs[k], end);
    LinksUntouched(m2, m3, zs, xs, xs[k], end);
    UntouchedTransitive(m, m1, m2, xs, xs[k], end);
    UntouchedTransitive(m, m2, m3, xs, xs[k], end);
    UntouchedLength(m, m3, xs, xs[k], end);
  }

  /** Memory that changed in no hole and in no size word still represents the tiles. */
  lemma RepFrame(m: Memory, m': Memory, mapped: set<nat>, mapped': set<nat>, ts: seq<Tile>, lo: nat, hi: nat)
    requires Represents(m, mapped, ts) && mapped <= mapped' && Untouched(m, m', [], lo, hi)
    requires forall i :: 0 <= i < |ts| ==>
               hi <= ts[i].addr || if ts[i].kind.Hole? then ts[i].End() <= lo else ts[i].addr + SIZE_WORD <= lo
    ensures Represents(m', mapped', ts)
  {
    var xs := HoleAddrs(ts);
    forall k | 0 <= k < |xs| ensures xs[k] + HEADER <= lo || hi <= xs[k] {
      HoleInTile(ts, k);
    }
    ListFrame(m, m', mapped, mapped', xs, lo, hi);
    forall i | 0 <= i < |ts| ensures Load32(m', ts[i].addr) == Load32(m, ts[i].addr) {
    }
  }

  lemma ListFrame(m: Memory, m': Memory, mapped: set<nat>, mapped': set<nat>, xs: seq<nat>, lo: nat, hi: nat)
    requires IsList(m, mapped, xs) && mapped <= mapped' && Untouched(m, m', [], lo, hi)
    requires forall k :: 0 <= k < |xs| ==> xs[k] + HEADER <= lo || hi <= xs[k]
    ensures IsList(m', mapped', xs)
  {
    forall k | 0 <= k < |xs| ensures Next(m', xs[k]) == Next(m, xs[k]) && Prev(m', xs[k]) == Prev(m, xs[k]) {
    }
  }

  /** The bytes of a live block are its owner's: storing there keeps the heap and every other block. */
  lemma OwnerStore(m: Memory, m': Memory, mapped: set<nat>, ts: seq<Tile>, i: nat, lo: nat, hi: nat)
    requires Represents(m, mapped, ts) && i < |ts| && ts[i].kind.Live?
    requires ts[i].addr + SIZE_WORD <= lo && hi <= ts[i].End() && Untouched(m, m', [], lo, hi)
    ensures Represents(m', mapped, ts) && BlocksSame(m, m', ts, {ts[i].addr})
    ensures Whole(m') && Load32(m', 0) == Load32(m, 0)
  {
    OthersApart(ts, i);
    RepFrame(m, m', mapped, mapped, ts, lo, hi);
    UntouchedAny(m, m', HoleAddrs(ts), lo, hi);
    NullKept(m, m', ts, lo, hi);
    BlocksKept(m, m', mapped, ts, lo, hi, {ts[i].addr});
  }

  /** One byte more of a copy between ranges that do not overlap. */
  lemma CopyStep(m: Memory, m': Memory, dest: nat, src: nat, n: nat, k: nat)
    requires Whole(m) && Untouched(m, m', [], dest, dest + n) && k < n && dest + n <= |m| && src + n <= |m|
    requires src + n <= dest || dest + n <= src
    requires m'[dest..dest + k] == m[src..src + k]
    ensures var m'' := m'[dest + k := m'[src + k]];
            && Whole(m'') && Untouched(m, m'', [], dest, dest + n)
            && m''[dest..dest + k + 1] == m[src..src + k + 1]
  {
    var m'' := m'[dest + k := m'[src + k]];
    assert !IsLink([], src + k) && m'[src + k] == m[src + k];
    assert m''[dest..dest + k + 1] == m'[dest..dest + k] + [m[src + k]];
  }

  /** A hole appended behind all tiles. */
  lemma AppendRep(m: Memory, m': Memory, mapped: set<nat>, ts: seq<Tile>, t: Tile)
    requires Represents(m, mapped, ts) && t.kind.Hole?
    requires forall i :: 0 <= i < |ts| ==> ts[i].End() <= t.addr
    requires HEAP_START <= t.addr && HEADER <= t.size && t.End() <= WORD_LIMIT
    requires forall x :: t.addr <= x < t.End() ==> x in mapped
    requires Whole(m') && Untouched(m, m', HoleAddrs(ts), t.addr, t.End()) && Load32(m', t.addr) == t.size
    requires IsList(m', mapped, HoleAddrs(ts) + [t.addr])
    ensures Represents(m', mapped, ts + [t])
  {
    hide IsList, Untouched, Load32, Tiling, InMemory, Sizes, HoleAddrs;
    HoleAddrsAppend(ts, t);
    AppendTiling(mapped, ts, t);
    AppendSizes(m, m', mapped, ts, t);
  }

  lemma AppendTiling(mapped: set<nat>, ts: seq<Tile>, t: Tile)
    requires Tiling(ts) && InMemory(mapped, ts)
    requires forall i :: 0 <= i < |ts| ==> ts[i].End() <= t.addr
    requires HEAP_START <= t.addr && HEADER <= t.size && t.End() <= WORD_LIMIT
    requires forall x :: t.addr <= x < t.End() ==> x in mapped
    ensures Tiling(ts + [t]) && InMemory(mapped, ts + [t])
  {
    IsMappedRange(mapped, t.addr, t.size);
  }

  lemma WholeList(m: Memory, mapped: set<nat>, xs: seq<nat>)
    requires IsList(m, mapped, xs)
    ensures Whole(m)
  {
  }

  lemma AppendSizes(m: Memory, m': Memory, mapped: set<nat>, ts: seq<Tile>, t: Tile)
    requires Represents(m, mapped, ts) && Untouched(m, m', HoleAddrs(ts), t.addr, t.End())
    requires forall i :: 0 <= i < |ts| ==> ts[i].End() <= t.addr
    requires Whole(m') && t.End() <= WORD_LIMIT && HEADER <= t.size && Load32(m', t.addr) == t.size
    ensures Sizes(m', ts + [t])
  {
    forall i | 0 <= i < |ts| ensures Load32(m', ts[i].addr) == Load32(m, ts[i].addr) {
      UntouchedTile(m, m', ts, t.addr, t.End(), i);
    }
  }

  /** Before a hole at h goes into the list behind all tiles. */
  lemma AppendFits(m: Memory, mapped: set<nat>, ts: seq<Tile>, h: nat, size: nat)
    requires Represents(m, mapped, ts) && HEAP_START <= h && h + HEADER <= WORD_LIMIT && size < WORD_LIMIT
    requires forall i :: 0 <= i < |ts| ==> ts[i].End() <= h
    ensures var xs := HoleAddrs(ts);
            && Whole(m) && Fits(xs, h, |xs|) && IsList(Store32(m, h, size), mapped, xs)
            && InsertAt(xs, |xs|, h) == xs + [h]
  {
    assert ts[..|ts|] == ts;
    HoleFits(ts, |ts|, |ts|, h);
    StoreSize(m, mapped, HoleAddrs(ts), h, size);
  }

  /** The stores of putting a header at h into the list: its size, then the links. */
  lemma InsertFrame(m: Memory, m': Memory, mapped: set<nat>, xs: seq<nat>, k: nat, h: nat, size: nat, end: nat)
    requires k <= |xs| && h + HEADER <= end <= WORD_LIMIT && Whole(m) && size < WORD_LIMIT
    requires IsList(m', mapped, InsertAt(xs, k, h)) && OnlyLinks(Store32(m, h, size), m', InsertAt(xs, k, h))
    ensures Untouched(m, m', xs, h, end) && Load32(m', h) == size
  {
    var ys, m1 := InsertAt(xs, k, h), Store32(m, h, size);
    assert ys[k] == h;
    OnlyLinksSize(m1, m', ys, k);
    LinksUntouched(m1, m', ys, xs, h, end);
    assert Untouched(m, m1, xs, h, end);
    UntouchedTransitive(m, m1, m', xs, h, end);
  }

  /** An extension, from m over the mapped pages m1 to m2 with the new hole t in the list. */
  lemma ExtendRep(m: Memory, m1: Memory, m2: Memory, was: set<nat>, mapped: set<nat>, ts: seq<Tile>, t: Tile)
    requires Represents(m, was, ts) && Represents(m1, mapped, ts) && was <= mapped && t.kind.Hole?
    requires forall i :: 0 <= i < |ts| ==> ts[i].End() <= t.addr
    requires HEAP_START <= t.addr && HEADER <= t.size && t.End() <= HEAP_LIMIT
    requires forall x :: t.addr <= x < t.End() ==> x in mapped
    requires Whole(m1) && Untouched(m, m1, [], t.addr, t.End())
    requires var ys := InsertAt(HoleAddrs(ts), |HoleAddrs(ts)|, t.addr);
             IsList(m2, mapped, ys) && OnlyLinks(Store32(m1, t.addr, t.size), m2, ys)
    requires IsMapped(was, 0, HEADER)
    ensures Represents(m2, mapped, ts + [t]) && HoleAddrs(ts + [t]) == InsertAt(HoleAddrs(ts), |HoleAddrs(ts)|, t.addr)
    ensures Untouched(m, m2, HoleAddrs(ts), t.addr, t.End())
    ensures Whole(m2) && IsMapped(mapped, 0, HEADER) && Load32(m2, 0) == Load32(m, 0)
  {
    hide Tiling, OnlyLinks, Sizes, InMemory, IsList, Untouched, Load32;
    assert Whole(m) && Whole(m2) by {
      WholeList(m, was, HoleAddrs(ts));
      WholeList(m2, mapped, InsertAt(HoleAddrs(ts), |HoleAddrs(ts)|, t.addr));
    }
    var xs := HoleAddrs(ts);
    assert InsertAt(xs, |xs|, t.addr) == xs + [t.addr];
    InsertFrame(m1, m2, mapped, xs, |xs|, t.addr, t.size, t.End());
    AppendRep(m1, m2, mapped, ts, t);
    HoleAddrsAppend(ts, t);
    UntouchedAny(m, m1, xs, t.addr, t.End());
    UntouchedTransitive(m, m1, m2, xs, t.addr, t.End());
    NullKept(m, m2, ts, t.addr, t.End());
    IsMappedMore(was, mapped, 0, HEADER);
  }

  lemma HoleCount(ts: seq<Tile>, i: nat, j: nat)
    requires i <= j <= |ts|
    ensures |HoleAddrs(ts[..i])| <= |HoleAddrs(ts[..j])|
  {
    assert ts[..j] == ts[..i] + ts[i..j];
    HoleAddrsConcat(ts[..i], ts[i..j]);
  }

  /** The first hole in the list that is big enough is the first tile that serves. */
  lemma ListFirstFit(m: Memory, mapped: set<nat>, ts: seq<Tile>, required: nat, k: nat)
    requires Represents(m, mapped, ts) && k <= |HoleAddrs(ts)|
    requires forall l :: 0 <= l < k ==> Size(m, HoleAddrs(ts)[l]) < required
    requires k < |HoleAddrs(ts)| ==> Size(m, HoleAddrs(ts)[k]) >= required
    ensures FirstFit(ts, required) == if k < |HoleAddrs(ts)| then HoleIndex(ts, k) else |ts|
  {
    var f := FirstFit(ts, required);
    if k < |HoleAddrs(ts)| {
      var i := HoleIndex(ts, k);
      assert ts[i].Serves(required);
      HoleCount(ts, f, i);
    }
    if f < |ts| {
      HoleAt(ts, f);
      assert ts[f].Serves(required);
      assert HoleAddrs(ts)[|HoleAddrs(ts[..f])|] == ts[f].addr;
    }
  }

  /** A hole that is taken whole leaves the list. */
  lemma WholeHoles(m: Memory, mapped: set<nat>, ts: seq<Tile>, i: nat, required: nat)
    requires Represents(m, mapped, ts) && i < |ts| && ts[i].Serves(required) && ts[i].size - required <= HEADER
    ensures var k := |HoleAddrs(ts[..i])|;
            && k < |HoleAddrs(ts)| && HoleAddrs(ts)[k] == ts[i].addr
            && RemoveAt(HoleAddrs(ts), k) == HoleAddrs(Take(ts, i, required))
            && forall y :: y in RemoveAt(HoleAddrs(ts), k) ==> y in HoleAddrs(ts)
  {
    hide HoleAddrs, Represents;
    var us := Carve(ts[i], required);
    HoleAt(ts, i);
    HoleAddrsReplace(ts, i, i + 1, us);
    assert ts[i..i + 1] == [ts[i]];
    HoleAddrsOfOne(ts[i]);
    HoleAddrsOfOne(us[0]);
    assert us == [us[0]];
  }

  /** No header of the list overlaps the start of a tile that is not a hole. */
  lemma HolesApart(ts: seq<Tile>, i: nat, k: nat)
    requires Tiling(ts) && i < |ts| && !ts[i].kind.Hole? && k < |HoleAddrs(ts)|
    ensures ts[i].addr <= HoleAddrs(ts)[k] || HoleAddrs(ts)[k] + HEADER <= ts[i].addr
  {
    HoleInTile(ts, k);
  }

  /** The size word of the new block, stored last. */
  lemma TakeRep(m: Memory, m1: Memory, mapped: set<nat>, ts: seq<Tile>, i: nat, required: nat)
    requires Represents(m, mapped, ts) && i < |ts| && ts[i].Serves(required) && HeapRuns.CutSafe(ts[i].size, required)
    requires IsList(m1, mapped, HoleAddrs(Take(ts, i, required)))
    requires Untouched(m, m1, HoleAddrs(ts), ts[i].addr, ts[i].End())
    requires var us := Carve(ts[i], required);
             |us| == 2 ==> us[1].addr + 4 <= |m1| && Load32(m1, us[1].addr) == us[1].size
    ensures var us := Carve(ts[i], required);
            && ts[i].addr + 4 <= |m1| && us[0].size < WORD_LIMIT
            && var m2 := Store32(m1, ts[i].addr, us[0].size);
            && Represents(m2, mapped, Take(ts, i, required))
            && Untouched(m, m2, HoleAddrs(ts), ts[i].addr, ts[i].End())
            && Whole(m2) && Load32(m2, 0) == Load32(m, 0)
  {
    hide IsList, InMemory, Untouched, Load32, Tiling, HoleAddrs, HeapRuns.CutSafe;
    var us, vs := Carve(ts[i], required), Take(ts, i, required);
    TakeBounds(m, mapped, ts, i, required);
    WholeList(m1, mapped, HoleAddrs(vs));
    HeapRuns.TakeTiling(ts, i, required);
    assert vs[i] == us[0];
    forall k | 0 <= k < |HoleAddrs(vs)|
      ensures ts[i].addr <= HoleAddrs(vs)[k] || HoleAddrs(vs)[k] + HEADER <= ts[i].addr
    {
      HolesApart(vs, i, k);
    }
    StoreSize(m1, mapped, HoleAddrs(vs), ts[i].addr, us[0].size);
    var m2 := Store32(m1, ts[i].addr, us[0].size);
    StoreUntouched(m, m1, HoleAddrs(ts), ts[i].addr, ts[i].End(), us[0].size);
    ReplaceRep(m, m2, mapped, ts, i, i + 1, us);
    NullKept(m, m2, ts, ts[i].addr, ts[i].End());
  }

  lemma StoreUntouched(m: Memory, m1: Memory, xs: seq<nat>, lo: nat, hi: nat, w: nat)
    requires Untouched(m, m1, xs, lo, hi) && lo + 4 <= hi && lo + 4 <= |m1| && w < WORD_LIMIT
    ensures Untouched(m, Store32(m1, lo, w), xs, lo, hi)
  {
  }

  lemma TakeBounds(m: Memory, mapped: set<nat>, ts: seq<Tile>, i: nat, required: nat)
    requires Represents(m, mapped, ts) && i < |ts| && ts[i].Serves(required) && HeapRuns.CutSafe(ts[i].size, required)
    ensures var us := Carve(ts[i], required);
            && Whole(m) && HEAP_START <= ts[i].addr && ts[i].addr + HEADER <= ts[i].End() <= WORD_LIMIT
            && Tiling(us) && InMemory(mapped, us) && us[0].addr == ts[i].addr && HEADER <= us[0].size < WORD_LIMIT
            && us[|us| - 1].End() == ts[i].End()
            && (|us| == 2 ==> ts[i].addr + HEADER <= us[1].addr)
  {
  }

  /** Live and lost tiles keep every byte, except the tiles that start in but. */
  ghost predicate BlocksSame(m: Memory, m': Memory, ts: seq<Tile>, but: set<int>) {
    && |m'| == |m|
    && forall i :: 0 <= i < |ts| && !ts[i].kind.Hole? && ts[i].addr !in but ==>
         ts[i].End() <= |m| && Same(m, m', ts[i].addr, ts[i].size)
  }

  lemma BlocksKept(m: Memory, m': Memory, mapped: set<nat>, ts: seq<Tile>, lo: nat, hi: nat, but: set<int>)
    requires Represents(m, mapped, ts) && Untouched(m, m', HoleAddrs(ts), lo, hi)
    requires forall i :: 0 <= i < |ts| && !ts[i].kind.Hole? && ts[i].addr !in but ==>
             ts[i].End() <= lo || hi <= ts[i].addr
    ensures BlocksSame(m, m', ts, but)
  {
    forall i | 0 <= i < |ts| && !ts[i].kind.Hole? && ts[i].addr !in but
      ensures ts[i].End() <= |m| && Same(m, m', ts[i].addr, ts[i].size)
    {
      UntouchedTile(m, m', ts, lo, hi, i);
    }
  }

  lemma OthersApart(ts: seq<Tile>, i: nat)
    requires Tiling(ts) && i < |ts|
    ensures forall j :: 0 <= j < |ts| && j != i ==> ts[j].End() <= ts[i].addr || ts[i].End() <= ts[j].addr
  {
  }

  lemma BlocksSameTransitive(m: Memory, m': Memory, m'': Memory, ts: seq<Tile>, us: seq<Tile>,
                             but: set<int>, but': set<int>, all: set<int>)
    requires BlocksSame(m, m', ts, but) && BlocksSame(m', m'', us, but')
    requires forall i :: 0 <= i < |ts| && !ts[i].kind.Hole? && ts[i].addr !in but ==> ts[i] in us
    requires but <= all && but' <= all
    ensures BlocksSame(m, m'', ts, all)
  {
    forall i | 0 <= i < |ts| && !ts[i].kind.Hole? && ts[i].addr !in all ensures Same(m, m'', ts[i].addr, ts[i].size) {
      var j :| 0 <= j < |us| && us[j] == ts[i];
    }
  }

  lemma BlocksApart(m: Memory, mapped: set<nat>, ts: seq<Tile>, i: nat, j: nat)
    requires Represents(m, mapped, ts) && i < |ts| && j < |ts| && i != j
    ensures ts[i].End() <= ts[j].addr || ts[j].End() <= ts[i].addr
  {
    OthersApart(ts, i);
  }

  lemma BlocksSameAgain(m: Memory, m': Memory, m'': Memory, ts: seq<Tile>, a: nat, b: nat)
    requires BlocksSame(m, m', ts, {a}) && BlocksSame(m', m'', ts, {b})
    ensures BlocksSame(m, m'', ts, {a, b})
  {
  }

  /** No tile is at b, so excepting it excepts nothing. */
  lemma BlocksSameDrop(m: Memory, m': Memory, ts: seq<Tile>, but: set<int>, b: nat)
    requires BlocksSame(m, m', ts, but)
    requires forall i :: 0 <= i < |ts| && !ts[i].kind.Hole? ==> ts[i].addr != b
    ensures BlocksSame(m, m', ts, but - {b})
  {
  }

  lemma BlocksSameSelf(m: Memory, mapped: set<nat>, ts: seq<Tile>)
    requires Represents(m, mapped, ts)
    ensures BlocksSame(m, m, ts, {})
  {
  }

  /** Two neighbouring holes that become one: the second leaves the list. */
  lemma PairHoles(ts: seq<Tile>, j: nat, us: seq<Tile>)
    requires j + 1 < |ts| && ts[j].kind.Hole? && ts[j + 1].kind.Hole? && HoleAddrs(us) == [ts[j].addr]
    ensures var xs, k := HoleAddrs(ts), |HoleAddrs(ts[..j])|;
            && |HoleAddrs(ts[..j + 1])| == k + 1 < |xs| && xs[k] == ts[j].addr && xs[k + 1] == ts[j + 1].addr
            && HoleAddrs(Replace(ts, j, j + 2, us)) == RemoveAt(xs, k + 1)
  {
    HoleAt(ts, j);
    HoleAt(ts, j + 1);
    HoleAddrsReplace(ts, j, j + 2, us);
    assert ts[j..j + 2] == [ts[j]] + [ts[j + 1]];
    HoleAddrsConcat([ts[j]], [ts[j + 1]]);
    assert HoleAddrs([ts[j]]) == [ts[j].addr] && HoleAddrs([ts[j + 1]]) == [ts[j + 1].addr];
  }

  /** The hole or two that two neighbouring holes become, the second being lost. */
  ghost predicate IsPair(ts: seq<Tile>, j: nat, us: seq<Tile>)
    requires j + 1 < |ts|
  {
    && (|us| == 1 || (|us| == 2 && us[1].kind.Lost? && us[0].End() <= us[1].addr && HEADER <= us[1].size))
    && us[0].addr == ts[j].addr && us[0].kind.Hole? && HEADER <= us[0].size
    && us[|us| - 1].End() <= ts[j + 1].End()
  }

  /** What memory shows once a word was stored at h and the second hole unlinked. */
  lemma PairRep(m: Memory, m': Memory, mapped: set<nat>, ts: seq<Tile>, j: nat, us: seq<Tile>, h: nat, w: nat)
    requires Represents(m, mapped, ts) && j + 1 < |ts| && ts[j].kind.Hole? && ts[j + 1].kind.Hole?
    requires ts[j].End() == ts[j + 1].addr && IsPair(ts, j, us)
    requires h == ts[j].addr || ts[j].addr + 4 <= h
    requires ts[j].addr <= h && h + 4 <= ts[j + 1].End() && w < WORD_LIMIT && Whole(m)
    requires us[0].size == if h == ts[j].addr then w else ts[j].size
    requires IsList(m', mapped, HoleAddrs(Replace(ts, j, j + 2, us)))
    requires h + 4 <= |m| && OnlyLinks(Store32(m, h, w), m', HoleAddrs(Replace(ts, j, j + 2, us)))
    ensures Represents(m', mapped, Replace(ts, j, j + 2, us))
    ensures Untouched(m, m', HoleAddrs(ts), ts[j].addr, ts[j + 1].End())
    ensures Load32(m', 0) == Load32(m, 0)
  {
    hide IsList, Untouched, OnlyLinks, Load32, HoleAddrs, Represents, Replace;
    var lo, hi, m1 := ts[j].addr, ts[j + 1].End(), Store32(m, h, w);
    PairBounds(m, mapped, ts, j, us);
    PairHoleAddrs(ts, j, us);
    PairHoles(ts, j, us);
    StoreWithin(m, HoleAddrs(ts), h, w, lo, hi);
    LinksUntouched(m1, m', HoleAddrs(Replace(ts, j, j + 2, us)), HoleAddrs(ts), lo, hi);
    UntouchedTransitive(m, m1, m', HoleAddrs(ts), lo, hi);
    PairSize(m, m', mapped, ts, j, us, h, w);
    ReplaceRep(m, m', mapped, ts, j, j + 2, us);
    NullKept(m, m', ts, lo, hi);
  }

  lemma PairHoleAddrs(ts: seq<Tile>, j: nat, us: seq<Tile>)
    requires j + 1 < |ts| && IsPair(ts, j, us)
    ensures HoleAddrs(us) == [ts[j].addr]
  {
    HoleAddrsConcat([us[0]], us[1..]);
    assert us == [us[0]] + us[1..];
    NoHoles(us[1..]);
    assert HoleAddrs([us[0]]) == [us[0].addr];
  }

  lemma PairBounds(m: Memory, mapped: set<nat>, ts: seq<Tile>, j: nat, us: seq<Tile>)
    requires Represents(m, mapped, ts) && j + 1 < |ts| && IsPair(ts, j, us) && ts[j].End() == ts[j + 1].addr
    ensures Tiling(ts) && Whole(m) && Tiling(us) && InMemory(mapped, us)
    ensures HEAP_START <= ts[j].addr && ts[j].addr + HEADER <= ts[j].End() && ts[j + 1].End() <= WORD_LIMIT
    ensures ts[j].kind.Hole? ==> Load32(m, ts[j].addr) == ts[j].size
  {
    assert IsMapped(mapped, ts[j].addr, ts[j].size) && IsMapped(mapped, ts[j + 1].addr, ts[j + 1].size);
  }

  lemma StoreWithin(m: Memory, xs: seq<nat>, h: nat, w: nat, lo: nat, hi: nat)
    requires lo <= h && h + 4 <= hi && h + 4 <= |m| && w < WORD_LIMIT
    ensures Untouched(m, Store32(m, h, w), xs, lo, hi)
  {
  }

  lemma PairSize(m: Memory, m': Memory, mapped: set<nat>, ts: seq<Tile>, j: nat, us: seq<Tile>, h: nat, w: nat)
    requires j + 1 < |ts| && ts[j].kind.Hole? && ts[j + 1].kind.Hole? && IsPair(ts, j, us)
    requires h == ts[j].addr || ts[j].addr + 4 <= h
    requires Whole(m) && h + 4 <= |m| && w < WORD_LIMIT
    requires us[0].size == if h == ts[j].addr then w else ts[j].size
    requires OnlyLinks(Store32(m, h, w), m', HoleAddrs(Replace(ts, j, j + 2, us)))
    requires IsList(m', mapped, HoleAddrs(Replace(ts, j, j + 2, us)))
    requires ts[j].addr + 4 <= |m| && Load32(m, ts[j].addr) == ts[j].size
    ensures Sizes(m', us)
  {
    var ys, k := HoleAddrs(Replace(ts, j, j + 2, us)), |HoleAddrs(ts[..j])|;
    assert k < |ys| && ys[k] == ts[j].addr by {
      PairHoleAddrs(ts, j, us);
      PairHoles(ts, j, us);
    }
    ListSize(m, m', mapped, ys, k, h, w);
  }

  lemma ListSize(m: Memory, m': Memory, mapped: set<nat>, ys: seq<nat>, k: nat, h: nat, w: nat)
    requires Whole(m) && h + 4 <= |m| && w < WORD_LIMIT && OnlyLinks(Store32(m, h, w), m', ys) && IsList(m', mapped, ys)
    requires k < |ys| && (h == ys[k] || ys[k] + 4 <= h)
    ensures Size(m', ys[k]) == if h == ys[k] then w else Size(m, ys[k])
  {
    OnlyLinksSize(Store32(m, h, w), m', ys, k);
  }

  /** The k-th hole is the last one before tile i, when tile i is hole k + 1. */
  lemma PreviousHole(ts: seq<Tile>, i: nat)
    requires Tiling(ts) && i < |ts| && ts[i].kind.Hole?
    ensures var k := |HoleAddrs(ts[..i])|;
            && k < |HoleAddrs(ts)| && HoleAddrs(ts)[k] == ts[i].addr
            && (k == 0 ==> !JoinsPrevious(ts, i))
            && (k > 0 ==>
                 var j := HoleIndex(ts, k - 1);
                 j < i && (ts[j].End() == ts[i].addr <==> JoinsPrevious(ts, i))
                   && (JoinsPrevious(ts, i) ==> j == i - 1))
  {
    hide HoleAddrs;
    var k := |HoleAddrs(ts[..i])|;
    HoleAt(ts, i);
    if i > 0 {
      HoleAt(ts, i - 1);
    }
    if k > 0 {
      HoleBefore(ts, i);
      hide HoleIndex;
      var j := HoleIndex(ts, k - 1);
      if j < i - 1 {
        assert ts[j].End() <= ts[i - 1].addr;
      }
    }
  }

  /** The hole listed before position i lies before tile i, with none between them. */
  lemma HoleBefore(ts: seq<Tile>, i: nat)
    requires i <= |ts| && 0 < |HoleAddrs(ts[..i])| <= |HoleAddrs(ts)|
    ensures var j := HoleIndex(ts, |HoleAddrs(ts[..i])| - 1);
            j < i && ts[j].kind.Hole? && (j < i - 1 ==> !ts[i - 1].kind.Hole?)
  {
    hide HoleAddrs;
    var j := HoleIndex(ts, |HoleAddrs(ts[..i])| - 1);
    HoleAt(ts, j);
    if i <= j {
      HoleCount(ts, i, j);
    } else if j < i - 1 {
      HoleAt(ts, i - 1);
      HoleCount(ts, j + 1, i - 1);
    }
  }

  lemma NextHole(ts: seq<Tile>, i: nat)
    requires Tiling(ts) && i < |ts| && ts[i].kind.Hole?
    ensures var k := |HoleAddrs(ts[..i])|;
            && (ts[i].End() == At(HoleAddrs(ts), k + 1) <==> JoinsNext(ts, i))
            && (JoinsNext(ts, i) ==> k + 1 < |HoleAddrs(ts)| && HoleAddrs(ts)[k + 1] == ts[i + 1].addr)
  {
    var k := |HoleAddrs(ts[..i])|;
    HoleAt(ts, i);
    if i + 1 < |ts| { HoleAt(ts, i + 1); }
    if k + 1 < |HoleAddrs(ts)| {
      var j := HoleIndex(ts, k + 1);
      if j <= i { HoleCount(ts, j, i); }
      if i + 1 < j {
        assert ts[i].End() <= ts[i + 1].addr && ts[i + 1].End() <= ts[j].addr;
      }
    }
  }

  /** What merge reads: both tests say whether the tile next to the header is a hole that touches it. */
  lemma MergeTests(m: Memory, mapped: set<nat>, ts: seq<Tile>, i: nat)
    requires Represents(m, mapped, ts) && i < |ts| && ts[i].kind.Hole?
    requires IsMapped(mapped, 0, HEADER) && Whole(m)
    ensures var xs, k, h := HoleAddrs(ts), |HoleAddrs(ts[..i])|, ts[i].addr;
            && k < |xs| && xs[k] == h && h + HEADER <= |m| && IsMapped(mapped, h, HEADER)
            && Size(m, h) == ts[i].size && Prev(m, h) == At(xs, k - 1) && Next(m, h) == At(xs, k + 1)
            && At(xs, k - 1) + HEADER <= |m| && IsMapped(mapped, At(xs, k - 1), HEADER)
            && (k == 0 <==> HoleAddrs(ts[..i]) == [])
            && (At(xs, k - 1) == 0 <==> k == 0)
            && (At(xs, k - 1) + Size(m, At(xs, k - 1)) == h <==> JoinsPrevious(ts, i) || JoinsNull(ts, i, Load32(m, 0)))
            && (k > 0 ==> !JoinsNull(ts, i, Load32(m, 0))) && (k == 0 ==> !JoinsPrevious(ts, i))
            && (h + ts[i].size == At(xs, k + 1) <==> JoinsNext(ts, i))
  {
    hide HoleAddrs, Tiling, Load32, InMemory;
    var xs, k := HoleAddrs(ts), |HoleAddrs(ts[..i])|;
    PreviousHole(ts, i);
    NextHole(ts, i);
    ListAt(m, mapped, xs, k);
    SizeAt(m, mapped, ts, i);
    if k > 0 {
      SizeAt(m, mapped, ts, HoleIndex(ts, k - 1));
    }
  }

  /** Two touching holes made one in memory: everything the heap must still show. */
  lemma PairDone(m: Memory, m': Memory, mapped: set<nat>, s: HeapRuns.State, j: nat, us: seq<Tile>, h: nat, w: nat)
    requires Represents(m, mapped, s.tiles) && HeapRuns.Sound(s)
    requires j + 1 < |s.tiles| && s.tiles[j].kind.Hole? && s.tiles[j + 1].kind.Hole?
    requires s.tiles[j].End() == s.tiles[j + 1].addr && IsPair(s.tiles, j, us)
    requires h == s.tiles[j].addr || s.tiles[j].addr + 4 <= h
    requires s.tiles[j].addr <= h && h + 4 <= s.tiles[j + 1].End() && w < WORD_LIMIT && Whole(m) && h + 4 <= |m|
    requires us[0].size == if h == s.tiles[j].addr then w else s.tiles[j].size
    requires |HoleAddrs(s.tiles[..j + 1])| < |HoleAddrs(s.tiles)|
    requires var ys := RemoveAt(HoleAddrs(s.tiles), |HoleAddrs(s.tiles[..j + 1])|);
             IsList(m', mapped, ys) && OnlyLinks(Store32(m, h, w), m', ys)
    ensures var ts' := Replace(s.tiles, j, j + 2, us);
            && Represents(m', mapped, ts') && HeapRuns.Sound(s.(tiles := ts'))
            && HoleAddrs(ts') == RemoveAt(HoleAddrs(s.tiles), |HoleAddrs(s.tiles[..j + 1])|)
    ensures BlocksSame(m, m', s.tiles, {}) && Whole(m') && Load32(m', 0) == Load32(m, 0)
  {
    hide IsList, Untouched, OnlyLinks, Load32, HoleAddrs, Represents, Replace, HeapRuns.Sound, BlocksSame;
    var ts := s.tiles;
    PairHoleAddrs(ts, j, us);
    PairHoles(ts, j, us);
    PairRep(m, m', mapped, ts, j, us, h, w);
    WholeList(m', mapped, HoleAddrs(Replace(ts, j, j + 2, us)));
    PairBounds(m, mapped, ts, j, us);
    HeapRuns.ReplaceSound(s, j, j + 2, us);
    OthersApart(ts, j);
    OthersApart(ts, j + 1);
    BlocksKept(m, m', mapped, ts, ts[j].addr, ts[j + 1].End(), {});
  }

  /** A header that merge_previous took out of the list, after storing at a, keeps its size and its next link. */
  lemma HeaderKept(m: Memory, m': Memory, mapped: set<nat>, xs: seq<nat>, k: nat, a: nat, w: nat)
    requires IsList(m, mapped, xs) && k < |xs| && w < WORD_LIMIT && a + 4 <= xs[k]
    requires a + 4 <= |m| && OnlyLinks(Store32(m, a, w), m', RemoveAt(xs, k))
    ensures |m'| == |m| && Size(m', xs[k]) == Size(m, xs[k]) && Next(m', xs[k]) == Next(m, xs[k])
  {
    var ys := RemoveAt(xs, k);
    forall x | xs[k] <= x < xs[k] + HEADER ensures !IsLink(ys, x) {
      RemovedApart(xs, k, x);
    }
  }

  lemma RemovedApart(xs: seq<nat>, k: nat, x: nat)
    requires Headers(xs) && k < |xs| && xs[k] <= x < xs[k] + HEADER
    ensures !IsLink(RemoveAt(xs, k), x)
  {
    var ys := RemoveAt(xs, k);
    forall i | 0 <= i < |ys| ensures !(ys[i] + 4 <= x < ys[i] + HEADER) {
      assert ys[i] == if i < k then xs[i] else xs[i + 1];
    }
  }

  /** Where two neighbouring holes are in the list, and what their headers say. */
  lemma PairStart(m: Memory, mapped: set<nat>, ts: seq<Tile>, j: nat)
    requires Represents(m, mapped, ts) && j + 1 < |ts| && ts[j].kind.Hole? && ts[j + 1].kind.Hole?
    ensures var xs, k := HoleAddrs(ts), |HoleAddrs(ts[..j + 1])|;
            && 0 < k < |xs| && xs[k - 1] == ts[j].addr && xs[k] == ts[j + 1].addr
    ensures Whole(m) && Tiling(ts) && IsList(m, mapped, HoleAddrs(ts)) && ts[j + 1].End() <= WORD_LIMIT
            && 0 < ts[j].addr
    ensures ts[j].addr + HEADER <= ts[j].End() <= ts[j + 1].addr && ts[j + 1].addr + HEADER <= ts[j + 1].End()
    ensures Size(m, ts[j].addr) == ts[j].size && Size(m, ts[j + 1].addr) == ts[j + 1].size
    ensures IsMapped(mapped, ts[j].addr, HEADER) && IsMapped(mapped, ts[j].addr, ts[j].size)
  {
    HoleAt(ts, j);
    HoleAt(ts, j + 1);
    SizeAt(m, mapped, ts, j);
    SizeAt(m, mapped, ts, j + 1);
  }

  /** A place inside hole j overlaps no header of the list. */
  lemma InsideApart(ts: seq<Tile>, j: nat, h: nat)
    requires Tiling(ts) && j < |ts| && ts[j].addr + HEADER <= h <= h + HEADER <= ts[j].End()
    ensures forall l :: 0 <= l < |HoleAddrs(ts)| ==> h <= HoleAddrs(ts)[l] || HoleAddrs(ts)[l] + HEADER <= h
  {
    forall l | 0 <= l < |HoleAddrs(ts)| ensures h <= HoleAddrs(ts)[l] || HoleAddrs(ts)[l] + HEADER <= h {
      HoleInTile(ts, l);
    }
  }

  /** Freeing in two steps: first the join with the previous hole, then what merge_next leaves. */
  lemma ReleaseSteps(ts: seq<Tile>, i: nat, nullWord: nat)
    requires i < |ts| && ts[i].kind.Hole? && !JoinsNull(ts, i, nullWord)
    ensures JoinsPrevious(ts, i) ==>
              var t := Join(ts[i - 1], ts[i]);
              var ts1 := Replace(ts, i - 1, i + 1, [t]);
              && |ts1| == |ts| - 1 && ts1[i - 1] == t
              && (!JoinsNext(ts, i) ==> Release(ts, i, nullWord) == ts1)
              && (JoinsNext(ts, i) ==>
                   && ts1[i] == ts[i + 1]
                   && Release(ts, i, nullWord) == Replace(ts1, i - 1, i + 1, [t, ts[i + 1].(kind := Lost)]))
    ensures !JoinsPrevious(ts, i) && JoinsNext(ts, i) ==>
              Release(ts, i, nullWord) == Replace(ts, i, i + 2, [Join(ts[i], ts[i + 1])])
    ensures !JoinsPrevious(ts, i) && !JoinsNext(ts, i) ==> Release(ts, i, nullWord) == ts
  {
    if JoinsPrevious(ts, i) {
      var ts1 := Replace(ts, i - 1, i + 1, [Join(ts[i - 1], ts[i])]);
      assert ts1[..i - 1] == ts[..i - 1];
      assert JoinsNext(ts, i) ==> ts1[i + 1..] == ts[i + 2..];
    }
  }

  /** The same when the join is with the null pointer. */
  lemma ReleaseNullSteps(ts: seq<Tile>, i: nat, nullWord: nat)
    requires i < |ts| && JoinsNull(ts, i, nullWord)
    ensures var ts1 := ts[i := ts[i].(kind := Lost)];
            && (JoinsNext(ts, i) <==> JoinsNext(ts1, i))
            && Release(ts, i, nullWord) == if JoinsNext(ts, i) then ts1[i + 1 := ts[i + 1].(kind := Lost)] else ts1
  {
    NullNotPrevious(ts, i);
  }

  lemma LostHoles(ts: seq<Tile>, i: nat)
    requires i < |ts| && ts[i].kind.Hole?
    ensures var k := |HoleAddrs(ts[..i])|;
            && k < |HoleAddrs(ts)| && HoleAddrs(ts)[k] == ts[i].addr
            && HoleAddrs(ts[i := ts[i].(kind := Lost)]) == RemoveAt(HoleAddrs(ts), k)
  {
    hide HoleAddrs;
    var us := [ts[i].(kind := Lost)];
    HoleAt(ts, i);
    HoleAddrsReplace(ts, i, i + 1, us);
    assert ts[i..i + 1] == [ts[i]];
    assert Replace(ts, i, i + 1, us) == ts[i := us[0]];
    HoleAddrsOfOne(ts[i]);
    HoleAddrsOfOne(us[0]);
  }

  /** Hole i leaves the list and is lost; a word inside the tiles from i0 on may have changed. */
  lemma LostRep(m: Memory, m': Memory, mapped: set<nat>, s: HeapRuns.State, i0: nat, i: nat)
    requires Represents(m, mapped, s.tiles) && HeapRuns.Sound(s) && i0 <= i < |s.tiles| && s.tiles[i].kind.Hole?
    requires i0 == i || (i0 + 1 == i && s.tiles[i0].kind.Lost?)
    requires |HoleAddrs(s.tiles[..i])| < |HoleAddrs(s.tiles)|
    requires IsList(m', mapped, RemoveAt(HoleAddrs(s.tiles), |HoleAddrs(s.tiles[..i])|))
    requires Untouched(m, m', HoleAddrs(s.tiles), s.tiles[i0].addr, s.tiles[i].End())
    ensures var ts' := s.tiles[i := s.tiles[i].(kind := Lost)];
            && Represents(m', mapped, ts') && HeapRuns.Sound(s.(tiles := ts'))
            && HoleAddrs(ts') == RemoveAt(HoleAddrs(s.tiles), |HoleAddrs(s.tiles[..i])|)
    ensures BlocksSame(m, m', s.tiles, if i0 == i then {} else {s.tiles[i0].addr})
    ensures Whole(m') && Load32(m', 0) == Load32(m, 0)
  {
    hide IsList, Untouched, Load32, HoleAddrs, Represents, HeapRuns.Sound, BlocksSame;
    var ts := s.tiles;
    var us := ts[i0..i] + [ts[i].(kind := Lost)];
    assert Replace(ts, i0, i + 1, us) == ts[i := ts[i].(kind := Lost)];
    LostHoles(ts, i);
    LostBounds(m, mapped, ts, i0, i);
    WholeList(m', mapped, HoleAddrs(ts[i := ts[i].(kind := Lost)]));
    ReplaceRep(m, m', mapped, ts, i0, i + 1, us);
    HeapRuns.ReplaceSound(s, i0, i + 1, us);
    NullKept(m, m', ts, ts[i0].addr, ts[i].End());
    OthersApart(ts, i);
    OthersApart(ts, i0);
    BlocksKept(m, m', mapped, ts, ts[i0].addr, ts[i].End(), if i0 == i then {} else {ts[i0].addr});
  }

  lemma LostBounds(m: Memory, mapped: set<nat>, ts: seq<Tile>, i0: nat, i: nat)
    requires Represents(m, mapped, ts) && i0 <= i < |ts| && (i0 == i || (i0 + 1 == i && ts[i0].kind.Lost?))
    ensures var us := ts[i0..i] + [ts[i].(kind := Lost)];
            && Tiling(ts) && Tiling(us) && InMemory(mapped, us) && (forall m' :: Sizes(m', us))
            && ts[i0].addr <= us[0].addr && us[|us| - 1].End() == ts[i].End() && HEAP_START <= ts[i0].addr && Whole(m)
  {
  }

  /** Storing at the null pointer changes nothing of the heap but the null word. */
  lemma NullStore(m: Memory, mapped: set<nat>, ts: seq<Tile>, w: nat)
    requires Represents(m, mapped, ts) && w < WORD_LIMIT
    ensures |m| == WORD_LIMIT
    ensures Represents(Store32(m, 0, w), mapped, ts) && BlocksSame(m, Store32(m, 0, w), ts, {})
    ensures IsList(Store32(m, 0, w), mapped, HoleAddrs(ts))
  {
    var m' := Store32(m, 0, w);
    assert Untouched(m, m', [], 0, 4) && Untouched(m, m', HoleAddrs(ts), 0, 4);
    assert forall i :: 0 <= i < |ts| ==> 4 <= ts[i].addr;
    RepFrame(m, m', mapped, mapped, ts, 0, 4);
    BlocksKept(m, m', mapped, ts, 0, 4, {});
  }

  lemma RemoveAtKeeps(ts: seq<Tile>, k: nat)
    requires k < |HoleAddrs(ts)|
    ensures forall y :: y in RemoveAt(HoleAddrs(ts), k) ==> y in HoleAddrs(ts)
  {
  }

  /** The first hole's header has nothing before it in the list. */
  lemma FirstHole(m: Memory, mapped: set<nat>, ts: seq<Tile>, i: nat)
    requires Represents(m, mapped, ts) && i < |ts| && ts[i].kind.Hole? && HoleAddrs(ts[..i]) == []
    ensures |HoleAddrs(ts)| > 0 && HoleAddrs(ts)[0] == ts[i].addr && HEAP_START <= ts[i].addr
    ensures ts[i].addr + HEADER <= ts[i].End() && At(HoleAddrs(ts), -1) == 0
  {
    HoleAt(ts, i);
  }

  /** A lost tile's header overlaps no header of the list. */
  lemma LostHeader(m: Memory, mapped: set<nat>, ts: seq<Tile>, i: nat)
    requires Represents(m, mapped, ts) && i < |ts| && !ts[i].kind.Hole?
    ensures ts[i].addr + HEADER <= ts[i].End() <= |m| && IsMapped(mapped, ts[i].addr, HEADER)
    ensures forall k :: 0 <= k < |HoleAddrs(ts)| ==>
            ts[i].addr <= HoleAddrs(ts)[k] || HoleAddrs(ts)[k] + HEADER <= ts[i].addr
  {
    forall k | 0 <= k < |HoleAddrs(ts)|
      ensures ts[i].addr <= HoleAddrs(ts)[k] || HoleAddrs(ts)[k] + HEADER <= ts[i].addr
    {
      HolesApart(ts, i, k);
    }
  }

  /** Losing a hole keeps every tile that is not a hole. */
  lemma NonHolesKept(ts: seq<Tile>, i: nat)
    requires i < |ts| && ts[i].kind.Hole?
    ensures forall j :: 0 <= j < |ts| && !ts[j].kind.Hole? ==> ts[j] in ts[i := ts[i].(kind := Lost)]
  {
    var us := ts[i := ts[i].(kind := Lost)];
    forall j | 0 <= j < |ts| && !ts[j].kind.Hole? ensures ts[j] in us {
      assert us[j] == ts[j];
    }
  }

  lemma HoleAlone(ts: seq<Tile>, i: nat)
    requires Tiling(ts) && i < |ts| && ts[i].kind.Hole?
    ensures forall j :: 0 <= j < |ts| && !ts[j].kind.Hole? ==> ts[j].addr != ts[i].addr
  {
    OthersApart(ts, i);
  }

  /** Before a freed block's header goes into the list. */
  lemma FreeFits(m: Memory, mapped: set<nat>, ts: seq<Tile>, i: nat)
    requires Represents(m, mapped, ts) && i < |ts| && ts[i].kind.Live?
    ensures var xs, k, h := HoleAddrs(ts), |HoleAddrs(ts[..i])|, ts[i].addr;
            && k <= |xs| && h + HEADER <= ts[i].End() <= WORD_LIMIT && Whole(m) && ts[i].size < WORD_LIMIT
            && Load32(m, h) == ts[i].size && IsMapped(mapped, h, HEADER)
            && Fits(xs, h, k) && IsList(Store32(m, h, ts[i].size), mapped, xs)
            && HoleAddrs(Replace(ts, i, i + 1, [ts[i].(kind := Hole)])) == InsertAt(xs, k, h)
  {
    hide IsList, Load32, Store32, Fits, HoleAddrs, Sizes, InMemory;
    SizeAt(m, mapped, ts, i);
    FreeHoles(ts, i);
    HoleFits(ts, i, i + 1, ts[i].addr);
    FitsApart(HoleAddrs(ts), ts[i].addr, |HoleAddrs(ts[..i])|);
    StoreSize(m, mapped, HoleAddrs(ts), ts[i].addr, ts[i].size);
  }

  lemma FreeHoles(ts: seq<Tile>, i: nat)
    requires i < |ts| && ts[i].kind.Live?
    ensures |HoleAddrs(ts[..i])| <= |HoleAddrs(ts)|
    ensures HoleAddrs(Replace(ts, i, i + 1, [ts[i].(kind := Hole)])) ==
            InsertAt(HoleAddrs(ts), |HoleAddrs(ts[..i])|, ts[i].addr)
  {
    hide HoleAddrs;
    var us := [ts[i].(kind := Hole)];
    HoleAddrsReplace(ts, i, i + 1, us);
    assert ts[i..i + 1] == [ts[i]];
    HoleAddrsOfOne(ts[i]);
    HoleAddrsOfOne(us[0]);
  }

  /** A block whose header is in the list is a hole. */
  lemma FreeRep(m: Memory, m': Memory, mapped: set<nat>, s: HeapRuns.State, i: nat)
    requires Represents(m, mapped, s.tiles) && HeapRuns.Sound(s) && i < |s.tiles| && s.tiles[i].kind.Live?
    requires s.tiles[i].addr + 4 <= |m| && s.tiles[i].size < WORD_LIMIT
    requires var ts1 := Replace(s.tiles, i, i + 1, [s.tiles[i].(kind := Hole)]);
             && IsList(m', mapped, HoleAddrs(ts1))
             && OnlyLinks(Store32(m, s.tiles[i].addr, s.tiles[i].size), m', HoleAddrs(ts1))
    ensures var ts1 := Replace(s.tiles, i, i + 1, [s.tiles[i].(kind := Hole)]);
            && Represents(m', mapped, ts1) && HeapRuns.Sound(s.(tiles := ts1))
            && |ts1| == |s.tiles| && ts1[i] == s.tiles[i].(kind := Hole)
    ensures BlocksSame(m, m', s.tiles, {s.tiles[i].addr}) && Whole(m') && Load32(m', 0) == Load32(m, 0)
  {
    hide IsList, Untouched, OnlyLinks, Load32, HoleAddrs, Represents, Sizes, HeapRuns.Sound, BlocksSame;
    var ts, us := s.tiles, [s.tiles[i].(kind := Hole)];
    FreeFits(m, mapped, ts, i);
    FreeBounds(m, mapped, ts, i);
    InsertFrame(m, m', mapped, HoleAddrs(ts), |HoleAddrs(ts[..i])|, ts[i].addr, ts[i].size, ts[i].End());
    WholeList(m', mapped, InsertAt(HoleAddrs(ts), |HoleAddrs(ts[..i])|, ts[i].addr));
    SizesOne(m', us[0]);
    ReplaceRep(m, m', mapped, ts, i, i + 1, us);
    HeapRuns.ReplaceSound(s, i, i + 1, us);
    NullKept(m, m', ts, ts[i].addr, ts[i].End());
    OthersApart(ts, i);
    BlocksKept(m, m', mapped, ts, ts[i].addr, ts[i].End(), {ts[i].addr});
  }

  lemma SizesOne(m: Memory, t: Tile)
    requires t.addr + 4 <= |m| && Load32(m, t.addr) == t.size
    ensures Sizes(m, [t])
  {
  }

  lemma FreeBounds(m: Memory, mapped: set<nat>, ts: seq<Tile>, i: nat)
    requires Represents(m, mapped, ts) && i < |ts|
    ensures Tiling(ts) && Tiling([ts[i].(kind := Hole)]) && InMemory(mapped, [ts[i].(kind := Hole)])
            && HEAP_START <= ts[i].addr
  {
  }

  /** A block counted as a hole already is released to the same tiles, and the others are kept. */
  lemma ReleaseFreed(ts: seq<Tile>, i: nat, nullWord: nat)
    requires Tiling(ts) && i < |ts| && ts[i].kind.Live?
    ensures var ts1 := Replace(ts, i, i + 1, [ts[i].(kind := Hole)]);
            && Release(ts1, i, nullWord) == Release(ts, i, nullWord)
            && NullAfter(ts1, i, nullWord) == NullAfter(ts, i, nullWord)
            && forall j :: 0 <= j < |ts| && !ts[j].kind.Hole? && ts[j].addr != ts[i].addr ==> ts[j] in ts1
  {
    var ts1 := Replace(ts, i, i + 1, [ts[i].(kind := Hole)]);
    assert ts1 == ts[i := ts[i].(kind := Hole)];
    assert forall j :: 0 <= j < |ts| && j != i ==> ts1[j] == ts[j];
    assert ts1[..i] == ts[..i];
    hide Tiling, HoleAddrs;
    assert MergeStart(ts1, i) == MergeStart(ts, i) && MergeEnd(ts1, i) == MergeEnd(ts, i);
    assert Merged(ts1, i, nullWord) == Merged(ts, i, nullWord);
    assert ts1[..MergeStart(ts, i)] == ts[..MergeStart(ts, i)] && ts1[MergeEnd(ts, i)..] == ts[MergeEnd(ts, i)..];
  }

  lemma MergeBounds(m: Memory, mapped: set<nat>, ts: seq<Tile>, i: nat)
    requires Represents(m, mapped, ts) && i < |ts|
    ensures HEADER <= ts[i].size
    ensures JoinsPrevious(ts, i) ==> HEADER <= ts[i - 1].size && IsPair(ts, i - 1, [Join(ts[i - 1], ts[i])])
    ensures JoinsNext(ts, i) ==>
              && HEADER <= ts[i + 1].size && ts[i].size + ts[i + 1].size < WORD_LIMIT
              && IsPair(ts, i, [Join(ts[i], ts[i + 1])])
  {
  }

  /** Joining two holes keeps every tile that is not a hole. */
  lemma PairKeeps(ts: seq<Tile>, j: nat, t: Tile)
    requires j + 1 < |ts| && ts[j].kind.Hole? && ts[j + 1].kind.Hole?
    ensures forall i :: 0 <= i < |ts| && !ts[i].kind.Hole? ==> ts[i] in Replace(ts, j, j + 2, [t])
  {
    HeapRuns.ReplaceKeeps(ts, j, j + 2, [t]);
  }

  /** n bytes from x on, inside tile i, are the same. */
  lemma SliceSame(m: Memory, m': Memory, ts: seq<Tile>, i: nat, but: set<int>, x: nat, n: nat)
    requires BlocksSame(m, m', ts, but) && i < |ts| && !ts[i].kind.Hole? && ts[i].addr !in but
    requires ts[i].addr <= x && x + n <= ts[i].End()
    ensures |m'| == |m| && x + n <= |m| && m'[x..x + n] == m[x..x + n]
  {
    assert Same(m, m', ts[i].addr, ts[i].size);
  }

  lemma IsMappedPart(mapped: set<nat>, a: nat, n: nat, a': nat, n': nat)
    requires IsMapped(mapped, a, n) && a <= a' && a' + n' <= a + n
    ensures IsMapped(mapped, a', n')
  {
  }

  lemma FirstAt(m: Memory, mapped: set<nat>, xs: seq<nat>)
    requires IsList(m, mapped, xs)
    ensures Whole(m) && (Last(xs) == 0 <==> xs == []) && (First(xs) == 0 <==> xs == [])
    ensures xs != [] ==> First(xs) == xs[0] && First(xs) + HEADER <= |m| && IsMapped(mapped, First(xs), HEADER)
  {
  }

  /** The stores of insert_to_holes_list with a null hole. */
  lemma NullInsert(m: Memory, m': Memory, mapped: set<nat>, xs: seq<nat>)
    requires IsList(m, mapped, xs)
    requires xs == [] ==> m' == Store32(Store32(m, 4, 0), 8, 0)
    requires xs != [] ==> xs[0] + HEADER <= |m| && m' == Store32(Store32(Store32(m, 8, 0), 4, xs[0]), xs[0] + 8, 0)
    ensures Whole(m') && Untouched(m, m', xs, 4, HEADER) && (xs == [] ==> IsList(m', mapped, xs))
  {
  }

  /** An extension without a single frame: a header of size 0 at the null pointer. */
  lemma NullExtension(m: Memory, m1: Memory, m2: Memory, mapped: set<nat>, ts: seq<Tile>, a: nat)
    requires Represents(m, mapped, ts) && Untouched(m, m1, [], a, a)
    requires Whole(m2) && Whole(m1) && Untouched(Store32(m1, 0, 0), m2, HoleAddrs(ts), 4, HEADER)
    ensures BlocksSame(m, m2, ts, {}) && Load32(m2, 0) == 0
    ensures HoleAddrs(ts) == [] ==> Represents(m2, mapped, ts)
  {
    assert m1 == m;
    var m' := Store32(m, 0, 0);
    assert Untouched(m, m', HoleAddrs(ts), 0, HEADER);
    UntouchedWiden(m', m2, HoleAddrs(ts), 4, HEADER, 0, HEADER);
    UntouchedTransitive(m, m', m2, HoleAddrs(ts), 0, HEADER);
    BlocksKept(m, m2, mapped, ts, 0, HEADER, {});
    NullWord(m', m2, ts);
    if HoleAddrs(ts) == [] {
      RepFrame(m, m2, mapped, mapped, ts, 0, HEADER);
    }
  }

  lemma NullWord(m: Memory, m': Memory, ts: seq<Tile>)
    requires Whole(m) && Tiling(ts) && Untouched(m, m', HoleAddrs(ts), 4, HEADER)
    ensures Load32(m', 0) == Load32(m, 0)
  {
    forall k | 0 <= k < |HoleAddrs(ts)| ensures HEAP_START <= HoleAddrs(ts)[k] {
      HoleInTile(ts, k);
    }
  }

  lemma HeapShape(m: Memory, mapped: set<nat>, ts: seq<Tile>)
    requires Represents(m, mapped, ts)
    ensures Tiling(ts) && IsList(m, mapped, HoleAddrs(ts)) && Whole(m)
    ensures forall i :: 0 <= i < |ts| ==> HEAP_START <= ts[i].addr && ts[i].addr + SIZE_WORD <= ts[i].End()
  {
  }

  lemma FrameNothing(m: Memory, m': Memory, mapped: set<nat>, mapped': set<nat>, ts: seq<Tile>, a: nat)
    requires Represents(m, mapped, ts) && Untouched(m, m', [], a, a) && mapped <= mapped'
    ensures m' == m && Represents(m', mapped', ts)
  {
    assert m' == m;
    RepFrame(m, m', mapped, mapped', ts, 0, 0);
  }

  lemma HeadNotNull(m: Memory, mapped: set<nat>, ts: seq<Tile>)
    requires Represents(m, mapped, ts)
    ensures First(HoleAddrs(ts)) == 0 <==> HoleAddrs(ts) == []
  {
  }

  /** The first page as one hole. */
  lemma InitialRep(memory: Memory, frame: Memory, mapped: set<nat>)
    requires Whole(memory) && |frame| == PAGE
    requires forall x :: HEAP_START <= x < HEAP_START + PAGE ==> x in mapped
    ensures var m := memory[..HEAP_START] + frame + memory[HEAP_START + PAGE..];
            && Whole(m)
            && var m' := Store32(Store32(Store32(m, HEAP_START, PAGE), HEAP_START + 8, 0), HEAP_START + 4, 0);
            && Whole(m') && IsList(m', mapped, [HEAP_START]) && HeapRuns.Sound(HeapRuns.Initial(Load32(memory, 0)))
            && Represents(m', mapped, HeapRuns.Initial(0).tiles) && HoleAddrs(HeapRuns.Initial(0).tiles) == [HEAP_START]
            && Untouched(memory, m', [], HEAP_START, HEAP_START + PAGE)
            && Load32(m', 0) == Load32(memory, 0)
  {
    hide Load32;
    var m := memory[..HEAP_START] + frame + memory[HEAP_START + PAGE..];
    var m1 := Store32(m, HEAP_START, PAGE);
    var m2 := Store32(m1, HEAP_START + 8, 0);
    var m' := Store32(m2, HEAP_START + 4, 0);
    var t := Tile(HEAP_START, PAGE, Hole);
    assert HoleAddrs([t]) == [HEAP_START];
    assert Next(m', HEAP_START) == 0 && Prev(m', HEAP_START) == 0;
    assert Untouched(memory, m', [], HEAP_START, HEAP_START + PAGE);
    NullKept(memory, m', [], HEAP_START, HEAP_START + PAGE);
  }
}
