/**
 What the heap means: an address-ordered sequence of tiles. Every byte the heap ever mapped for
 itself lies in exactly one tile, which is a hole, a live block, or lost to a merge.
 */
module HeapTiles {
  import opened HeapLayout

  datatype Kind = Hole | Live | Lost

  /** size counts the whole tile, including the header of a hole or the size word of a block. */
  datatype Tile = Tile(addr: nat, size: nat, kind: Kind) {
    function End(): nat { addr + size }

    /** Can this tile serve a request? */
    predicate Serves(required: nat) { kind.Hole? && required <= size }
  }

  ghost predicate Tiling(ts: seq<Tile>) {
    && (forall i :: 0 <= i < |ts| ==> HEAP_START <= ts[i].addr && HEADER <= ts[i].size)
    && (forall i, j :: 0 <= i < j < |ts| ==> ts[i].End() <= ts[j].addr)
  }

  function HoleAddrs(ts: seq<Tile>): seq<nat> {
    if ts == [] then [] else (if ts[0].kind.Hole? then [ts[0].addr] else []) + HoleAddrs(ts[1..])
  }

  function Bytes(ts: seq<Tile>, kind: Kind): nat {
    if ts == [] then 0 else BytesIf(ts[0], kind) + Bytes(ts[1..], kind)
  }

  /** The index of the k-th hole. */
  function HoleIndex(ts: seq<Tile>, k: nat): (i: nat)
    requires k < |HoleAddrs(ts)|
    ensures i < |ts| && ts[i].kind.Hole? && ts[i].addr == HoleAddrs(ts)[k]
    ensures |HoleAddrs(ts[..i])| == k
  {
    if ts[0].kind.Hole? then
      if k == 0 then 0
      else
        var i := 1 + HoleIndex(ts[1..], k - 1);
        assert ts[..i][1..] == ts[1..][..i - 1];
        i
    else
      var i := 1 + HoleIndex(ts[1..], k);
      assert ts[..i][1..] == ts[1..][..i - 1];
      i
  }

  lemma HoleAddrsFirst(ts: seq<Tile>)
    requires ts != []
    ensures HoleAddrs(ts) == (if ts[0].kind.Hole? then [ts[0].addr] else []) + HoleAddrs(ts[1..])
  {
  }

  lemma HoleAddrsOfOne(t: Tile)
    ensures HoleAddrs([t]) == if t.kind.Hole? then [t.addr] else []
    ensures HoleAddrs([]) == []
  {
  }

  lemma {:induction false} HoleAddrsConcat(a: seq<Tile>, b: seq<Tile>)
    ensures HoleAddrs(a + b) == HoleAddrs(a) + HoleAddrs(b)
  {
    if a == [] {
      assert a + b == b;
    } else {
      assert (a + b)[1..] == a[1..] + b;
      HoleAddrsConcat(a[1..], b);
      HoleAddrsFirst(a);
      HoleAddrsFirst(a + b);
      hide HoleAddrs;
      var first := if a[0].kind.Hole? then [a[0].addr] else [];
      assert first + (HoleAddrs(a[1..]) + HoleAddrs(b)) == first + HoleAddrs(a[1..]) + HoleAddrs(b);
    }
  }

  lemma {:induction false} BytesConcat(a: seq<Tile>, b: seq<Tile>, kind: Kind)
    ensures Bytes(a + b, kind) == Bytes(a, kind) + Bytes(b, kind)
  {
    if a == [] {
      assert a + b == b;
    } else {
      assert (a + b)[1..] == a[1..] + b;
      BytesConcat(a[1..], b, kind);
    }
  }

  function BytesIf(t: Tile, kind: Kind): nat {
    if t.kind == kind then t.size else 0
  }

  lemma BytesFew(t: Tile, u: Tile, v: Tile, kind: Kind)
    ensures Bytes([t], kind) == BytesIf(t, kind)
    ensures Bytes([t, u], kind) == BytesIf(t, kind) + BytesIf(u, kind)
    ensures Bytes([t, u, v], kind) == BytesIf(t, kind) + BytesIf(u, kind) + BytesIf(v, kind)
  {
    assert [t, u, v] == [t] + [u, v] && [t, u] == [t] + [u] && [u, v] == [u] + [v];
    BytesConcat([t], [u, v], kind);
    BytesConcat([t], [u], kind);
    BytesConcat([u], [v], kind);
  }

  /** The first tile, in address order, that can serve the request; |ts| if there is none. */
  function FirstFit(ts: seq<Tile>, required: nat): (i: nat)
    ensures i <= |ts|
    ensures i < |ts| ==> ts[i].Serves(required)
    ensures forall j :: 0 <= j < i ==> !ts[j].Serves(required)
  {
    if ts == [] || ts[0].Serves(required) then 0 else 1 + FirstFit(ts[1..], required)
  }

  /** A hole cut for a request: the rest stays a hole when it is longer than a header. */
  function Carve(t: Tile, required: nat): seq<Tile>
    requires required <= t.size
  {
    if t.size - required > HEADER then
      var offset := if required > HEADER then required else HEADER;
      [Tile(t.addr, offset, Live), Tile(t.addr + offset, t.size - offset, Hole)]
    else
      [t.(kind := Live)]
  }

  function Replace(ts: seq<Tile>, i: nat, j: nat, us: seq<Tile>): seq<Tile>
    requires i <= j <= |ts|
  {
    ts[..i] + us + ts[j..]
  }

  function Take(ts: seq<Tile>, i: nat, required: nat): seq<Tile>
    requires i < |ts| && required <= ts[i].size
  {
    Replace(ts, i, i + 1, Carve(ts[i], required))
  }

  predicate JoinsPrevious(ts: seq<Tile>, i: nat) requires i < |ts| {
    0 < i && ts[i - 1].kind.Hole? && ts[i - 1].End() == ts[i].addr
  }

  predicate JoinsNext(ts: seq<Tile>, i: nat) requires i < |ts| {
    i + 1 < |ts| && ts[i + 1].kind.Hole? && ts[i].End() == ts[i + 1].addr
  }

  /** Two neighbouring tiles made one hole. */
  function Join(t: Tile, u: Tile): Tile {
    Tile(t.addr, t.size + u.size, Hole)
  }

  /** The tiles that freeing tile i can change are those from MergeStart up to MergeEnd. */
  function MergeStart(ts: seq<Tile>, i: nat): nat requires i < |ts| {
    if JoinsPrevious(ts, i) then i - 1 else i
  }

  function MergeEnd(ts: seq<Tile>, i: nat): nat requires i < |ts| {
    if JoinsNext(ts, i) then i + 2 else i + 1
  }

  /** With no hole before tile i, merge reads the word at the null pointer as the size of a previous hole,
      and joins the tile to it if that word is the tile's address. */
  predicate JoinsNull(ts: seq<Tile>, i: nat, nullWord: nat) requires i < |ts| {
    HoleAddrs(ts[..i]) == [] && nullWord == ts[i].addr
  }

  lemma NullNotPrevious(ts: seq<Tile>, i: nat)
    requires i < |ts| && HoleAddrs(ts[..i]) == []
    ensures !JoinsPrevious(ts, i)
  {
    if i > 0 {
      assert ts[..i] == ts[..i - 1] + [ts[i - 1]];
      HoleAddrsConcat(ts[..i - 1], [ts[i - 1]]);
    }
  }

  /** What becomes of them: with both neighbours touching tile i, the next hole is lost; joined to the null
      pointer, tile i is lost, and a hole that touches its end with it. */
  function Merged(ts: seq<Tile>, i: nat, nullWord: nat): seq<Tile> requires i < |ts| {
    if JoinsNull(ts, i, nullWord) then
      [ts[i].(kind := Lost)] + if JoinsNext(ts, i) then [ts[i + 1].(kind := Lost)] else []
    else if JoinsPrevious(ts, i) then
      [Join(ts[i - 1], ts[i])] + if JoinsNext(ts, i) then [ts[i + 1].(kind := Lost)] else []
    else if JoinsNext(ts, i) then [Join(ts[i], ts[i + 1])]
    else [ts[i].(kind := Hole)]
  }

  /** Tile i freed and merged, with this word at the null pointer. */
  function Release(ts: seq<Tile>, i: nat, nullWord: nat): seq<Tile> requires i < |ts| {
    Replace(ts, MergeStart(ts, i), MergeEnd(ts, i), Merged(ts, i, nullWord))
  }

  /** The word at the null pointer afterwards: the joined tile's size is added to it. */
  function NullAfter(ts: seq<Tile>, i: nat, nullWord: nat): nat requires i < |ts| {
    if JoinsNull(ts, i, nullWord) then nullWord + ts[i].size else nullWord
  }
}
