/**
 The address-ordered doubly linked list of holes, as it lies in memory. A hole starts with a
 12-byte header: its size, the address of the next hole and the address of the previous one.
 Address 0 is the null pointer.
 */
module HoleList {
  import opened Words
  import opened HeapLayout
  import opened Memory

  /** The i-th address of the list, or null beyond its ends. */
  function At(xs: seq<nat>, i: int): nat {
    if 0 <= i < |xs| then xs[i] else 0
  }

  function Size(m: Memory, h: nat): nat requires h + HEADER <= |m| { Load32(m, h) }

  function Next(m: Memory, h: nat): nat requires h + HEADER <= |m| { Load32(m, h + 4) }

  function Prev(m: Memory, h: nat): nat requires h + HEADER <= |m| { Load32(m, h + 8) }

  /** Headers lie in memory, do not overlap, and lie in strictly increasing order. */
  ghost predicate Headers(xs: seq<nat>) {
    && (forall i :: 0 <= i < |xs| ==> 0 < xs[i] && xs[i] + HEADER <= WORD_LIMIT)
    && (forall i, j :: 0 <= i < j < |xs| ==> xs[i] + HEADER <= xs[j])
  }

  /** The links of the headers at the addresses xs, in both directions. */
  ghost predicate Linked(m: Memory, xs: seq<nat>)
    requires Whole(m) && Headers(xs)
  {
    forall i {:trigger Next(m, xs[i])} {:trigger Prev(m, xs[i])} :: 0 <= i < |xs| ==>
      Next(m, xs[i]) == At(xs, i + 1) && Prev(m, xs[i]) == At(xs, i - 1)
  }

  ghost predicate IsMapped(mapped: set<nat>, a: nat, n: nat) {
    forall x {:trigger x in mapped} :: a <= x < a + n ==> x in mapped
  }

  ghost predicate AllMapped(mapped: set<nat>, xs: seq<nat>) {
    forall i :: 0 <= i < |xs| ==> IsMapped(mapped, xs[i], HEADER)
  }

  /** A well-formed list through the addresses xs. */
  ghost predicate IsList(m: Memory, mapped: set<nat>, xs: seq<nat>) {
    && Whole(m)
    && Headers(xs)
    && Linked(m, xs)
    && AllMapped(mapped, xs)
  }

  function First(xs: seq<nat>): nat { At(xs, 0) }

  function Last(xs: seq<nat>): nat { At(xs, |xs| - 1) }

  /** What the list says about its k-th header and its neighbours. */
  lemma ListAt(m: Memory, mapped: set<nat>, xs: seq<nat>, k: nat)
    requires IsList(m, mapped, xs) && k < |xs|
    ensures Whole(m) && 0 < xs[k] && xs[k] + HEADER <= |m| && IsMapped(mapped, xs[k], HEADER)
    ensures Next(m, xs[k]) == At(xs, k + 1) && Prev(m, xs[k]) == At(xs, k - 1)
    ensures k > 0 ==> 0 < xs[k - 1] && xs[k - 1] + HEADER <= xs[k] && IsMapped(mapped, xs[k - 1], HEADER)
    ensures k + 1 < |xs| ==>
            xs[k] + HEADER <= xs[k + 1] && xs[k + 1] + HEADER <= |m| && IsMapped(mapped, xs[k + 1], HEADER)
    ensures (First(xs) == xs[k] <==> k == 0) && (Last(xs) == xs[k] <==> k == |xs| - 1)
  {
  }

  /** x is one of the eight link bytes of a header in xs. */
  ghost predicate IsLink(xs: seq<nat>, x: nat) {
    exists i :: 0 <= i < |xs| && xs[i] + 4 <= x < xs[i] + HEADER
  }

  /** m' is m with at most link bytes of headers in xs changed. */
  ghost predicate OnlyLinks(m: Memory, m': Memory, xs: seq<nat>) {
    && |m'| == |m|
    && forall x {:trigger m'[x]} :: 0 <= x < |m| && !IsLink(xs, x) ==> m'[x] == m[x]
  }

  /** h can be the k-th element of the list xs. */
  ghost predicate Fits(xs: seq<nat>, h: nat, k: nat) {
    && k <= |xs|
    && 0 < h && h + HEADER <= WORD_LIMIT
    && (forall i :: 0 <= i < k ==> xs[i] + HEADER <= h)
    && (forall i :: k <= i < |xs| ==> h + HEADER <= xs[i])
  }

  ghost function InsertAt(xs: seq<nat>, k: nat, h: nat): seq<nat>
    requires k <= |xs|
  {
    xs[..k] + [h] + xs[k..]
  }

  ghost function RemoveAt(xs: seq<nat>, k: nat): seq<nat>
    requires k < |xs|
  {
    xs[..k] + xs[k + 1..]
  }

  /** The headers at g and h are the same one or do not overlap. */
  predicate Apart(g: nat, h: nat) {
    g == h || g + HEADER <= h || h + HEADER <= g || h == 0
  }

  /** Stores a next link; there is nothing to store in the null header. */
  function SetNext(m: Memory, h: nat, next: nat): (m': Memory)
    requires h == 0 || h + HEADER <= |m|
    requires next < WORD_LIMIT
    ensures |m'| == |m|
    ensures forall x {:trigger m'[x]} :: 0 <= x < |m| && !(0 < h && h + 4 <= x < h + 8) ==> m'[x] == m[x]
    ensures forall g: nat {:trigger Next(m', g)} :: g + HEADER <= |m| && Apart(g, h) ==>
              Next(m', g) == if g == h && 0 < h then next else Next(m, g)
    ensures forall g: nat {:trigger Prev(m', g)} :: g + HEADER <= |m| && Apart(g, h) ==> Prev(m', g) == Prev(m, g)
  {
    if h == 0 then m else Store32(m, h + 4, next)
  }

  /** Stores a previous link; there is nothing to store in the null header. */
  function SetPrev(m: Memory, h: nat, prev: nat): (m': Memory)
    requires h == 0 || h + HEADER <= |m|
    requires prev < WORD_LIMIT
    ensures |m'| == |m|
    ensures forall x {:trigger m'[x]} :: 0 <= x < |m| && !(0 < h && h + 8 <= x < h + 12) ==> m'[x] == m[x]
    ensures forall g: nat {:trigger Prev(m', g)} :: g + HEADER <= |m| && Apart(g, h) ==>
              Prev(m', g) == if g == h && 0 < h then prev else Prev(m, g)
    ensures forall g: nat {:trigger Next(m', g)} :: g + HEADER <= |m| && Apart(g, h) ==> Next(m', g) == Next(m, g)
  {
    if h == 0 then m else Store32(m, h + 8, prev)
  }

  lemma NullHeader(m: Memory)
    ensures forall v: nat :: v < WORD_LIMIT ==> SetNext(m, 0, v) == m && SetPrev(m, 0, v) == m
  {
  }

  /** The two stores that make the neighbours p and n of an element point at each other. */
  function Bypass(m: Memory, p: nat, n: nat): (m': Memory)
    requires (p == 0 || p + HEADER <= |m|) && (n == 0 || n + HEADER <= |m|) && Whole(m)
    ensures |m'| == |m|
  {
    SetPrev(SetNext(m, p, n), n, p)
  }

  lemma UnlinkOne(m: Memory, xs: seq<nat>, k: nat, j: nat)
    requires Whole(m) && Headers(xs) && Linked(m, xs) && k < |xs|
    requires j < |xs| && j != k
    ensures var m' := Bypass(m, At(xs, k - 1), At(xs, k + 1));
            && Next(m', xs[j]) == (if j == k - 1 then At(xs, k + 1) else At(xs, j + 1))
            && Prev(m', xs[j]) == (if j == k + 1 then At(xs, k - 1) else At(xs, j - 1))
  {
    assert Apart(xs[j], At(xs, k - 1));
    assert Apart(xs[j], At(xs, k + 1));
    assert Next(m, xs[j]) == At(xs, j + 1) && Prev(m, xs[j]) == At(xs, j - 1);
  }

  lemma RemoveAtHeaders(xs: seq<nat>, k: nat)
    requires Headers(xs) && k < |xs|
    ensures Headers(RemoveAt(xs, k))
    ensures k > 0 ==> At(xs, k - 1) in RemoveAt(xs, k)
    ensures k + 1 < |xs| ==> At(xs, k + 1) in RemoveAt(xs, k)
  {
    var ys := RemoveAt(xs, k);
    assert k > 0 ==> ys[k - 1] == xs[k - 1];
    assert k + 1 < |xs| ==> ys[k] == xs[k + 1];
  }

  /** The elements around position i once element k is gone; j is where it was before. */
  lemma RemoveAtIndex(xs: seq<nat>, k: nat, i: nat, j: nat)
    requires k < |xs| && i < |xs| - 1 && j == if i < k then i else i + 1
    ensures var ys := RemoveAt(xs, k);
            && ys[i] == xs[j]
            && At(ys, i + 1) == (if j == k - 1 then At(xs, k + 1) else At(xs, j + 1))
            && At(ys, i - 1) == (if j == k + 1 then At(xs, k - 1) else At(xs, j - 1))
  {
  }

  /** The elements around position i once h is put at position k; j is where it was before. */
  lemma InsertAtIndex(xs: seq<nat>, k: nat, h: nat, i: nat, j: nat)
    requires k <= |xs| && i <= |xs| && i != k && j == if i < k then i else i - 1
    ensures var ys := InsertAt(xs, k, h);
            && ys[i] == xs[j]
            && At(ys, i + 1) == (if j == k - 1 then h else At(xs, j + 1))
            && At(ys, i - 1) == (if j == k then h else At(xs, j - 1))
  {
  }

  lemma InsertAtKeeps(xs: seq<nat>, k: nat, h: nat)
    requires k < |xs|
    ensures |InsertAt(xs, k + 1, h)| == |xs| + 1 && InsertAt(xs, k + 1, h)[k] == xs[k]
  {
  }

  lemma InsertAtSelf(xs: seq<nat>, k: nat, h: nat)
    requires k <= |xs|
    ensures var ys := InsertAt(xs, k, h);
            ys[k] == h && At(ys, k + 1) == At(xs, k) && At(ys, k - 1) == At(xs, k - 1)
  {
  }

  lemma SetOnlyLinks(m: Memory, xs: seq<nat>, h: nat, v: nat)
    requires h == 0 || (h in xs && h + HEADER <= |m|)
    requires v < WORD_LIMIT
    ensures OnlyLinks(m, SetNext(m, h, v), xs) && OnlyLinks(m, SetPrev(m, h, v), xs)
  {
  }

  lemma OnlyLinksTransitive(m: Memory, m': Memory, m'': Memory, xs: seq<nat>)
    requires OnlyLinks(m, m', xs) && OnlyLinks(m', m'', xs)
    ensures OnlyLinks(m, m'', xs)
  {
  }

  lemma UnlinkAll(m: Memory, xs: seq<nat>, k: nat)
    requires Whole(m) && Headers(xs) && Linked(m, xs) && k < |xs|
    ensures var m' := Bypass(m, At(xs, k - 1), At(xs, k + 1));
            var ys := RemoveAt(xs, k);
            Headers(ys) && Linked(m', ys) && OnlyLinks(m, m', ys)
  {
    var p, n, ys := At(xs, k - 1), At(xs, k + 1), RemoveAt(xs, k);
    RemoveAtHeaders(xs, k);
    SetOnlyLinks(m, ys, p, n);
    SetOnlyLinks(SetNext(m, p, n), ys, n, p);
    OnlyLinksTransitive(m, SetNext(m, p, n), Bypass(m, p, n), ys);
    forall i | 0 <= i < |ys|
      ensures Next(Bypass(m, p, n), ys[i]) == At(ys, i + 1) && Prev(Bypass(m, p, n), ys[i]) == At(ys, i - 1)
    {
      var j := if i < k then i else i + 1;
      RemoveAtIndex(xs, k, i, j);
      UnlinkOne(m, xs, k, j);
    }
  }

  lemma RemoveAtEnds(mapped: set<nat>, xs: seq<nat>, k: nat)
    requires k < |xs| && AllMapped(mapped, xs)
    ensures var ys := RemoveAt(xs, k);
            && AllMapped(mapped, ys)
            && First(ys) == (if k == 0 then At(xs, 1) else First(xs))
            && Last(ys) == (if k == |xs| - 1 then At(xs, k - 1) else Last(xs))
  {
  }

  /** Making the neighbours of an element point at each other takes it out of the list. */
  lemma Unlink(m: Memory, mapped: set<nat>, xs: seq<nat>, k: nat)
    requires IsList(m, mapped, xs) && k < |xs|
    ensures var m' := Bypass(m, At(xs, k - 1), At(xs, k + 1));
            var ys := RemoveAt(xs, k);
            && IsList(m', mapped, ys) && OnlyLinks(m, m', ys)
            && First(ys) == (if k == 0 then At(xs, 1) else First(xs))
            && Last(ys) == (if k == |xs| - 1 then At(xs, k - 1) else Last(xs))
  {
    hide Headers, Linked, OnlyLinks, AllMapped, Bypass;
    UnlinkAll(m, xs, k);
    RemoveAtEnds(mapped, xs, k);
  }

  /** The two link words are independent, so their stores commute. */
  lemma Commute(m: Memory, h: nat, next: nat, g: nat, prev: nat)
    requires (h == 0 || h + HEADER <= |m|) && (g == 0 || g + HEADER <= |m|) && next < WORD_LIMIT && prev < WORD_LIMIT
    requires Apart(g, h)
    ensures SetPrev(SetNext(m, h, next), g, prev) == SetNext(SetPrev(m, g, prev), h, next)
  {
  }

  /** The four stores that put h between its neighbours. */
  function Splice(m: Memory, p: nat, h: nat, n: nat): (m': Memory)
    requires (p == 0 || p + HEADER <= |m|) && (n == 0 || n + HEADER <= |m|) && 0 < h && h + HEADER <= |m|
    requires Whole(m)
    ensures |m'| == |m|
  {
    SetNext(SetPrev(SetPrev(SetNext(m, p, h), h, p), n, h), h, n)
  }

  lemma SpliceSelf(m: Memory, p: nat, h: nat, n: nat)
    requires (p == 0 || p + HEADER <= h) && (n == 0 || h + HEADER <= n)
    requires (n == 0 || n + HEADER <= |m|) && 0 < h && h + HEADER <= |m| && Whole(m)
    ensures Next(Splice(m, p, h, n), h) == n && Prev(Splice(m, p, h, n), h) == p
  {
  }

  lemma LinkOne(m: Memory, xs: seq<nat>, k: nat, h: nat, j: nat)
    requires Whole(m) && Headers(xs) && Linked(m, xs) && Fits(xs, h, k)
    requires j < |xs|
    ensures var m' := Splice(m, At(xs, k - 1), h, At(xs, k));
            && Next(m', xs[j]) == (if j == k - 1 then h else At(xs, j + 1))
            && Prev(m', xs[j]) == (if j == k then h else At(xs, j - 1))
  {
    assert Apart(xs[j], At(xs, k - 1));
    assert Apart(xs[j], At(xs, k));
    assert Apart(xs[j], h);
    assert Next(m, xs[j]) == At(xs, j + 1) && Prev(m, xs[j]) == At(xs, j - 1);
  }

  lemma InsertAtHeaders(xs: seq<nat>, k: nat, h: nat)
    requires Headers(xs) && Fits(xs, h, k)
    ensures Headers(InsertAt(xs, k, h)) && h in InsertAt(xs, k, h)
    ensures k > 0 ==> At(xs, k - 1) in InsertAt(xs, k, h)
    ensures k < |xs| ==> At(xs, k) in InsertAt(xs, k, h)
  {
    var ys := InsertAt(xs, k, h);
    assert ys[k] == h;
    assert k > 0 ==> ys[k - 1] == xs[k - 1];
    assert k < |xs| ==> ys[k + 1] == xs[k];
  }

  lemma SpliceOnlyLinks(m: Memory, ys: seq<nat>, p: nat, h: nat, n: nat)
    requires Whole(m) && h in ys && (p == 0 || p in ys) && (n == 0 || n in ys)
    requires (p == 0 || p + HEADER <= |m|) && (n == 0 || n + HEADER <= |m|) && 0 < h && h + HEADER <= |m|
    ensures OnlyLinks(m, Splice(m, p, h, n), ys)
  {
    var m1 := SetNext(m, p, h);
    var m2 := SetPrev(m1, h, p);
    var m3 := SetPrev(m2, n, h);
    SetOnlyLinks(m, ys, p, h);
    SetOnlyLinks(m1, ys, h, p);
    SetOnlyLinks(m2, ys, n, h);
    SetOnlyLinks(m3, ys, h, n);
    OnlyLinksTransitive(m, m1, m2, ys);
    OnlyLinksTransitive(m, m2, m3, ys);
    OnlyLinksTransitive(m, m3, SetNext(m3, h, n), ys);
  }

  lemma LinkAll(m: Memory, xs: seq<nat>, k: nat, h: nat)
    requires Whole(m) && Headers(xs) && Linked(m, xs) && Fits(xs, h, k)
    ensures var m' := Splice(m, At(xs, k - 1), h, At(xs, k));
            var ys := InsertAt(xs, k, h);
            Headers(ys) && Linked(m', ys) && OnlyLinks(m, m', ys)
  {
    var p, n, ys := At(xs, k - 1), At(xs, k), InsertAt(xs, k, h);
    InsertAtHeaders(xs, k, h);
    SpliceOnlyLinks(m, ys, p, h, n);
    forall i | 0 <= i < |ys|
      ensures Next(Splice(m, p, h, n), ys[i]) == At(ys, i + 1) && Prev(Splice(m, p, h, n), ys[i]) == At(ys, i - 1)
    {
      if i == k {
        InsertAtSelf(xs, k, h);
        SpliceSelf(m, p, h, n);
      } else {
        var j := if i < k then i else i - 1;
        InsertAtIndex(xs, k, h, i, j);
        LinkOne(m, xs, k, h, j);
      }
    }
  }

  lemma InsertAtEnds(mapped: set<nat>, xs: seq<nat>, k: nat, h: nat)
    requires k <= |xs| && AllMapped(mapped, xs) && IsMapped(mapped, h, HEADER)
    ensures var ys := InsertAt(xs, k, h);
            && AllMapped(mapped, ys)
            && First(ys) == (if k == 0 then h else First(xs))
            && Last(ys) == (if k == |xs| then h else Last(xs))
  {
  }

  /** Pointing the neighbours at h and h at them puts h into the list. */
  lemma Link(m: Memory, mapped: set<nat>, xs: seq<nat>, k: nat, h: nat)
    requires IsList(m, mapped, xs) && Fits(xs, h, k) && IsMapped(mapped, h, HEADER)
    ensures var m' := Splice(m, At(xs, k - 1), h, At(xs, k));
            var ys := InsertAt(xs, k, h);
            && IsList(m', mapped, ys) && OnlyLinks(m, m', ys)
            && First(ys) == (if k == 0 then h else First(xs))
            && Last(ys) == (if k == |xs| then h else Last(xs))
  {
    hide Headers, Linked, OnlyLinks, AllMapped, Splice;
    LinkAll(m, xs, k, h);
    InsertAtEnds(mapped, xs, k, h);
  }

  /** A hole that fits at k lies after the first k elements and before the others. */
  lemma FitsAt(m: Memory, mapped: set<nat>, xs: seq<nat>, h: nat, k: nat, i: nat)
    requires IsList(m, mapped, xs) && Fits(xs, h, k) && i <= k
    ensures Whole(m) && 0 < h && h + HEADER <= |m| && k <= |xs|
    ensures i < |xs| ==> (h < xs[i] <==> i == k)
    ensures At(xs, i) == 0 <==> i == |xs|
    ensures Last(xs) == 0 <==> xs == []
    ensures First(xs) == At(xs, k) && xs != [] <==> k == 0 && xs != []
    ensures 0 < k ==> 0 < xs[k - 1] && xs[k - 1] + HEADER <= h && IsMapped(mapped, xs[k - 1], HEADER)
    ensures k < |xs| ==> h + HEADER <= xs[k] && xs[k] + HEADER <= |m| && IsMapped(mapped, xs[k], HEADER)
  {
  }

  lemma FitsApart(xs: seq<nat>, h: nat, k: nat)
    requires Fits(xs, h, k)
    ensures forall i :: 0 <= i < |xs| ==> h <= xs[i] || xs[i] + HEADER <= h
  {
  }

  /** Storing a size outside every link leaves the list alone. */
  lemma StoreSize(m: Memory, mapped: set<nat>, xs: seq<nat>, h: nat, size: nat)
    requires IsList(m, mapped, xs) && h + 4 <= |m| && size < WORD_LIMIT
    requires forall i :: 0 <= i < |xs| ==> h <= xs[i] || xs[i] + HEADER <= h
    ensures IsList(Store32(m, h, size), mapped, xs)
  {
    var m' := Store32(m, h, size);
    forall i | 0 <= i < |xs| ensures Next(m', xs[i]) == Next(m, xs[i]) && Prev(m', xs[i]) == Prev(m, xs[i]) {
    }
  }

  /** Changing links leaves every size word of the list alone. */
  lemma OnlyLinksSize(m: Memory, m': Memory, xs: seq<nat>, k: nat)
    requires Whole(m) && Headers(xs) && OnlyLinks(m, m', xs) && k < |xs|
    ensures Size(m', xs[k]) == Size(m, xs[k])
  {
  }

  lemma ListApart(m: Memory, mapped: set<nat>, xs: seq<nat>, k: nat)
    requires IsList(m, mapped, xs) && k < |xs|
    ensures forall i :: 0 <= i < |xs| ==> xs[k] <= xs[i] || xs[i] + HEADER <= xs[k]
  {
  }
}
