/** A singly linked list, and its insertion sort by relinking nodes. */
module Vector {

  /** A node together with what it holds. */
  datatype Item<N, T> = Item(node: N, data: T)

  /** Where an element goes: before the first that is bigger, else at the end. */
  function Spot<N, T>(s: seq<Item<N, T>>, x: T, bigger: (T, T) -> bool): (i: nat)
    ensures i <= |s|
    ensures forall j :: 0 <= j < i ==> !bigger(s[j].data, x)
    ensures i < |s| ==> bigger(s[i].data, x)
  {
    if s == [] || bigger(s[0].data, x) then 0 else 1 + Spot(s[1..], x, bigger)
  }

  function Insert<N, T>(s: seq<Item<N, T>>, e: Item<N, T>, bigger: (T, T) -> bool): seq<Item<N, T>> {
    var i := Spot(s, e.data, bigger);
    s[..i] + [e] + s[i..]
  }

  function Sorted<N, T>(s: seq<Item<N, T>>, bigger: (T, T) -> bool): (r: seq<Item<N, T>>)
    ensures |r| == |s|
  {
    if s == [] then [] else Insert(Sorted(s[..|s| - 1], bigger), s[|s| - 1], bigger)
  }

  /** The strict part of a total preorder. */
  ghost predicate IsStrictOrder<T(!new)>(bigger: (T, T) -> bool) {
    && (forall x, y :: bigger(x, y) ==> !bigger(y, x))
    && (forall x, y, z :: !bigger(x, y) && !bigger(y, z) ==> !bigger(x, z))
  }

  predicate Alike<T>(x: T, y: T, bigger: (T, T) -> bool) {
    !bigger(x, y) && !bigger(y, x)
  }

  /** The items that compare equal to x, in the order in which they stand. */
  function Class<N, T>(s: seq<Item<N, T>>, x: T, bigger: (T, T) -> bool): seq<Item<N, T>> {
    if s == [] then []
    else Class(s[..|s| - 1], x, bigger) + (if Alike(s[|s| - 1].data, x, bigger) then [s[|s| - 1]] else [])
  }

  ghost predicate Ordered<N, T>(s: seq<Item<N, T>>, bigger: (T, T) -> bool) {
    forall i, j :: 0 <= i < j < |s| ==> !bigger(s[i].data, s[j].data)
  }

  /** For every value, the items equal to it are the same in t and u, in the same order. */
  ghost predicate SameClasses<N, T(!new)>(t: seq<Item<N, T>>, u: seq<Item<N, T>>, bigger: (T, T) -> bool) {
    forall x :: Class(t, x, bigger) == Class(u, x, bigger)
  }

  lemma {:induction false} ClassOfConcat<N, T>(s: seq<Item<N, T>>, t: seq<Item<N, T>>, x: T, bigger: (T, T) -> bool)
    ensures Class(s + t, x, bigger) == Class(s, x, bigger) + Class(t, x, bigger)
  {
    if t == [] {
      assert s + t == s;
    } else {
      ClassOfConcat(s, t[..|t| - 1], x, bigger);
      assert (s + t)[..|s + t| - 1] == s + t[..|t| - 1];
    }
  }

  lemma {:induction false} ClassIsEmpty<N, T>(s: seq<Item<N, T>>, x: T, bigger: (T, T) -> bool)
    requires forall k :: 0 <= k < |s| ==> !Alike(s[k].data, x, bigger)
    ensures Class(s, x, bigger) == []
  {
    if s != [] {
      ClassIsEmpty(s[..|s| - 1], x, bigger);
    }
  }

  lemma InsertAdds<N, T>(s: seq<Item<N, T>>, e: Item<N, T>, bigger: (T, T) -> bool)
    ensures multiset(Insert(s, e, bigger)) == multiset(s) + multiset{e}
  {
    hide Spot;
    var i := Spot(s, e.data, bigger);
    assert s == s[..i] + s[i..];
    assert multiset(s[..i] + [e] + s[i..]) == multiset(s[..i]) + multiset{e} + multiset(s[i..]);
  }

  /** Whatever the comparison is, sorting only rearranges. */
  lemma {:induction false} SortedIsPermutation<N, T>(s: seq<Item<N, T>>, bigger: (T, T) -> bool)
    ensures multiset(Sorted(s, bigger)) == multiset(s)
  {
    if s != [] {
      SortedIsPermutation(s[..|s| - 1], bigger);
      InsertAdds(Sorted(s[..|s| - 1], bigger), s[|s| - 1], bigger);
      assert s == s[..|s| - 1] + [s[|s| - 1]];
    }
  }

  lemma InsertIsOrdered<N, T(!new)>(s: seq<Item<N, T>>, e: Item<N, T>, bigger: (T, T) -> bool)
    requires IsStrictOrder(bigger) && Ordered(s, bigger)
    ensures Ordered(Insert(s, e, bigger), bigger)
  {
    var k := Spot(s, e.data, bigger);
    var r := Insert(s, e, bigger);
    forall i, j | 0 <= i < j < |r| ensures !bigger(r[i].data, r[j].data) {
      if i == k {
        var y := r[j].data;
        assert bigger(s[k].data, e.data) && !bigger(s[k].data, y);
        assert bigger(y, e.data);
      }
    }
  }

  lemma {:induction false} SortedIsOrdered<N, T(!new)>(s: seq<Item<N, T>>, bigger: (T, T) -> bool)
    requires IsStrictOrder(bigger)
    ensures Ordered(Sorted(s, bigger), bigger)
  {
    if s != [] {
      SortedIsOrdered(s[..|s| - 1], bigger);
      InsertIsOrdered(Sorted(s[..|s| - 1], bigger), s[|s| - 1], bigger);
    }
  }

  /** Nothing from where e goes is equal to it. */
  lemma NoneAlikeFromSpot<N, T(!new)>(s: seq<Item<N, T>>, e: T, x: T, bigger: (T, T) -> bool)
    requires IsStrictOrder(bigger) && Ordered(s, bigger) && Alike(e, x, bigger)
    ensures Class(s[Spot(s, e, bigger)..], x, bigger) == []
  {
    hide Class, Spot;
    var i := Spot(s, e, bigger);
    forall k | 0 <= k < |s[i..]| ensures !Alike(s[i..][k].data, x, bigger) {
      var y := s[i + k].data;
      assert bigger(s[i].data, e) && !bigger(s[i].data, y);
      assert bigger(s[i].data, x);
      assert bigger(y, x);
    }
    ClassIsEmpty(s[i..], x, bigger);
  }

  lemma InsertIsStable<N, T(!new)>(s: seq<Item<N, T>>, e: Item<N, T>, x: T, bigger: (T, T) -> bool)
    requires IsStrictOrder(bigger) && Ordered(s, bigger)
    ensures Class(Insert(s, e, bigger), x, bigger) == Class(s, x, bigger) + Class([e], x, bigger)
  {
    hide Class, Spot, Ordered, IsStrictOrder;
    var i := Spot(s, e.data, bigger);
    assert s == s[..i] + s[i..];
    ClassOfConcat(s[..i], s[i..], x, bigger);
    ClassOfConcat(s[..i] + [e], s[i..], x, bigger);
    ClassOfConcat(s[..i], [e], x, bigger);
    if Alike(e.data, x, bigger) {
      NoneAlikeFromSpot(s, e.data, x, bigger);
    } else {
      ClassIsEmpty([e], x, bigger);
    }
  }

  lemma {:induction false} SortedIsStable<N, T(!new)>(s: seq<Item<N, T>>, x: T, bigger: (T, T) -> bool)
    requires IsStrictOrder(bigger)
    ensures Class(Sorted(s, bigger), x, bigger) == Class(s, x, bigger)
  {
    if s != [] {
      var front := s[..|s| - 1];
      SortedIsStable(front, x, bigger);
      SortedIsOrdered(front, bigger);
      InsertIsStable(Sorted(front, bigger), s[|s| - 1], x, bigger);
      assert s == front + [s[|s| - 1]];
      ClassOfConcat(front, [s[|s| - 1]], x, bigger);
    }
  }

  /** An item is in its own class, at the front if it stands first. */
  lemma {:induction false} ClassOfFirst<N, T>(s: seq<Item<N, T>>, x: T, bigger: (T, T) -> bool)
    requires s != [] && Alike(s[0].data, x, bigger)
    ensures Class(s, x, bigger) == [s[0]] + Class(s[1..], x, bigger)
  {
    assert s == [s[0]] + s[1..];
    ClassOfConcat([s[0]], s[1..], x, bigger);
    assert Class([s[0]], x, bigger) == [s[0]];
  }

  lemma {:induction false} ClassMembers<N, T>(s: seq<Item<N, T>>, x: T, bigger: (T, T) -> bool)
    ensures forall e :: e in Class(s, x, bigger) ==> e in s
  {
    if s != [] {
      ClassMembers(s[..|s| - 1], x, bigger);
    }
  }

  /** Two ordered lists with the same classes agree on their first item. */
  lemma SameFirst<N, T(!new)>(t: seq<Item<N, T>>, u: seq<Item<N, T>>, bigger: (T, T) -> bool)
    requires IsStrictOrder(bigger) && Ordered(t, bigger) && Ordered(u, bigger) && t != []
    requires SameClasses(t, u, bigger)
    ensures u != [] && u[0] == t[0]
  {
    hide Class;
    var x := t[0].data;
    ClassOfFirst(t, x, bigger);
    ClassMembers(u, x, bigger);
    assert t[0] in Class(u, x, bigger);
    var y := u[0].data;
    ClassOfFirst(u, y, bigger);
    ClassMembers(t, y, bigger);
    assert u[0] in Class(t, y, bigger);
    assert Alike(x, y, bigger);
    ClassOfFirst(u, x, bigger);
    assert Class(t, x, bigger)[0] == t[0] && Class(u, x, bigger)[0] == u[0];
  }

  lemma {:induction false} OrderedWithSameClasses<N, T(!new)>(t: seq<Item<N, T>>, u: seq<Item<N, T>>,
      bigger: (T, T) -> bool)
    requires IsStrictOrder(bigger) && Ordered(t, bigger) && Ordered(u, bigger) && SameClasses(t, u, bigger)
    ensures t == u
    decreases |t|
  {
    if t == [] {
      if u != [] {
        ClassOfFirst(u, u[0].data, bigger);
      }
    } else {
      SameFirst(t, u, bigger);
      assert t == [t[0]] + t[1..] && u == [u[0]] + u[1..];
      forall x ensures Class(t[1..], x, bigger) == Class(u[1..], x, bigger) {
        ClassOfConcat([t[0]], t[1..], x, bigger);
        ClassOfConcat([u[0]], u[1..], x, bigger);
        assert Class(t, x, bigger) == Class(u, x, bigger);
        var c := Class([t[0]], x, bigger);
        assert Class(t, x, bigger)[|c|..] == Class(t[1..], x, bigger);
        assert Class(u, x, bigger)[|c|..] == Class(u[1..], x, bigger);
      }
      OrderedWithSameClasses(t[1..], u[1..], bigger);
    }
  }

  /** A list is the sorted form of s exactly when it is ordered and keeps, for every value, the items
      equal to it in the order they had in s: there is one stable sort, and this is it. */
  lemma SortedIsTheStableSort<N, T(!new)>(s: seq<Item<N, T>>, t: seq<Item<N, T>>, bigger: (T, T) -> bool)
    requires IsStrictOrder(bigger)
    ensures t == Sorted(s, bigger) <==>
            Ordered(t, bigger) && SameClasses(t, s, bigger)
  {
    hide Class, Sorted, Ordered, IsStrictOrder;
    SortedIsOrdered(s, bigger);
    forall x ensures Class(Sorted(s, bigger), x, bigger) == Class(s, x, bigger) {
      SortedIsStable(s, x, bigger);
    }
    if Ordered(t, bigger) && SameClasses(t, s, bigger) {
      OrderedWithSameClasses(t, Sorted(s, bigger), bigger);
    }
  }

  function Removed<E>(s: seq<E>, i: nat): seq<E>
    requires i < |s|
  {
    s[..i] + s[i + 1..]
  }

  function Inserted<E>(s: seq<E>, i: nat, e: E): seq<E>
    requires i <= |s|
  {
    s[..i] + [e] + s[i..]
  }

  /** The element at k taken out and put in at i. */
  function Moved<E>(s: seq<E>, i: nat, k: nat): seq<E>
    requires i <= k < |s|
  {
    Inserted(Removed(s, k), i, s[k])
  }

  ghost predicate Distinct<E>(s: seq<E>) {
    forall i, j :: 0 <= i < j < |s| ==> s[i] != s[j]
  }

  lemma RemovedAt<E>(s: seq<E>, i: nat)
    requires i < |s|
    ensures var r := Removed(s, i);
            && |r| == |s| - 1
            && (forall j {:trigger r[j]} :: 0 <= j < |r| ==> r[j] == if j < i then s[j] else s[j + 1])
            && (Distinct(s) ==> Distinct(r) && s[i] !in r)
  {
  }

  lemma InsertedAt<E>(s: seq<E>, i: nat, e: E)
    requires i <= |s|
    ensures var r := Inserted(s, i, e);
            && |r| == |s| + 1
            && (forall j {:trigger r[j]} :: 0 <= j < |r| ==>
               r[j] == if j < i then s[j] else if j == i then e else s[j - 1])
            && (Distinct(s) && e !in s ==> Distinct(r))
  {
  }

  lemma MovedAt<E>(s: seq<E>, i: nat, k: nat)
    requires i <= k < |s|
    ensures var r := Moved(s, i, k);
            && |r| == |s|
            && forall j {:trigger r[j]} :: 0 <= j < |r| ==>
               r[j] == if j < i || k < j then s[j] else if j == i then s[k] else s[j - 1]
  {
    var a, r := Removed(s, k), Moved(s, i, k);
    assert r == Inserted(a, i, s[k]);
    RemovedAt(s, k);
    InsertedAt(a, i, s[k]);
    hide Removed, Inserted, Moved, Distinct;
    forall j | 0 <= j < |r| ensures r[j] == if j < i || k < j then s[j] else if j == i then s[k] else s[j - 1] {
      if j < i {
        assert r[j] == a[j];
      } else if j > i {
        assert r[j] == a[j - 1];
      }
    }
  }

  lemma MovedToFront<E>(s: seq<E>, e: E, rest: seq<E>, i: nat)
    requires i <= |s|
    ensures Moved(s + [e] + rest, i, |s|) == s[..i] + [e] + s[i..] + rest
  {
    MovedAt(s + [e] + rest, i, |s|);
  }

  lemma {:induction false} SpotIs<N, T>(s: seq<Item<N, T>>, x: T, i: nat, bigger: (T, T) -> bool)
    requires i <= |s| && (forall j :: 0 <= j < i ==> !bigger(s[j].data, x)) && (i < |s| ==> bigger(s[i].data, x))
    ensures Spot(s, x, bigger) == i
  {
  }

  lemma SortedPrefix<N, T>(s: seq<Item<N, T>>, bigger: (T, T) -> bool)
    ensures Sorted(s[..0], bigger) + s[0..] == s
    ensures Sorted(s[..|s|], bigger) + s[|s|..] == Sorted(s, bigger)
  {
    assert s[..|s|] == s;
  }

  lemma SortedOfPush<N, T>(s: seq<Item<N, T>>, k: nat, bigger: (T, T) -> bool)
    requires k < |s|
    ensures |Sorted(s[..k], bigger)| == k
    ensures Sorted(s[..k + 1], bigger) == Insert(Sorted(s[..k], bigger), s[k], bigger)
  {
    assert s[..k + 1][..k] == s[..k];
  }

  lemma InsertByMoving<N, T>(r: seq<Item<N, T>>, e: Item<N, T>, rest: seq<Item<N, T>>, i: nat, bigger: (T, T) -> bool)
    requires i == Spot(r, e.data, bigger)
    ensures Moved(r + [e] + rest, i, |r|) == Insert(r, e, bigger) + rest
  {
    hide Spot, Moved;
    MovedToFront(r, e, rest, i);
  }

  /** Moving one more element to its place sorts one more element of s. */
  lemma SortedStep<N, T>(s: seq<Item<N, T>>, t: seq<Item<N, T>>, i: nat, k: nat, bigger: (T, T) -> bool)
    requires i <= k < |s| && t == Sorted(s[..k], bigger) + s[k..]
    requires (forall j :: 0 <= j < i ==> !bigger(t[j].data, t[k].data)) && (i < k ==> bigger(t[i].data, t[k].data))
    ensures Moved(t, i, k) == Sorted(s[..k + 1], bigger) + s[k + 1..]
  {
    hide *;
    var r, rest := Sorted(s[..k], bigger), s[k + 1..];
    SortedOfPush(s, k, bigger);
    assert t[k] == s[k] && t[..k] == r && t[k + 1..] == rest;
    SpotIs(t[..k], s[k].data, i, bigger);
    InsertByMoving(r, s[k], rest, i, bigger);
    assert t == t[..k] + [t[k]] + t[k + 1..];
  }

  class VectorNode<T> {
    var data: T
    var next: VectorNode?<T>

    constructor (data: T)
      ensures this.data == data && next == null
    {
      this.data, next := data, null;
    }
  }

  /** The node at i, or the null at the end. */
  ghost function Nth<T>(nodes: seq<VectorNode<T>>, i: nat): VectorNode?<T> {
    if i < |nodes| then nodes[i] else null
  }

  ghost function Before<T>(nodes: seq<VectorNode<T>>, i: nat): VectorNode?<T>
    requires i <= |nodes|
  {
    if i == 0 then null else nodes[i - 1]
  }

  lemma MovedNodes<T>(nodes: seq<VectorNode<T>>, i: nat, k: nat)
    requires i <= k < |nodes|
    ensures |Moved(nodes, i, k)| == |nodes| && Nth(Moved(nodes, i, k), k + 1) == Nth(nodes, k + 1)
  {
    MovedAt(nodes, i, k);
  }

  ghost predicate Within<E>(s: seq<E>, all: set<E>) {
    forall n :: n in s ==> n in all
  }

  class Vector<T> {
    var head: VectorNode?<T>
    var vector_size: nat
    ghost var nodes: seq<VectorNode<T>>

    ghost predicate Valid() reads this, nodes {
      vector_size == |nodes| && Linked()
    }

    /** From head, the links lead through the nodes in order and end in null. */
    ghost predicate Linked() reads this, nodes {
      && head == Nth(nodes, 0)
      && (forall i {:trigger nodes[i].next} :: 0 <= i < |nodes| ==> nodes[i].next == Nth(nodes, i + 1))
      && Distinct(nodes)
    }

    lemma ItemsAt()
      ensures |Items()| == |nodes| && forall i :: 0 <= i < |nodes| ==> Items()[i] == Item(nodes[i], nodes[i].data)
    {
    }

    /** If the nodes were moved about and hold what they held, the items were moved about. */
    lemma MovedItems(before: seq<Item<VectorNode<T>, T>>, was: seq<VectorNode<T>>, i: nat, k: nat)
      requires i <= k < |was| == |before| && nodes == Moved(was, i, k)
      requires forall j :: 0 <= j < |was| ==> before[j] == Item(was[j], was[j].data)
      ensures Items() == Moved(before, i, k)
    {
      hide Moved;
      MovedAt(was, i, k);
      MovedAt(before, i, k);
    }

    lemma SortedMore(items: seq<Item<VectorNode<T>, T>>, before: seq<Item<VectorNode<T>, T>>, was: seq<VectorNode<T>>,
                     i: nat, k: nat, compare: (T, T) -> bool)
      requires i <= k < |was| == |before| == |items| && nodes == Moved(was, i, k)
      requires forall j :: 0 <= j < |was| ==> before[j] == Item(was[j], was[j].data)
      requires before == Sorted(items[..k], compare) + items[k..]
      requires (forall j :: 0 <= j < i ==> !compare(was[j].data, was[k].data))
               && (i < k ==> compare(was[i].data, was[k].data))
      ensures Items() == Sorted(items[..k + 1], compare) + items[k + 1..]
    {
      hide Moved, Items, Sorted;
      MovedItems(before, was, i, k);
      SortedStep(items, before, i, k, compare);
    }

    lemma NextAt(i: nat)
      requires Linked() && i < |nodes|
      ensures nodes[i].next == Nth(nodes, i + 1)
    {
    }

    ghost function Items(): seq<Item<VectorNode<T>, T>>
      reads this, nodes
    {
      seq(|nodes|, i requires 0 <= i < |nodes| reads this, nodes => Item(nodes[i], nodes[i].data))
    }

    constructor ()
      ensures Valid() && Items() == []
    {
      head, vector_size, nodes := null, 0, [];
    }

    method GetNode(index: nat) returns (node: VectorNode<T>)
      requires Valid() && index < vector_size
      ensures node == nodes[index]
    {
      node := head;
      var left := index;
      while left != 0
        invariant 0 <= left <= index && node == nodes[index - left]
      {
        assert nodes[index - left].next == nodes[index - left + 1];
        node := node.next;
        left := left - 1;
      }
    }

    method Append(data: T)
      requires Valid()
      modifies this, nodes
      ensures Valid() && |nodes| == |old(nodes)| + 1 && nodes[..|nodes| - 1] == old(nodes) && fresh(nodes[|nodes| - 1])
      ensures Items() == old(Items()) + [Item(nodes[|nodes| - 1], data)]
    {
      var new_node := new VectorNode(data);
      if head == null {
        head := new_node;
      } else {
        var node := head;
        ghost var k := 0;
        while node.next != null
          invariant k < |nodes| && node == nodes[k]
          decreases |nodes| - k
        {
          node := node.next;
          k := k + 1;
        }
        node.next := new_node;
      }
      nodes := nodes + [new_node];
      vector_size := vector_size + 1;
    }

    /** Drops the node at i + 1. */
    method DropNext(before: VectorNode<T>, node: VectorNode<T>, ghost i: nat)
      requires Linked() && i + 1 < |nodes| && before == nodes[i] && node == nodes[i + 1]
      modifies this`nodes, before`next
      ensures Linked() && nodes == Removed(old(nodes), i + 1)
    {
      hide Items, Removed;
      RemovedAt(nodes, i + 1);
      assert node.next == Nth(nodes, i + 2);
      before.next := node.next;
      nodes := Removed(nodes, i + 1);
    }

    /** Puts a node that is not in the list in front of the one at i. */
    method InsertBefore(node: VectorNode<T>, ptr: VectorNode?<T>, ptr_prev: VectorNode?<T>, ghost i: nat)
      requires Linked() && i <= |nodes| && ptr == Nth(nodes, i) && ptr_prev == Before(nodes, i) && node !in nodes
      modifies this`nodes, this`head, node`next, (if i == 0 then {} else {nodes[i - 1]})`next
      ensures Linked() && nodes == Inserted(old(nodes), i, node)
    {
      hide Items, Inserted;
      InsertedAt(nodes, i, node);
      node.next := ptr;
      if ptr_prev == null {
        head := node;
      } else {
        ptr_prev.next := node;
      }
      nodes := Inserted(nodes, i, node);
    }

    lemma RemovedItems(before: seq<Item<VectorNode<T>, T>>, was: seq<VectorNode<T>>, i: nat)
      requires i < |was| == |before| && nodes == Removed(was, i)
      requires forall j :: 0 <= j < |was| ==> before[j] == Item(was[j], was[j].data)
      ensures Items() == Removed(before, i)
    {
      hide Removed;
      RemovedAt(was, i);
      RemovedAt(before, i);
    }

    method Remove(index: nat)
      requires Valid() && index < vector_size
      modifies this, nodes
      ensures Valid() && Items() == Removed(old(Items()), index)
    {
      hide Items, Removed;
      ghost var before, was := Items(), nodes;
      ItemsAt();
      RemovedAt(nodes, index);
      if index == 0 {
        head := head.next;
        assert nodes[1..] == Removed(nodes, 0);
        nodes := nodes[1..];
        vector_size := vector_size - 1;
      } else {
        var before := GetNode(index - 1);
        assert before.next == nodes[index];
        DropNext(before, before.next, index - 1);
        vector_size := vector_size - 1;
      }
      RemovedItems(before, was, index);
    }

    method PopBack()
      requires Valid() && vector_size > 0
      modifies this, nodes
      ensures Valid() && Items() == old(Items()[..|nodes| - 1])
    {
      if vector_size == 1 {
        head, vector_size, nodes := null, 0, [];
      } else {
        var ptr := head;
        ghost var k := 0;
        assert nodes[0].next == nodes[1];
        while ptr.next.next != null
          invariant k + 1 < |nodes| && ptr == nodes[k] && ptr.next == nodes[k + 1]
          decreases |nodes| - k
        {
          ptr := ptr.next;
          k := k + 1;
        }
        assert k + 2 == |nodes|;
        ptr.next := null;
        nodes := nodes[..|nodes| - 1];
        vector_size := vector_size - 1;
      }
    }

    /** One round of the sort: the node at k is relinked to its place among the first k. */
    method Place(current: VectorNode<T>, current_prev: VectorNode?<T>, k: nat, compare: (T, T) -> bool,
                 ghost all: set<VectorNode<T>>)
      returns (new_current_prev: VectorNode?<T>, ghost i: nat)
      requires Linked() && k < |nodes| && current == nodes[k] && current_prev == Before(nodes, k) && Within(nodes, all)
      modifies this`head, this`nodes, all
      ensures i <= k && (i < k ==> compare(old(nodes[i]).data, current.data))
      ensures forall j :: 0 <= j < i ==> !compare(old(nodes)[j].data, current.data)
      ensures Linked() && nodes == Moved(old(nodes), i, k) && new_current_prev == Before(nodes, k + 1)
      ensures Within(nodes, all)
      ensures forall j :: 0 <= j < |old(nodes)| ==> old(nodes)[j].data == old(nodes[j].data)
    {
      hide Items, Inserted, Removed;
      new_current_prev := current;
      var insertion_ptr := head;
      var insertion_ptr_prev: VectorNode?<T> := null;
      for at := 0 to k
        invariant insertion_ptr == nodes[at] && insertion_ptr_prev == Before(nodes, at)
        invariant forall j :: 0 <= j < at ==> !compare(nodes[j].data, current.data)
      {
        if compare(insertion_ptr.data, current.data) {
          // current_prev is not null here: k is not 0
          new_current_prev := current_prev;
          RemovedAt(nodes, k);
          MovedAt(nodes, at, k);
          DropNext(current_prev, current, k - 1);
          InsertBefore(current, insertion_ptr, insertion_ptr_prev, at);
          return new_current_prev, at;
        }
        insertion_ptr_prev := insertion_ptr;
        insertion_ptr := insertion_ptr.next;
      }
      i := k;
      MovedAt(nodes, k, k);
    }

    /** The body of the sort's loop: one more of the original items gets sorted. */
    method Round(current: VectorNode<T>, current_prev: VectorNode?<T>, k: nat, compare: (T, T) -> bool,
                 ghost all: set<VectorNode<T>>, ghost items: seq<Item<VectorNode<T>, T>>)
      returns (new_current: VectorNode?<T>, new_current_prev: VectorNode?<T>)
      requires Linked() && k < |nodes| == |items| && current == nodes[k] && current_prev == Before(nodes, k)
      requires Within(nodes, all) && Items() == Sorted(items[..k], compare) + items[k..]
      modifies this`head, this`nodes, all
      ensures Linked() && |nodes| == |items| && Within(nodes, all)
      ensures new_current == Nth(nodes, k + 1) && new_current_prev == Before(nodes, k + 1)
      ensures Items() == Sorted(items[..k + 1], compare) + items[k + 1..]
    {
      hide Sorted, Moved, Linked, Items, Within;
      ghost var before, was := Items(), nodes;
      new_current := current.next;
      NextAt(k);
      ItemsAt();
      ghost var i;
      new_current_prev, i := Place(current, current_prev, k, compare, all);
      MovedNodes(was, i, k);
      SortedMore(items, before, was, i, k, compare);
    }

    method Sort(compare: (T, T) -> bool)
      requires Valid()
      modifies this`head, this`nodes, set n | n in nodes
      ensures Valid() && Items() == Sorted(old(Items()), compare)
    {
      hide Sorted, Items;
      ghost var items := Items();
      ghost var all := set n | n in nodes;
      var current := head;
      var current_prev: VectorNode?<T> := null;
      var sorted_area_size := 0;
      SortedPrefix(items, compare);
      assert |Items()| == |nodes| by { ItemsAt(); }
      assert Within(nodes, all);
      hide Linked, Within;
      while current != null
        invariant Linked() && sorted_area_size <= |nodes| == |items|
        invariant Within(nodes, all)
        invariant current == Nth(nodes, sorted_area_size) && current_prev == Before(nodes, sorted_area_size)
        invariant Items() == Sorted(items[..sorted_area_size], compare) + items[sorted_area_size..]
        decreases |items| - sorted_area_size
      {
        current, current_prev := Round(current, current_prev, sorted_area_size, compare, all, items);
        sorted_area_size := sorted_area_size + 1;
      }
    }
  }
}
