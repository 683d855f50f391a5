module Heap {
  import opened Words
  import opened HeapLayout
  import opened Memory
  import opened HoleList
  import opened HeapRep
  import opened HeapTiles
  import R = HeapRuns

  class Heap {
    var mem: Memory
    var holes_list_head: nat
    var holes_list_tail: nat
    var last_page: nat
    /** The mapped addresses. */
    ghost var mapped: set<nat>
    ghost var list: seq<nat>
    /** What the heap is made of. */
    ghost var tiles: seq<Tile>

    ghost function State(): R.State reads this`tiles, this`last_page, this`mem {
      R.State(tiles, last_page, NullWord())
    }

    /** The word at the null pointer, whatever it is. */
    ghost function NullWord(): nat reads this`mem {
      if |mem| < 4 then 0 else Load32(mem, 0)
    }

    /** The virtual memory manager maps the first 4 MB at 0, so the null header can be read. */
    ghost predicate NullIsMapped() reads this`mem, this`mapped {
      |mem| == WORD_LIMIT && IsMapped(mapped, 0, HEADER)
    }

    ghost predicate Valid() reads this {
      && Listed() && list == HoleAddrs(tiles)
      && Represents(mem, mapped, tiles)
      && R.Sound(State())
      && NullIsMapped()
      && last_page % PAGE == 0
      && forall x :: x in mapped ==> x < last_page + PAGE
    }

    ghost predicate Listed() reads this`mem, this`holes_list_head, this`holes_list_tail, this`mapped, this`list {
      IsList(mem, mapped, list) && holes_list_head == First(list) && holes_list_tail == Last(list)
    }

    /** initialize: one page, one hole. memory and frame hold whatever they held before. */
    constructor (memory: Memory, frame: seq<Byte>)
      requires Whole(memory) && |frame| == PAGE
      ensures Valid() && State() == R.Initial(Load32(memory, 0))
      ensures Untouched(memory, mem, [], HEAP_START, HEAP_START + PAGE)
    {
      hide Store32, Load32, Represents, IsList, Untouched, HoleAddrs, Range;
      var m := memory[..HEAP_START] + frame + memory[HEAP_START + PAGE..];
      InitialRep(memory, frame, Range(0, HEADER) + Range(HEAP_START, PAGE));
      m := Store32(m, HEAP_START, PAGE);
      m := Store32(m, HEAP_START + 8, 0);
      m := Store32(m, HEAP_START + 4, 0);
      holes_list_head, holes_list_tail, last_page := HEAP_START, HEAP_START, HEAP_START;
      mem := m;
      mapped := Range(0, HEADER) + Range(HEAP_START, PAGE);
      list := [HEAP_START];
      tiles := R.Initial(0).tiles;
    }

    /** Reading and writing the fields of the header at h, which must be mapped. */
    method GetSize(h: nat) returns (size: nat)
      requires h + HEADER <= |mem| && IsMapped(mapped, h, HEADER)
      ensures size == Size(mem, h)
    {
      size := Load32(mem, h);
    }

    method GetNext(h: nat) returns (next: nat)
      requires h + HEADER <= |mem| && IsMapped(mapped, h, HEADER)
      ensures next == Next(mem, h)
    {
      next := Load32(mem, h + 4);
    }

    method GetPrev(h: nat) returns (prev: nat)
      requires h + HEADER <= |mem| && IsMapped(mapped, h, HEADER)
      ensures prev == Prev(mem, h)
    {
      prev := Load32(mem, h + 8);
    }

    method PutSize(h: nat, size: nat)
      requires h + HEADER <= |mem| && IsMapped(mapped, h, HEADER) && size < WORD_LIMIT
      modifies this`mem
      ensures mem == Store32(old(mem), h, size)
    {
      mem := Store32(mem, h, size);
    }

    method PutNext(h: nat, next: nat)
      requires h + HEADER <= |mem| && IsMapped(mapped, h, HEADER) && next < WORD_LIMIT
      modifies this`mem
      ensures mem == Store32(old(mem), h + 4, next) && (0 < h ==> mem == SetNext(old(mem), h, next))
    {
      mem := Store32(mem, h + 4, next);
    }

    method PutPrev(h: nat, prev: nat)
      requires h + HEADER <= |mem| && IsMapped(mapped, h, HEADER) && prev < WORD_LIMIT
      modifies this`mem
      ensures mem == Store32(old(mem), h + 8, prev) && (0 < h ==> mem == SetPrev(old(mem), h, prev))
    {
      mem := Store32(mem, h + 8, prev);
    }

    method RemoveFromHolesList(hole: nat, ghost k: nat)
      requires Listed() && k < |list| && list[k] == hole
      modifies this`mem, this`holes_list_head, this`holes_list_tail, this`list
      ensures Listed() && list == RemoveAt(old(list), k)
      ensures OnlyLinks(old(mem), mem, list)
    {
      hide IsList, Load32, Next, Prev, SetNext, SetPrev, OnlyLinks, IsMapped;
      ghost var m := mem;
      ListAt(m, mapped, list, k);
      Unlink(m, mapped, list, k);
      var next := GetNext(hole);
      var prev := GetPrev(hole);
      if prev == 0 && next == 0 {
        holes_list_tail, holes_list_head := 0, 0;
      } else if hole == holes_list_head {
        holes_list_head := next;
        PutPrev(holes_list_head, 0);
      } else if hole == holes_list_tail {
        holes_list_tail := prev;
        PutNext(holes_list_tail, 0);
      } else {
        PutNext(prev, next);
        PutPrev(next, prev);
      }
      NullHeader(m); NullHeader(mem);
      assert mem == Bypass(m, prev, next);
      list := RemoveAt(list, k);
    }

    /** What an extension without a single frame leaves of a list: its tail, but no head. */
    ghost predicate HeadLost() reads this`mem, this`holes_list_head, this`holes_list_tail, this`mapped {
      Whole(mem) && holes_list_head == 0 && holes_list_tail != 0 && IsMapped(mapped, 0, HEADER)
    }

    /** A null hole, which is what an extension without a single frame inserts, becomes the head. A hole inserted
        when the head is lost becomes the head of a list of its own, while the tail stays behind. */
    method InsertToHolesList(hole: nat, ghost k: nat)
      requires IsMapped(mapped, hole, HEADER)
      requires Listed() ==> if hole == 0 then k == 0 else Fits(list, hole, k)
      requires !Listed() ==> HeadLost() && HEADER <= hole && hole + HEADER <= WORD_LIMIT && k == 0
      modifies this`mem, this`holes_list_head, this`holes_list_tail, this`list
      ensures 0 < hole && old(Listed()) ==>
                Listed() && list == InsertAt(old(list), k, hole) && OnlyLinks(old(mem), mem, list)
      ensures !old(Listed()) ==>
                && list == old(list) && holes_list_head == hole && holes_list_tail == old(holes_list_tail)
                && IsList(mem, mapped, [hole]) && Untouched(old(mem), mem, [hole], 8, HEADER)
      ensures hole == 0 ==>
                && list == old(list) && holes_list_head == 0 && holes_list_tail == old(holes_list_tail)
                && Whole(mem) && Untouched(old(mem), mem, list, 4, HEADER) && (list == [] ==> Listed())
    {
      hide IsList, Load32, Next, Prev, SetNext, SetPrev, OnlyLinks, IsMapped, Fits, Store32, Untouched, InsertAt;
      ghost var m, lost := mem, !Listed();
      if lost {
        LoneHole(m, mapped, hole);
      } else if 0 < hole {
        FitsAt(m, mapped, list, hole, k, k);
      } else {
        FirstAt(m, mapped, list);
      }
      NullHeader(m);
      ghost var p, n := At(list, k - 1), At(list, k);
      if holes_list_tail == 0 {
        holes_list_tail, holes_list_head := hole, hole;
        PutNext(hole, 0);
        PutPrev(hole, 0);
        if 0 < hole {
          NullHeader(SetPrev(m, hole, 0));
          Commute(m, hole, 0, hole, 0);
        }
      } else {
        var node := holes_list_head;
        ghost var i := 0;
        while node != 0
          invariant 0 <= i <= k && if lost then node == 0 else node == At(list, i)
          modifies {}
          decreases |list| - i
        {
          if 0 < hole {
            FitsAt(m, mapped, list, hole, k, i);
          }
          if hole < node { break; }
          ListAt(m, mapped, list, i);
          node := GetNext(node);
          i := i + 1;
        }
        if 0 < hole && !lost {
          FitsAt(m, mapped, list, hole, k, i);
        }
        assert i == k;
        if node == holes_list_head {
          holes_list_head := hole;
          PutPrev(hole, 0);
          PutNext(hole, node);
          PutPrev(node, hole);
          if 0 < hole && !lost {
            Commute(SetPrev(m, hole, 0), hole, node, node, hole);
          }
        } else if node == 0 {
          PutNext(holes_list_tail, hole);
          PutPrev(hole, holes_list_tail);
          NullHeader(mem);
          holes_list_tail := hole;
          PutNext(hole, 0);
        } else {
          ListAt(m, mapped, list, k);
          var prev := GetPrev(node);
          PutNext(prev, hole);
          PutPrev(hole, prev);
          PutPrev(node, hole);
          PutNext(hole, node);
        }
      }
      if 0 < hole && !lost {
        assert mem == Splice(m, p, hole, n);
        Link(m, mapped, list, k, hole);
        list := InsertAt(list, k, hole);
      } else if !lost {
        NullInsert(m, mem, mapped, list);
      }
    }

    method Split(hole: nat, size: nat, ghost i: nat) returns (taken: nat)
      requires Valid() && i < |tiles| && tiles[i].Serves(size) && tiles[i].addr == hole
               && R.CutSafe(tiles[i].size, size)
      modifies this`mem, this`holes_list_head, this`holes_list_tail, this`list
      ensures tiles[i].size - size <= HEADER ==> taken == 0 && unchanged(this)
      ensures tiles[i].size - size > HEADER ==>
                && taken == Carve(tiles[i], size)[0].size
                && Listed() && list == HoleAddrs(Take(tiles, i, size))
                && Untouched(old(mem), mem, old(list), hole, tiles[i].End())
                && hole + taken + 4 <= |mem| && Load32(mem, hole + taken) == tiles[i].size - taken
    {
      hide Tiling, IsList, Untouched, OnlyLinks, Load32, Sizes, R.Sound, InMemory, IsMapped, Fits, HoleAddrs,
           Take, InsertAt, RemoveAt, First, Last, Store32;
      ghost var m, k := mem, |HoleAddrs(tiles[..i])|;
      SizeAt(mem, mapped, tiles, i);
      var hole_size := GetSize(hole);
      if hole_size - size > HEADER {
        var offset := if size > HEADER then size else HEADER;
        var new_hole := hole + offset;
        SplitFits(mem, mapped, tiles, i, size, new_hole);
        SplitHoles(tiles, i, size);
        PutSize(new_hole, hole_size - offset);
        ghost var m1 := mem;
        InsertAtKeeps(list, k, new_hole);
        InsertToHolesList(new_hole, k + 1);
        ghost var m2 := mem;
        RemoveFromHolesList(hole, k);
        SplitFrame(m, m1, m2, mem, mapped, old(list), k, new_hole, hole_size - offset, tiles[i].End());
        return offset;
      }
      return 0;
    }

    /** VirtualMgr::map of one fresh frame at last_page: its bytes are whatever the frame holds. */
    method MapLastPage(frame: seq<Byte>)
      requires |frame| == PAGE && Whole(mem) && last_page + PAGE <= WORD_LIMIT
      modifies this`mem, this`mapped
      ensures Untouched(old(mem), mem, [], last_page, last_page + PAGE)
      ensures mapped == old(mapped) + Range(last_page, PAGE)
    {
      mem := mem[..last_page] + frame + mem[last_page + PAGE..];
      mapped := mapped + Range(last_page, PAGE);
    }

    static ghost function Range(a: nat, n: nat): (r: set<nat>)
      ensures forall x :: x in r <==> a <= x < a + n
    {
      if n == 0 then {} else Range(a, n - 1) + {a + n - 1}
    }

    /** The page loop of extend_heap. frames is what PhysicalMgr::allocate_block hands out to this
        call, in order, before it returns null. */
    method MapPages(desired_pages: nat, frames: seq<seq<Byte>>)
        returns (status: bool, header: nat, number_of_pages_done: nat)
      requires Whole(mem) && last_page + desired_pages * PAGE <= HEAP_LIMIT && 0 < last_page
      requires forall i :: 0 <= i < |frames| ==> |frames[i]| == PAGE
      modifies this`mem, this`mapped, this`last_page
      ensures status <==> desired_pages <= |frames|
      ensures number_of_pages_done == Min(desired_pages, |frames|)
      ensures header == if number_of_pages_done == 0 then 0 else old(last_page)
      ensures last_page == old(last_page) + number_of_pages_done * PAGE
      ensures Whole(mem) && Untouched(old(mem), mem, [], old(last_page), last_page)
      ensures old(mapped) <= mapped && forall x :: x in mapped <==> x in old(mapped) || old(last_page) <= x < last_page
    {
      hide Untouched;
      header, status, number_of_pages_done := 0, true, 0;
      UntouchedNothing(mem, last_page);
      while number_of_pages_done < desired_pages
        invariant number_of_pages_done <= desired_pages && number_of_pages_done <= |frames| && status
        invariant last_page == old(last_page) + number_of_pages_done * PAGE
        invariant header == if number_of_pages_done == 0 then 0 else old(last_page)
        invariant Whole(mem) && Untouched(old(mem), mem, [], old(last_page), last_page)
        invariant old(mapped) <= mapped
        invariant forall x :: x in mapped <==> x in old(mapped) || old(last_page) <= x < last_page
      {
        if number_of_pages_done == |frames| {
          status := false;
          break;
        }
        ghost var m := mem;
        MapLastPage(frames[number_of_pages_done]);
        UntouchedPages(old(mem), m, mem, old(last_page), last_page, last_page + PAGE);
        if header == 0 {
          header := last_page;
        }
        number_of_pages_done := number_of_pages_done + 1;
        last_page := last_page + PAGE;
      }
    }

    method ExtendHeap(size: nat, frames: seq<seq<Byte>>) returns (status: bool)
      requires Valid() && forall i :: 0 <= i < |frames| ==> |frames[i]| == PAGE
      requires last_page + PAGE + R.ExtensionPages(size) * PAGE <= HEAP_LIMIT
      modifies this
      ensures State() == R.Extend(old(State()), size, |frames|)
      ensures status <==> R.ExtensionPages(size) <= |frames|
      ensures BlocksSame(old(mem), mem, old(tiles), {}) && R.KeepsBlocks(old(tiles), tiles)
      ensures |frames| > 0 || HoleAddrs(old(tiles)) == [] ==> Valid()
      ensures |frames| == 0 ==> tiles == old(tiles) && holes_list_head == 0
    {
      hide Tiling, IsList, Untouched, OnlyLinks, Load32, Sizes, InMemory, IsMapped, Fits, HoleAddrs, InsertAt,
           First, Last, Store32;
      hide R.Extend, R.Sound, R.KeepsBlocks, BlocksSame, Represents;
      HeapShape(mem, mapped, tiles);
      R.AppendKeeps(tiles);
      R.ExtendShape(State(), size, |frames|);
      var desired_size := size + HEADER;
      var desired_pages := desired_size / PAGE + 1;
      ghost var m, was := mem, mapped;
      last_page := last_page + PAGE;
      var header, number_of_pages_done;
      status, header, number_of_pages_done := MapPages(desired_pages, frames);
      ghost var m1 := mem;
      ghost var t := Tile(header, number_of_pages_done * PAGE, Hole);
      if 0 < number_of_pages_done {
        RepFrame(m, m1, was, mapped, tiles, header, last_page);
        AppendFits(m1, mapped, tiles, header, t.size);
        IsMappedRange(mapped, header, t.size);
      } else {
        assert mapped == was;
        FrameNothing(m, m1, was, mapped, tiles, last_page);
        StoreSize(m1, mapped, list, 0, 0);
      }
      PutSize(header, number_of_pages_done * PAGE);
      InsertToHolesList(header, if 0 < header then |list| else 0);
      if 0 < number_of_pages_done {
        ExtendRep(m, m1, mem, was, mapped, tiles, t);
        BlocksKept(m, mem, was, tiles, header, last_page, {});
        tiles := tiles + [t];
      } else {
        NullExtension(m, m1, mem, mapped, tiles, last_page);
      }
    }

    /** The search loop of malloc. */
    method FindHole(required_size: nat) returns (hole: nat, ghost i: nat)
      requires Valid()
      ensures i == FirstFit(tiles, required_size) && (hole == 0 <==> i == |tiles|)
      ensures hole == if FirstFit(tiles, required_size) < |tiles| then tiles[FirstFit(tiles, required_size)].addr else 0
    {
      hide IsList, Load32, Sizes, InMemory, IsMapped, Tiling, Next, Prev, Size, R.Sound;
      var node := holes_list_head;
      hole := 0;
      ghost var k: nat := 0;
      if list != [] { ListAt(mem, mapped, list, 0); }
      while node != 0
        invariant k <= |list| && node == At(list, k) && (k < |list| ==> node != 0) && hole == 0
        invariant forall l :: 0 <= l < k ==> list[l] + HEADER <= |mem| && Size(mem, list[l]) < required_size
        decreases |list| - k
      {
        ListAt(mem, mapped, list, k);
        var size := GetSize(node);
        if size >= required_size {
          hole := node;
          break;
        }
        node := GetNext(node);
        k := k + 1;
      }
      ListFirstFit(mem, mapped, tiles, required_size, k);
      i := if k < |list| then HoleIndex(tiles, k) else |tiles|;
    }

    /** malloc once a hole is found: cut it or take it whole, and store the size of the block. */
    method TakeHole(hole: nat, required_size: nat, ghost i: nat) returns (addr: nat)
      requires Valid() && i < |tiles| && tiles[i].Serves(required_size) && tiles[i].addr == hole
      requires R.CutSafe(tiles[i].size, required_size)
      modifies this
      ensures Valid() && State() == old(State()).(tiles := Take(old(tiles), i, required_size))
      ensures addr == hole + SIZE_WORD
      ensures BlocksSame(old(mem), mem, old(tiles), {})
    {
      hide Tiling, IsList, Untouched, OnlyLinks, Load32, Sizes, R.Sound, InMemory, IsMapped, HoleAddrs, Take,
           InsertAt, RemoveAt, First, Last, Store32, R.CutSafe, BlocksSame;
      ghost var m, k := mem, |HoleAddrs(tiles[..i])|;
      SizeAt(mem, mapped, tiles, i);
      R.TakeSound(State(), i, required_size);
      var allocated_size := Split(hole, required_size, i);
      if allocated_size == 0 {
        WholeHoles(mem, mapped, tiles, i, required_size);
        allocated_size := GetSize(hole);
        RemoveFromHolesList(hole, k);
        LinksUntouched(m, mem, list, HoleAddrs(tiles), hole, tiles[i].End());
      }
      TakeRep(m, mem, mapped, tiles, i, required_size);
      PutSize(hole, allocated_size);
      OthersApart(tiles, i);
      BlocksKept(m, mem, mapped, tiles, hole, tiles[i].End(), {});
      tiles := Take(tiles, i, required_size);
      addr := hole + SIZE_WORD;
    }

    method Malloc(size: nat, frames: seq<seq<Byte>>) returns (addr: nat)
      requires Valid() && R.MallocAllowed(State(), size, |frames|)
      requires forall i :: 0 <= i < |frames| ==> |frames[i]| == PAGE
      modifies this
      ensures (State(), addr) == R.Malloc(old(State()), size, |frames|)
      ensures Valid() <==> !R.LosesHoles(old(State()), size, |frames|)
      ensures BlocksSame(old(mem), mem, old(tiles), {})
      decreases size > 0 && R.NeedsExtension(State(), size + SIZE_WORD)
    {
      hide Represents, R.Sound, Take, BlocksSame, Load32, HoleAddrs, IsList, R.CutSafe, R.ExtensionPages;
      if size == 0 {
        BlocksSameSelf(mem, mapped, tiles);
        return 0;
      }
      var required_size := size + SIZE_WORD;
      var hole;
      ghost var i;
      hole, i := FindHole(required_size);
      if hole == 0 {
        ghost var s, m := State(), mem;
        HeadNotNull(mem, mapped, tiles);
        var status := ExtendHeap(required_size, frames);
        if !status {
          return 0;
        }
        R.MallocAfterExtension(s, size, |frames|);
        ghost var m1, ts1 := mem, tiles;
        addr := Malloc(size, []);
        BlocksSameTransitive(m, m1, mem, s.tiles, ts1, {}, {}, {});
        return;
      }
      addr := TakeHole(hole, required_size, i);
    }

    method MergeNext(header: nat, ghost k: nat)
      requires Listed() && k < |list| && header + HEADER <= |mem| && IsMapped(mapped, header, HEADER)
      requires forall l :: 0 <= l < |list| ==> header <= list[l] || list[l] + HEADER <= header
      requires Next(mem, header) == list[k] && list[k] + HEADER <= |mem|
               && Size(mem, header) + Size(mem, list[k]) < WORD_LIMIT
      modifies this`mem, this`holes_list_head, this`holes_list_tail, this`list
      ensures Listed() && list == RemoveAt(old(list), k)
      ensures OnlyLinks(Store32(old(mem), header, Size(old(mem), header) + Size(old(mem), old(list[k]))), mem, list)
    {
      hide IsList, Load32, Next, Size, OnlyLinks;
      ListAt(mem, mapped, list, k);
      var size := GetSize(header);
      var next := GetNext(header);
      var next_size := GetSize(next);
      StoreSize(mem, mapped, list, header, size + next_size);
      PutSize(header, size + next_size);
      RemoveFromHolesList(next, k);
    }

    /** With no previous hole, the size is added to the word at the null pointer. */
    method MergePrevious(header: nat, ghost k: nat)
      requires Listed() && k < |list| && list[k] == header && header + HEADER <= |mem|
      requires At(list, k - 1) + HEADER <= |mem| && Size(mem, At(list, k - 1)) + Size(mem, header) < WORD_LIMIT
      requires IsMapped(mapped, At(list, k - 1), HEADER)
      modifies this`mem, this`holes_list_head, this`holes_list_tail, this`list
      ensures Listed() && list == RemoveAt(old(list), k)
      ensures var prev := At(old(list), k - 1);
              OnlyLinks(Store32(old(mem), prev, Size(old(mem), prev) + Size(old(mem), header)), mem, list)
    {
      hide IsList, Load32, Prev, Size, OnlyLinks;
      ListAt(mem, mapped, list, k);
      if k > 0 {
        ListApart(mem, mapped, list, k - 1);
      }
      var prev := GetPrev(header);
      var prev_size := GetSize(prev);
      var size := GetSize(header);
      StoreSize(mem, mapped, list, prev, prev_size + size);
      PutSize(prev, prev_size + size);
      RemoveFromHolesList(header, k);
    }

    /** merge_previous on tiles: tile i joins the hole before it. */
    method JoinPrevious(header: nat, ghost i: nat)
      requires Valid() && i < |tiles| && JoinsPrevious(tiles, i) && tiles[i].kind.Hole? && tiles[i].addr == header
      modifies this`mem, this`holes_list_head, this`holes_list_tail, this`list, this`tiles
      ensures Valid() && tiles == Replace(old(tiles), i - 1, i + 1, [Join(old(tiles[i - 1]), old(tiles[i]))])
      ensures BlocksSame(old(mem), mem, old(tiles), {})
      ensures NullWord() == old(NullWord())
      ensures |mem| == old(|mem|) && header + HEADER <= |mem|
      ensures Size(mem, header) == old(Size(mem, header)) && Next(mem, header) == old(Next(mem, header))
    {
      hide Tiling, IsList, OnlyLinks, Load32, Sizes, R.Sound, InMemory, IsMapped, HoleAddrs, InsertAt,
           RemoveAt, First, Last, Store32, BlocksSame, Size, Next, Represents, Replace;
      ghost var m, s, k := mem, State(), |HoleAddrs(tiles[..i])|;
      ghost var us := [Join(tiles[i - 1], tiles[i])];
      PairStart(mem, mapped, tiles, i - 1);
      MergePrevious(header, k);
      PairDone(m, mem, mapped, s, i - 1, us, tiles[i - 1].addr, us[0].size);
      HeaderKept(m, mem, mapped, old(list), k, old(list)[k - 1], us[0].size);
      tiles := Replace(tiles, i - 1, i + 1, us);
    }

    /** merge_next on tiles: the hole after tile j leaves the list, and tiles j and j + 1 become us. */
    method JoinNext(header: nat, ghost j: nat, ghost us: seq<Tile>)
      requires Valid() && j + 1 < |tiles| && tiles[j].kind.Hole? && tiles[j + 1].kind.Hole?
               && tiles[j].End() == tiles[j + 1].addr
      requires header == tiles[j].addr || tiles[j].addr + HEADER <= header <= header + HEADER <= tiles[j].End()
      requires header + HEADER <= |mem| && Next(mem, header) == tiles[j + 1].addr
      requires Size(mem, header) + tiles[j + 1].size < WORD_LIMIT && IsPair(tiles, j, us)
      requires us[0].size == if header == tiles[j].addr then tiles[j].size + tiles[j + 1].size else tiles[j].size
      modifies this`mem, this`holes_list_head, this`holes_list_tail, this`list, this`tiles
      ensures Valid() && tiles == Replace(old(tiles), j, j + 2, us)
      ensures BlocksSame(old(mem), mem, old(tiles), {}) && NullWord() == old(NullWord())
    {
      hide Tiling, IsList, OnlyLinks, Load32, Sizes, R.Sound, InMemory, HoleAddrs, InsertAt, RemoveAt, First,
           Last, Store32, BlocksSame, Size, Next, Represents, Replace, IsPair;
      ghost var m, s, k, w := mem, State(), |HoleAddrs(tiles[..j + 1])|, Size(mem, header) + tiles[j + 1].size;
      PairStart(mem, mapped, tiles, j);
      if header != tiles[j].addr {
        InsideApart(tiles, j, header);
      } else {
        ListApart(mem, mapped, list, k - 1);
      }
      MergeNext(header, k);
      PairDone(m, mem, mapped, s, j, us, header, w);
      tiles := Replace(tiles, j, j + 2, us);
    }

    /** merge_previous on tiles when the null pointer passes for the previous hole: tile i is lost. */
    method JoinNull(header: nat, ghost i: nat)
      requires Valid() && i < |tiles| && JoinsNull(tiles, i, NullWord()) && tiles[i].kind.Hole?
               && tiles[i].addr == header
      modifies this`mem, this`holes_list_head, this`holes_list_tail, this`list, this`tiles
      ensures Valid() && tiles == old(tiles)[i := old(tiles[i]).(kind := Lost)]
      ensures BlocksSame(old(mem), mem, old(tiles), {})
      ensures NullWord() == old(NullWord() + tiles[i].size)
      ensures |mem| == old(|mem|) && header + HEADER <= |mem|
      ensures Size(mem, header) == old(Size(mem, header)) && Next(mem, header) == old(Next(mem, header))
    {
      hide Tiling, IsList, OnlyLinks, Load32, Sizes, InMemory, IsMapped, HoleAddrs, RemoveAt, First, Last,
           Store32, BlocksSame, Next, Represents, Untouched;
      ghost var m, s, w := mem, State(), header + tiles[i].size;
      SizeAt(mem, mapped, tiles, i);
      HoleAt(tiles, i);
      FirstHole(mem, mapped, tiles, i);
      NullStore(m, mapped, tiles, w);
      ghost var m1 := Store32(m, 0, w);
      MergePrevious(header, 0);
      RemoveAtKeeps(s.tiles, 0);
      LinksUntouched(m1, mem, list, HoleAddrs(s.tiles), header, s.tiles[i].End());
      LostRep(m1, mem, mapped, s, i, i);
      BlocksSameTransitive(m, m1, mem, s.tiles, s.tiles, {}, {}, {});
      HeaderKept(m, mem, mapped, old(list), 0, 0, w);
      tiles := tiles[i := tiles[i].(kind := Lost)];
    }

    /** merge_next on tiles when the header's tile i is lost already: so is the next hole. */
    method LoseNext(header: nat, ghost i: nat)
      requires Valid() && i + 1 < |tiles| && tiles[i].kind.Lost? && tiles[i].addr == header
      requires tiles[i + 1].kind.Hole? && tiles[i].End() == tiles[i + 1].addr
      requires header + HEADER <= |mem| && Next(mem, header) == tiles[i + 1].addr
      requires Size(mem, header) + tiles[i + 1].size < WORD_LIMIT
      modifies this`mem, this`holes_list_head, this`holes_list_tail, this`list, this`tiles
      ensures Valid() && tiles == old(tiles)[i + 1 := old(tiles[i + 1]).(kind := Lost)]
      ensures BlocksSame(old(mem), mem, old(tiles), {header}) && NullWord() == old(NullWord())
    {
      hide Tiling, IsList, OnlyLinks, Load32, Sizes, InMemory, HoleAddrs, RemoveAt, First, Last, Store32,
           BlocksSame, Next, Represents, Untouched, IsMapped;
      ghost var m, s, k, w := mem, State(), |HoleAddrs(tiles[..i + 1])|, Size(mem, header) + tiles[i + 1].size;
      SizeAt(mem, mapped, tiles, i + 1);
      HoleAt(tiles, i + 1);
      LostHeader(mem, mapped, tiles, i);
      MergeNext(header, k);
      ghost var m1 := Store32(m, header, w);
      StoreWithin(m, HoleAddrs(tiles), header, w, header, tiles[i + 1].End());
      RemoveAtKeeps(s.tiles, k);
      LinksUntouched(m1, mem, list, HoleAddrs(tiles), header, tiles[i + 1].End());
      UntouchedTransitive(m, m1, mem, HoleAddrs(tiles), header, tiles[i + 1].End());
      LostRep(m, mem, mapped, s, i, i + 1);
      tiles := tiles[i + 1 := tiles[i + 1].(kind := Lost)];
    }

    /** merge, once its header (tile i) is in the list. */
    method Merge(header: nat, ghost i: nat)
      requires Valid() && i < |tiles| && tiles[i].kind.Hole? && tiles[i].addr == header
      modifies this`mem, this`holes_list_head, this`holes_list_tail, this`list, this`tiles
      ensures Valid() && tiles == Release(old(tiles), i, old(NullWord()))
      ensures NullWord() == NullAfter(old(tiles), i, old(NullWord()))
      ensures BlocksSame(old(mem), mem, old(tiles), {})
    {
      hide IsList, OnlyLinks, Load32, Sizes, R.Sound, InMemory, IsMapped, HoleAddrs, First, Last, BlocksSame,
           Size, Next, Release, Replace, Tiling;
      ghost var m, ts, joined := mem, tiles, JoinsPrevious(tiles, i);
      MergeTests(mem, mapped, tiles, i);
      MergeBounds(mem, mapped, tiles, i);
      var prev := GetPrev(header);
      var prev_size := GetSize(prev);
      BlocksSameSelf(mem, mapped, tiles);
      if prev + prev_size == header && prev == 0 {
        // merge_previous, with the null pointer for a header
        MergeIntoNull(header, i);
        return;
      }
      ReleaseSteps(ts, i, NullWord());
      if prev + prev_size == header {
        JoinPrevious(header, i);
        PairKeeps(ts, i - 1, tiles[i - 1]);
      }
      ghost var m1, ts1 := mem, tiles;
      var size := GetSize(header);
      var next := GetNext(header);
      if header + size == next {
        JoinNext(header, if joined then i - 1 else i,
                 if joined then [ts1[i - 1], ts[i + 1].(kind := Lost)] else [Join(ts[i], ts[i + 1])]);
        BlocksSameTransitive(m, m1, mem, ts, ts1, {}, {}, {});
      }
    }

    /** The rest of merge after the null pointer passed for the previous hole. */
    method MergeIntoNull(header: nat, ghost i: nat)
      requires Valid() && i < |tiles| && JoinsNull(tiles, i, NullWord()) && tiles[i].kind.Hole?
               && tiles[i].addr == header
      modifies this`mem, this`holes_list_head, this`holes_list_tail, this`list, this`tiles
      ensures Valid() && tiles == Release(old(tiles), i, old(NullWord()))
      ensures NullWord() == NullAfter(old(tiles), i, old(NullWord()))
      ensures BlocksSame(old(mem), mem, old(tiles), {})
    {
      hide IsList, OnlyLinks, Load32, Sizes, R.Sound, InMemory, IsMapped, HoleAddrs, First, Last, BlocksSame,
           Size, Next, Release, Replace, Tiling;
      ghost var m, ts := mem, tiles;
      MergeTests(mem, mapped, tiles, i);
      MergeBounds(mem, mapped, tiles, i);
      ReleaseNullSteps(tiles, i, NullWord());
      JoinNull(header, i);
      ghost var m1, ts1 := mem, tiles;
      NonHolesKept(ts, i);
      var size := GetSize(header);
      var next := GetNext(header);
      if header + size == next {
        LoseNext(header, i);
        BlocksSameTransitive(m, m1, mem, ts, ts1, {}, {header}, {header});
        HoleAlone(ts, i);
        BlocksSameDrop(m, mem, ts, {header}, header);
        assert {header} - {header} == {};
      }
    }

    method Free(ptr: nat)
      requires Valid() && R.IsLive(State(), ptr)
      modifies this`mem, this`holes_list_head, this`holes_list_tail, this`list, this`tiles
      ensures Valid() && State() == R.Free(old(State()), ptr)
      ensures BlocksSame(old(mem), mem, old(tiles), {ptr - SIZE_WORD})
    {
      hide IsList, OnlyLinks, Load32, Sizes, R.Sound, InMemory, IsMapped, HoleAddrs, First, Last, BlocksSame,
           Release, Replace, InsertAt, Fits, Store32;
      ghost var m, s, ts, i := mem, State(), tiles, R.LiveIndex(tiles, ptr - SIZE_WORD);
      FreeFits(mem, mapped, tiles, i);
      ReleaseFreed(tiles, i, NullWord());
      var header := ptr - SIZE_WORD;
      var how_many_bytes := GetSize(header);
      PutSize(header, how_many_bytes);
      InsertToHolesList(header, |HoleAddrs(ts[..i])|);
      FreeRep(m, mem, mapped, s, i);
      tiles := Replace(tiles, i, i + 1, [tiles[i].(kind := Hole)]);
      ghost var m1, ts1 := mem, tiles;
      Merge(header, i);
      BlocksSameTransitive(m, m1, mem, ts, ts1, {header}, {}, {header});
    }

    /** The owner of a block stores a byte into it. */
    method StoreByte(ptr: nat, offset: nat, b: Byte)
      requires Valid() && R.IsLive(State(), ptr)
      requires SIZE_WORD + offset < tiles[R.LiveIndex(tiles, ptr - SIZE_WORD)].size
      modifies this`mem
      ensures Valid() && State() == old(State()) && BlocksSame(old(mem), mem, tiles, {ptr - SIZE_WORD})
      ensures ptr + offset < old(|mem|) && mem == old(mem)[ptr + offset := b]
    {
      hide IsList, Load32, Represents, R.Sound, InMemory, IsMapped, HoleAddrs, BlocksSame;
      ghost var m, i := mem, R.LiveIndex(tiles, ptr - SIZE_WORD);
      SizeAt(mem, mapped, tiles, i);
      mem := mem[ptr + offset := b];
      OwnerStore(m, mem, mapped, tiles, i, ptr + offset, ptr + offset + 1);
    }

    /** memcpy into a live block. */
    method Memcpy(dest: nat, src: nat, n: nat, ghost i: nat)
      requires Valid() && i < |tiles| && tiles[i].kind.Live? && tiles[i].addr + SIZE_WORD <= dest
               && dest + n <= tiles[i].End()
      requires IsMapped(mapped, src, n) && src + n <= |mem| && (src + n <= dest || dest + n <= src)
      modifies this`mem
      ensures Valid() && BlocksSame(old(mem), mem, tiles, {tiles[i].addr}) && NullWord() == old(NullWord())
      ensures |mem| == old(|mem|) && dest + n <= |mem| && mem[dest..dest + n] == old(mem[src..src + n])
    {
      hide IsList, Load32, Represents, R.Sound, InMemory, IsMapped, HoleAddrs, BlocksSame;
      ghost var m := mem;
      hide Untouched;
      SizeAt(mem, mapped, tiles, i);
      UntouchedNothing(m, dest);
      UntouchedWiden(m, m, [], dest, dest, dest, dest + n);
      for k := 0 to n
        modifies this`mem
        invariant Whole(mem) && Untouched(m, mem, [], dest, dest + n)
        invariant mem[dest..dest + k] == m[src..src + k]
      {
        CopyStep(m, mem, dest, src, n, k);
        mem := mem[dest + k := mem[src + k]];
      }
      OwnerStore(m, mem, mapped, tiles, i, dest, dest + n);
    }

    /** The end of realloc: the bytes move to the new block, and the old one is freed. */
    method MoveBlock(ptr: nat, new_place: nat, n: nat)
      requires Valid() && R.IsLive(State(), ptr) && R.IsLive(State(), new_place) && ptr != new_place
      requires n + SIZE_WORD <= tiles[R.LiveIndex(tiles, ptr - SIZE_WORD)].size
      requires n + SIZE_WORD <= tiles[R.LiveIndex(tiles, new_place - SIZE_WORD)].size
      modifies this
      ensures Valid() && State() == R.Free(old(State()), ptr)
      ensures BlocksSame(old(mem), mem, old(tiles), {new_place - SIZE_WORD, ptr - SIZE_WORD})
      ensures new_place + n <= |mem| && ptr + n <= old(|mem|) && mem[new_place..new_place + n] == old(mem)[ptr..ptr + n]
    {
      hide IsList, R.Sound, BlocksSame, Load32, HoleAddrs, R.Free, IsMapped, Represents;
      ghost var m, ts := mem, tiles;
      ghost var i, j := R.LiveIndex(tiles, ptr - SIZE_WORD), R.LiveIndex(tiles, new_place - SIZE_WORD);
      assert ts[i].addr == ptr - SIZE_WORD && ts[j].addr == new_place - SIZE_WORD;
      SizeAt(mem, mapped, tiles, i);
      SizeAt(mem, mapped, tiles, j);
      BlocksApart(mem, mapped, tiles, i, j);
      IsMappedPart(mapped, ptr - SIZE_WORD, tiles[i].size, ptr, n);
      Memcpy(new_place, ptr, n, j);
      ghost var m1 := mem;
      Free(ptr);
      SliceSame(m1, mem, ts, j, {ptr - SIZE_WORD}, new_place, n);
      BlocksSameAgain(m, m1, mem, ts, new_place - SIZE_WORD, ptr - SIZE_WORD);
    }

    method Realloc(ptr: nat, new_size: nat, frames: seq<seq<Byte>>) returns (p: nat)
      requires Valid() && (ptr != 0 ==> R.IsLive(State(), ptr)) && R.MallocAllowed(State(), new_size, |frames|)
      requires forall i :: 0 <= i < |frames| ==> |frames[i]| == PAGE
      modifies this
      ensures Valid() <==> !R.LosesHoles(old(State()), new_size, |frames|)
      ensures ptr != 0 && new_size != 0 && R.Malloc(old(State()), new_size, |frames|).1 != 0 ==>
                R.IsLive(R.Malloc(old(State()), new_size, |frames|).0, ptr)
      ensures (State(), p) == R.Realloc(old(State()), ptr, new_size, |frames|)
      ensures var moved := ptr != 0 && (new_size == 0 || p != 0);
              BlocksSame(old(mem), mem, old(tiles), if moved then {ptr - SIZE_WORD} else {})
      ensures ptr != 0 && p != 0 ==>
                var n := Min(old(tiles[R.LiveIndex(tiles, ptr - SIZE_WORD)].size) - SIZE_WORD, new_size);
                p + n <= |mem| && ptr + n <= old(|mem|) && mem[p..p + n] == old(mem)[ptr..ptr + n]
    {
      hide Represents, R.Sound, BlocksSame, Load32, HoleAddrs, IsList, R.MallocAllowed, R.Malloc, R.Free,
           IsMapped, Tiling, R.LiveIndex, R.NeedsExtension, R.LosesHoles;
      if ptr == 0 {
        p := Malloc(new_size, frames);
        return;
      } else if new_size == 0 {
        R.NothingLost(State(), |frames|);
        Free(ptr);
        return 0;
      }
      ghost var s, m, i := State(), mem, R.LiveIndex(tiles, ptr - SIZE_WORD);
      SizeAt(mem, mapped, tiles, i);
      R.ReallocTiles(s, ptr, new_size, |frames|);
      var old_size := GetSize(ptr - SIZE_WORD);
      old_size := old_size - SIZE_WORD;
      p := Malloc(new_size, frames);
      if p == 0 {
        return;
      }
      ghost var m1, ts1 := mem, tiles;
      var bytes_to_copy := if new_size > old_size then old_size else new_size;
      SliceSame(m, m1, s.tiles, i, {}, ptr, bytes_to_copy);
      MoveBlock(ptr, p, bytes_to_copy);
      ghost var both := {p - SIZE_WORD, ptr - SIZE_WORD};
      BlocksSameTransitive(m, m1, mem, s.tiles, ts1, {}, both, both);
      BlocksSameDrop(m, mem, s.tiles, both, p - SIZE_WORD);
      assert both - {p - SIZE_WORD} == {ptr - SIZE_WORD};
    }
  }
}
