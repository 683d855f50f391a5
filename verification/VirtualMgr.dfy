/** The virtual memory manager: it edits page tables through the addresses the page_etable gives them. */
module VirtualMgr {
  import opened Words
  import opened Bitmap
  import P = PhysicalMgr
  import E = PagingEntry
  import opened Paging
  import FrameRuns

  /** Frame f of so many lies inside the kernel's image, in the first 4 MB. */
  predicate InImage(f: nat, frames: nat, kernel_start: nat, kernel_end: nat) {
    f < frames && f < KERNEL_PAGES && kernel_start <= f * E.PAGE_SIZE && (f + 1) * E.PAGE_SIZE <= kernel_end
  }

  class VirtualMgr {
    const pmm: P.PhysicalMgr
    /** The frames of the two static tables. */
    const page_directory: nat
    const page_etable: nat
    /** The frame of the active directory. */
    var cr3: nat
    /** Physical memory, frame by frame. */
    var phys: Frames

    /** The machine as booting leaves it: its own directory active, the kernel's two tables somewhere in memory. */
    constructor (pmm: P.PhysicalMgr, page_directory: nat, page_etable: nat, boot_directory: nat, memory: Frames)
      ensures this.pmm == pmm && this.page_directory == page_directory && this.page_etable == page_etable
      ensures cr3 == boot_directory && phys == memory
    {
      this.pmm, this.page_directory, this.page_etable := pmm, page_directory, page_etable;
      cr3, phys := boot_directory, memory;
    }

    /** Every frame in use as a table is marked used, so allocate_block never gives it out. */
    ghost predicate TablesUsed() reads this, pmm.bitmap
      requires Coherent(phys, page_directory, page_etable, cr3)
    {
      && 0 < Blocks(pmm.bitmap[..]) <= |phys| && Used(pmm.bitmap[..], 0)
      && forall f :: 0 <= f < Blocks(pmm.bitmap[..]) && !Used(pmm.bitmap[..], f) ==>
         Unused(phys, page_directory, page_etable, cr3, f)
    }

    ghost predicate Valid() reads this, pmm.bitmap {
      && pmm.Valid()
      && Coherent(phys, page_directory, page_etable, cr3)
      && TablesUsed()
    }

    ghost predicate Missing(v: nat) reads this
      requires Coherent(phys, page_directory, page_etable, cr3)
    {
      !E.Present(phys[page_etable][DirectoryIndex(v)])
    }

    /** A store through the active tables. */
    method StoreVirtual(va: nat, w: nat, ghost f: nat)
      requires cr3 < |phys| && |phys[cr3]| == ENTRIES && va % 4 == 0
      requires Walk(phys, cr3, va).Some? && f == FrameNumber(Walk(phys, cr3, va).value) < |phys| && |phys[f]| == ENTRIES
      modifies this`phys
      ensures phys == SetWord(old(phys), f, va % E.PAGE_SIZE / 4, w)
    {
      var frame := FrameNumber(Walk(phys, cr3, va).value);
      phys := SetWord(phys, frame, va % E.PAGE_SIZE / 4, w);
    }

    /** memset of a whole page to 0, through the active tables. */
    method ZeroPage(va: nat, ghost f: nat)
      requires cr3 < |phys| && |phys[cr3]| == ENTRIES
      requires Walk(phys, cr3, va).Some? && f == FrameNumber(Walk(phys, cr3, va).value) < |phys|
      modifies this`phys
      ensures phys == old(phys)[f := Zeros()]
    {
      var frame := FrameNumber(Walk(phys, cr3, va).value);
      phys := phys[frame := Zeros()];
    }

    /** The frame of the address that allocate_block returns: null is the address of frame 0. */
    ghost function FrameGiven(): nat reads pmm.bitmap {
      var b := P.Allocate(pmm.bitmap[..]).1;
      if b < Blocks(pmm.bitmap[..]) then b else 0
    }

    /** The branch of map that creates a page table. The tables stay coherent exactly when the frame it gets is
        no table already, which only frame 0 can be. */
    method CreatePageTable(index: nat)
      requires Valid() && index < ETABLE_INDEX && !E.Present(phys[page_etable][index])
      modifies this`phys, pmm.bitmap
      ensures |phys| == old(|phys|) && pmm.bitmap[..] == P.Allocate(old(pmm.bitmap[..])).0
      ensures old(FrameGiven()) < |phys|
              && phys == Ensure(old(phys), page_directory, page_etable, index, old(FrameGiven()))
      ensures Valid() <==> Unused(old(phys), page_directory, page_etable, cr3, old(FrameGiven()))
      ensures Valid() <== P.Allocate(old(pmm.bitmap[..])).1 < Blocks(old(pmm.bitmap[..]))
    {
      hide E.Entry, E.Present, P.LowestClear, Walk, TableAddress, SetWord, FrameNumber, Zeros, P.LowestTaken, P.AllUsed,
           GrantsAll;
      ghost var before, cells, f := phys, pmm.bitmap[..], FrameGiven();
      var page_table_addr := pmm.AllocateBlock();
      assert page_table_addr == f * E.PAGE_SIZE;
      EnteredWalk(phys, page_directory, page_etable, cr3, index, f);
      EnsureExactly(phys, page_directory, page_etable, cr3, index, f);
      var e := new E.PagingEntry(true, true, true, page_table_addr);
      phys := SetWord(phys, page_etable, index, e.entry);
      var d := new E.PagingEntry(true, true, true, page_table_addr);
      E.DirectoryEntry(page_table_addr);
      d.Set4mbPageSize(false);
      phys := SetWord(phys, page_directory, index, d.entry);
      ZeroPage(TableAddress(index), f);
      if P.Allocate(cells).1 < Blocks(cells) {
        AllocatedUnused(before, page_directory, page_etable, cr3, index, cells, f);
        UsedOfPut(cells, f, true, 0);
      }
    }

    /** Without a free frame, a missing page table is put into frame 0 if that is no table yet. */
    method Map(v_addr: nat, p_addr: nat, requires_supervisor: bool)
      requires Valid() && v_addr < WORD_LIMIT && p_addr < WORD_LIMIT
      requires v_addr % E.PAGE_SIZE == 0 && p_addr % E.PAGE_SIZE == 0 && DirectoryIndex(v_addr) != ETABLE_INDEX
      requires Missing(v_addr) ==> Unused(phys, page_directory, page_etable, cr3, FrameGiven())
      modifies this`phys, pmm.bitmap
      ensures Valid() && |phys| == old(|phys|)
      ensures pmm.bitmap[..] == if old(Missing(v_addr)) then P.Allocate(old(pmm.bitmap[..])).0 else old(pmm.bitmap[..])
      ensures var f := old(FrameGiven());
              && f < |phys|
              && (old(Missing(v_addr)) ==> Unused(old(phys), page_directory, page_etable, cr3, f))
              && phys == Paging.Map(old(phys), page_directory, page_etable, cr3, v_addr, p_addr, requires_supervisor, f)
    {
      hide E.Entry, E.Present, P.LowestClear, Walk, TableAddress, SetWord, FrameNumber;
      var index_in_page_directory := DirectoryIndex(v_addr);
      var index_in_page_table := TableIndex(v_addr);
      var etable_entry := new E.PagingEntry.FromBytes(phys[page_etable][index_in_page_directory]);
      var present := etable_entry.GetPresent();
      if !present {
        EnsureCoherent(phys, page_directory, page_etable, cr3, index_in_page_directory, FrameGiven());
        CreatePageTable(index_in_page_directory);
      }
      ghost var t := PageTable(phys, page_etable, index_in_page_directory);
      ghost var w := E.Entry(true, true, requires_supervisor, p_addr);
      EntryAddress(phys, page_directory, page_etable, cr3, index_in_page_directory, index_in_page_table);
      SetCoherent(phys, page_directory, page_etable, cr3, index_in_page_directory, index_in_page_table, w);
      var page_table_entry := new E.PagingEntry(true, true, requires_supervisor, p_addr);
      StoreVirtual(TableAddress(index_in_page_directory) + 4 * index_in_page_table, page_table_entry.entry, t);
    }

    /** The frames allocate_block can still give. */
    ghost function FreeFrames(): nat reads this, pmm.bitmap {
      FrameRuns.ClearCount(pmm.bitmap[..], Blocks(pmm.bitmap[..]))
    }

    method MapRange(v: nat, p: nat, count: nat, requires_supervisor: bool)
      requires Valid() && v % E.PAGE_SIZE == 0 && p % E.PAGE_SIZE == 0
      requires v + count * E.PAGE_SIZE <= ETABLE_INDEX * TABLE_SPAN && p + count * E.PAGE_SIZE <= WORD_LIMIT
      requires FreeFrames() >= MissingTables(phys[page_etable], v / TABLE_SPAN, LastTable(v, count))
      modifies this`phys, pmm.bitmap
      ensures Valid() && |phys| == old(|phys|)
      ensures RangeMapped(old(phys), phys, page_directory, v, p, count, requires_supervisor)
      ensures FreeFrames() + MissingTables(old(phys[page_etable]), v / TABLE_SPAN, LastTable(v, count)) >=
              old(FreeFrames())
    {
      hide E.Entry, E.Present, Walk, Coherent, WellFormed, Paging.Map, RangeMapped, DirectoryIndex,
           MissingTables, FrameRuns.ClearCount, Unused, Used;
      TableSizes(phys, page_directory, page_etable, cr3);
      RangeStart(phys, page_directory, v, p, requires_supervisor);
      var v_addr, p_addr := v, p;
      ghost var b := LastTable(v, count);
      ghost var free, missing := FreeFrames(), MissingTables(phys[page_etable], v / TABLE_SPAN, b);
      for i := 0 to count
        invariant Valid() && |phys| == old(|phys|) && |phys[page_directory]| == |phys[page_etable]| == ENTRIES
        invariant v_addr == v + i * E.PAGE_SIZE && p_addr == p + i * E.PAGE_SIZE
        invariant RangeMapped(old(phys), phys, page_directory, v, p, i, requires_supervisor)
        invariant FreeFrames() - MissingTables(phys[page_etable], v_addr / TABLE_SPAN, b) >= free - missing
      {
        ghost var before, cells := phys, pmm.bitmap[..];
        PageInRange(v, count, i);
        FrameRuns.AllocateCount(cells);
        MissingHere(phys[page_etable], DirectoryIndex(v_addr), b);
        ghost var f := FrameGiven();
        Map(v_addr, p_addr, requires_supervisor);
        RangeStep(old(phys), before, page_directory, page_etable, cr3, v, p, i, requires_supervisor, f);
        MapMissing(before, page_directory, page_etable, cr3, v_addr, p_addr, requires_supervisor, f, b);
        TableSizes(phys, page_directory, page_etable, cr3);
        v_addr := v_addr + E.PAGE_SIZE;
        p_addr := p_addr + E.PAGE_SIZE;
      }
    }

    /** The active directory is mapped at its own physical address. */
    ghost predicate IdentityMapped() reads this {
      && cr3 < |phys| && |phys[cr3]| == ENTRIES && cr3 < 0x10_0000
      && Walk(phys, cr3, cr3 * E.PAGE_SIZE + 4 * ETABLE_INDEX).Some?
      && FrameNumber(Walk(phys, cr3, cr3 * E.PAGE_SIZE + 4 * ETABLE_INDEX).value) == cr3
    }

    method PutPageEtable()
      requires IdentityMapped() && page_etable < 0x10_0000
      modifies this`phys
      ensures phys == SetWord(old(phys), cr3, ETABLE_INDEX, E.Entry(true, true, true, page_etable * E.PAGE_SIZE))
    {
      hide E.Entry, E.PutFlag, Walk;
      assert (cr3 * E.PAGE_SIZE + 4 * ETABLE_INDEX) % E.PAGE_SIZE == 4 * ETABLE_INDEX;
      var d := new E.PagingEntry(true, true, true, page_etable * E.PAGE_SIZE);
      E.DirectoryEntry(page_etable * E.PAGE_SIZE);
      d.Set4mbPageSize(false);
      StoreVirtual(cr3 * E.PAGE_SIZE + 4 * ETABLE_INDEX, d.entry, cr3);
    }

    /** What booting leaves: the boot code's directory is active, the kernel's two tables are frames of their own
        in the first 4 MB, and no table can be handed out. The kernel's directory is zero, being a static variable. */
    ghost predicate Booted() reads this, pmm.bitmap {
      && pmm.Valid() && WellFormed(phys)
      && page_directory < |phys| && page_etable < |phys| && cr3 < |phys|
      && page_directory != page_etable && page_directory != cr3 && page_etable != cr3
      && page_directory < KERNEL_PAGES && page_etable < KERNEL_PAGES && cr3 < KERNEL_PAGES
      && phys[cr3] == BootDirectory() && phys[page_directory] == Zeros()
      && 0 < Blocks(pmm.bitmap[..]) <= |phys| && Used(pmm.bitmap[..], 0)
      && (forall f :: 0 <= f < Blocks(pmm.bitmap[..]) && !Used(pmm.bitmap[..], f) ==>
         f !in {page_directory, page_etable, cr3})
    }

    /** The boot directory maps itself at its own physical address, and the page_etable at the kernel's base. */
    lemma BootedIsMapped()
      requires Booted()
      ensures IdentityMapped()
      ensures var w := Walk(phys, cr3, KERNEL_VIRTUAL_BASE + page_etable * E.PAGE_SIZE);
              w.Some? && FrameNumber(w.value) == page_etable
    {
      hide Walk, BootDirectory;
      BootFrame(phys, cr3, 0, cr3, 4 * ETABLE_INDEX);
      BootFrame(phys, cr3, KERNEL_VIRTUAL_BASE, page_etable, 0);
    }

    /** The bitmap that fill_bitmap leaves is a booted one, if the tables lie inside the kernel's image; two
        blocks beside the reserved ones are enough to initialize. */
    lemma FilledIsBooted(bitmap_address: nat, kernel_start: nat, kernel_end: nat, a: nat, b: nat)
      requires pmm.Valid() && WellFormed(phys) && kernel_start <= kernel_end
      requires InImage(page_directory, |phys|, kernel_start, kernel_end)
      requires InImage(page_etable, |phys|, kernel_start, kernel_end)
      requires InImage(cr3, |phys|, kernel_start, kernel_end)
      requires page_directory != page_etable && page_directory != cr3 && page_etable != cr3
      requires phys[cr3] == BootDirectory() && phys[page_directory] == Zeros() && Blocks(pmm.bitmap[..]) <= |phys|
      requires var size := kernel_end - kernel_start;
               var reserved := P.Reserved(bitmap_address, 4 * pmm.bitmap.Length, kernel_start, size);
               && (forall c :: 0 <= c < Blocks(pmm.bitmap[..]) ==> (Used(pmm.bitmap[..], c) <==> c in reserved))
               && a < b < Blocks(pmm.bitmap[..]) && a !in reserved && b !in reserved
      ensures Booted() && FreeFrames() >= 2
    {
      hide Used, FrameRuns.ClearCount;
      FrameRuns.TwoClear(pmm.bitmap[..], a, b);
      var reserved := P.Reserved(bitmap_address, 4 * pmm.bitmap.Length, kernel_start, kernel_end - kernel_start);
      forall f | f in {page_directory, page_etable, cr3} ensures f in reserved {
        assert P.Touches(kernel_start, kernel_end - kernel_start, f);
      }
      assert P.Touches(0, P.USABLE_MEMORY_START, 0);
    }

    method Initialize()
      requires Booted() && FreeFrames() >= 2
      modifies this`phys, this`cr3, pmm.bitmap
      ensures Valid() && cr3 == page_directory
      ensures forall u: nat :: u < WORD_LIMIT && DirectoryIndex(u) != ETABLE_INDEX ==>
                Walk(phys, page_directory, u) == KernelWalk(u)
    {
      hide E.Entry, E.Present, FrameRuns.ClearCount, MissingTables, RangeMapped, Walk, Coherent;
      ghost var m := phys;
      BootedIsMapped();
      ZeroPage(KERNEL_VIRTUAL_BASE + page_etable * E.PAGE_SIZE, page_etable);
      BootFrame(phys, cr3, 0, cr3, 4 * ETABLE_INDEX);
      PutPageEtable();
      ghost var m0 := phys;
      FirstCoherent(m, page_directory, page_etable, cr3);
      MissingBound(phys[page_etable], 768, 769);
      MapRange(KERNEL_VIRTUAL_BASE, 0, KERNEL_PAGES, true);
      ghost var m1 := phys;
      TableSizes(phys, page_directory, page_etable, cr3);
      MissingBound(phys[page_etable], 0, 1);
      MapRange(0, 0, KERNEL_PAGES, true);
      ghost var m2 := phys;
      TableSizes(phys, page_directory, page_etable, cr3);
      BothRanges(m0, m1, m2, page_directory);
      SwitchCoherent(phys, page_directory, page_etable, cr3);
      cr3 := page_directory;
      PutPageEtable();
    }
  }
}
