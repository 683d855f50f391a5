/**
 Two-level translation tables in physical memory, as the processor walks them (Intel SDM Volume 3A,
 section 4.3, "32-Bit Paging"), and what VirtualMgr::map does to them.

 Frame f of physical memory is a table of 1024 words. The frame `etab` is reached through entry 1023
 of the active directory, so it doubles as the page table of the last 4 MB of the address space.
 */
module Paging {
  import opened Words
  import opened Bits
  import opened Bitmap
  import opened PagingEntry

  const ENTRIES: nat := 1024
  const ETABLE_INDEX: nat := 1023
  const TABLE_SPAN: nat := 0x40_0000

  type Table = seq<nat>

  type Frames = seq<Table>

  ghost predicate WellFormed(phys: Frames) {
    |phys| <= 0x10_0000 && forall f :: 0 <= f < |phys| ==> |phys[f]| == ENTRIES
  }

  function DirectoryIndex(va: nat): nat { va / TABLE_SPAN % ENTRIES }

  function TableIndex(va: nat): nat { va / PAGE_SIZE % ENTRIES }

  /** The frame number in an entry. */
  function FrameNumber(e: nat): nat { Frame(e) / PAGE_SIZE }

  /** The frame of the page table for directory entry i. */
  function WalkDirectory(phys: Frames, dir: nat, i: nat): Option<nat>
    requires dir < |phys| && i < |phys[dir]|
  {
    if Present(phys[dir][i]) && !IsLarge(phys[dir][i]) then Some(FrameNumber(phys[dir][i])) else None
  }

  /** The page table entry that would map the j-th page of a 4 MB page as its directory entry does. */
  function LargePart(e: nat, j: nat): nat {
    Entry(true, Writeable(e), RequiresSupervisor(e), e - e % TABLE_SPAN + j * PAGE_SIZE)
  }

  /** What the directory entry e grants of the page table entry w: section 4.6 of the same volume allows writes, and
      accesses from user mode, only if both entries do. */
  function Granted(e: nat, w: nat): nat {
    var w1 := if Writeable(e) then w else ClearBit(w, WRITABLE);
    if RequiresSupervisor(e) then w1 else ClearBit(w1, REQUIRES_SUPERVISOR)
  }

  /** The page table entry that translates an address, if it is mapped, with the rights that are granted. */
  function Walk(phys: Frames, dir: nat, va: nat): Option<nat>
    requires dir < |phys| && |phys[dir]| == ENTRIES
  {
    var e := phys[dir][DirectoryIndex(va)];
    if !Present(e) then None
    else if IsLarge(e) then Some(LargePart(e, TableIndex(va)))
    else
      var t := FrameNumber(e);
      if t < |phys| && |phys[t]| == ENTRIES && Present(phys[t][TableIndex(va)]) then
        Some(Granted(e, phys[t][TableIndex(va)]))
      else None
  }

  /** get_page_table_virtual_address */
  function TableAddress(i: nat): nat {
    i * PAGE_SIZE + ETABLE_INDEX * TABLE_SPAN
  }

  function SetWord(phys: Frames, f: nat, i: nat, w: nat): (phys': Frames)
    requires f < |phys| && i < |phys[f]|
    ensures |phys'| == |phys| && forall g :: 0 <= g < |phys| ==> |phys'[g]| == |phys[g]|
  {
    var t: Table := phys[f][i := w];
    phys[f := t]
  }

  function Zeros(): Table { seq(ENTRIES, _ => 0) }

  /** Frame f entered as page table i, in the page_etable and in the directory. */
  function Enter(phys: Frames, dir: nat, etab: nat, i: nat, f: nat): Frames
    requires WellFormed(phys) && dir < |phys| && etab < |phys| && i < ENTRIES
  {
    var e := Entry(true, true, true, f * PAGE_SIZE);
    SetWord(SetWord(phys, etab, i, e), dir, i, e)
  }

  /** The tables once directory entry i has a page table: a fresh zeroed frame, if it had none. */
  function Ensure(phys: Frames, dir: nat, etab: nat, i: nat, fresh_frame: nat): Frames
    requires WellFormed(phys) && dir < |phys| && etab < |phys| && i < ENTRIES && fresh_frame < |phys|
  {
    if Present(phys[etab][i]) then phys else Enter(phys, dir, etab, i, fresh_frame)[fresh_frame := Zeros()]
  }

  /** The entry restricts none of the rights that page table entries give. */
  predicate GrantsAll(e: nat) {
    Writeable(e) && RequiresSupervisor(e)
  }

  /** The directory and the page_etable name the same page tables, one each, in frames of their own, and restrict no
      access to them. */
  ghost predicate Coherent(phys: Frames, dir: nat, etab: nat, cr3: nat) {
    && WellFormed(phys)
    && dir < |phys| && etab < |phys| && cr3 < |phys| && dir != etab && cr3 != etab
    && WalkDirectory(phys, cr3, ETABLE_INDEX) == Some(etab) && GrantsAll(phys[cr3][ETABLE_INDEX])
    && (forall i {:trigger phys[etab][i]} {:trigger phys[dir][i]} :: 0 <= i < ETABLE_INDEX ==>
          && Present(phys[etab][i]) == Present(phys[dir][i])
          && (Present(phys[etab][i]) ==>
               && !IsLarge(phys[dir][i]) && GrantsAll(phys[dir][i])
               && phys[etab][i] == phys[dir][i] && FrameNumber(phys[dir][i]) < |phys|
               && FrameNumber(phys[etab][i]) !in {dir, etab, cr3}))
    && (forall i, j {:trigger phys[etab][i], phys[etab][j]} ::
          0 <= i < j < ETABLE_INDEX && Present(phys[etab][i]) && Present(phys[etab][j]) ==>
            FrameNumber(phys[etab][i]) != FrameNumber(phys[etab][j]))
  }

  /** The frame is none of the tables. */
  ghost predicate Unused(phys: Frames, dir: nat, etab: nat, cr3: nat, f: nat)
    requires Coherent(phys, dir, etab, cr3)
  {
    && f < |phys| && f !in {dir, etab, cr3}
    && forall i :: 0 <= i < ETABLE_INDEX && Present(phys[etab][i]) ==> FrameNumber(phys[etab][i]) != f
  }

  lemma TableEntry(frame: nat, supervisor: bool)
    requires frame < 0x10_0000
    ensures var e := Entry(true, true, supervisor, frame * PAGE_SIZE);
            e < WORD_LIMIT && Present(e) && !IsLarge(e) && Writeable(e) && RequiresSupervisor(e) == supervisor
              && FrameNumber(e) == frame
  {
    EntryFields(true, true, supervisor, frame * PAGE_SIZE);
  }

  /** The address of page table i walks to that very page table, through whichever directory is active. */
  lemma SelfMap(phys: Frames, dir: nat, etab: nat, cr3: nat, i: nat)
    requires Coherent(phys, dir, etab, cr3) && i < ETABLE_INDEX
    ensures DirectoryIndex(TableAddress(i)) == ETABLE_INDEX && TableIndex(TableAddress(i)) == i
    ensures Walk(phys, cr3, TableAddress(i)) ==
            if Present(phys[etab][i]) then Some(phys[etab][i]) else None
    ensures WalkDirectory(phys, dir, i) == if Present(phys[etab][i]) then Some(FrameNumber(phys[etab][i])) else None
  {
    assert TableAddress(i) / TABLE_SPAN == ETABLE_INDEX;
    assert TableAddress(i) / PAGE_SIZE == i + ETABLE_INDEX * ENTRIES;
    assert TableIndex(TableAddress(i)) == i;
  }

  lemma EnterCoherent(phys: Frames, dir: nat, etab: nat, cr3: nat, i: nat, f: nat)
    requires Coherent(phys, dir, etab, cr3) && i < ETABLE_INDEX && !Present(phys[etab][i])
             && Unused(phys, dir, etab, cr3, f)
    ensures var phys' := Enter(phys, dir, etab, i, f);
            && |phys'| == |phys| && Coherent(phys', dir, etab, cr3)
            && Present(phys'[etab][i]) && FrameNumber(phys'[etab][i]) == f
            && phys'[etab] == phys[etab][i := Entry(true, true, true, f * PAGE_SIZE)]
  {
    TableEntry(f, true);
    var phys' := Enter(phys, dir, etab, i, f);
    var e := Entry(true, true, true, f * PAGE_SIZE);
    assert phys'[etab] == phys[etab][i := e];
    assert phys'[dir] == phys[dir][i := e];
    assert phys'[cr3] == if cr3 == dir then phys[dir][i := e] else phys[cr3];
  }

  lemma EnsureCoherent(phys: Frames, dir: nat, etab: nat, cr3: nat, i: nat, f: nat)
    requires Coherent(phys, dir, etab, cr3) && i < ETABLE_INDEX
    requires !Present(phys[etab][i]) ==> Unused(phys, dir, etab, cr3, f)
    requires f < |phys|
    ensures var phys' := Ensure(phys, dir, etab, i, f);
            && |phys'| == |phys|
            && Coherent(phys', dir, etab, cr3) && Present(phys'[etab][i])
  {
    if !Present(phys[etab][i]) {
      EnterCoherent(phys, dir, etab, cr3, i, f);
      var phys1 := Enter(phys, dir, etab, i, f);
      var phys' := phys1[f := Zeros()];
      assert phys'[etab] == phys1[etab] && phys'[dir] == phys1[dir] && phys'[cr3] == phys1[cr3];
    }
  }

  /** Creating a page table keeps the tables coherent exactly when its frame is not a table already. */
  lemma EnsureExactly(phys: Frames, dir: nat, etab: nat, cr3: nat, i: nat, f: nat)
    requires Coherent(phys, dir, etab, cr3) && i < ETABLE_INDEX && !Present(phys[etab][i]) && f < |phys|
    ensures Coherent(Ensure(phys, dir, etab, i, f), dir, etab, cr3) <==> Unused(phys, dir, etab, cr3, f)
  {
    if Unused(phys, dir, etab, cr3, f) {
      EnsureCoherent(phys, dir, etab, cr3, i, f);
    } else {
      TakenTable(phys, dir, etab, cr3, i, f);
    }
  }

  /** A frame that is a table already: entered once more and erased. */
  lemma TakenTable(phys: Frames, dir: nat, etab: nat, cr3: nat, i: nat, f: nat)
    requires Coherent(phys, dir, etab, cr3) && i < ETABLE_INDEX && !Present(phys[etab][i]) && f < |phys|
    requires !Unused(phys, dir, etab, cr3, f)
    ensures !Coherent(Ensure(phys, dir, etab, i, f), dir, etab, cr3)
  {
    TableEntry(f, true);
    NoBits(PRESENT);
    var e, phys' := Entry(true, true, true, f * PAGE_SIZE), Ensure(phys, dir, etab, i, f);
    assert phys'[dir][i] == if f == dir then 0 else e;
    assert phys'[etab][i] == if f == etab then 0 else e;
    if f !in {dir, etab, cr3} {
      var j :| 0 <= j < ETABLE_INDEX && Present(phys[etab][j]) && FrameNumber(phys[etab][j]) == f;
      assert phys'[etab][j] == phys[etab][j];
    }
  }

  /** The new table's address walks to its frame, whatever frame that is. */
  lemma EnteredWalk(phys: Frames, dir: nat, etab: nat, cr3: nat, i: nat, f: nat)
    requires Coherent(phys, dir, etab, cr3) && i < ETABLE_INDEX && f < |phys|
    ensures var phys' := Enter(phys, dir, etab, i, f);
            && |phys'| == |phys| && |phys'[cr3]| == ENTRIES && |phys'[f]| == ENTRIES
            && var w := Walk(phys', cr3, TableAddress(i)); w.Some? && FrameNumber(w.value) == f
  {
    TableEntry(f, true);
    SelfMap(phys, dir, etab, cr3, i);
    var e, phys' := Entry(true, true, true, f * PAGE_SIZE), Enter(phys, dir, etab, i, f);
    assert phys'[etab][i] == e;
    assert phys'[cr3][ETABLE_INDEX] == phys[cr3][ETABLE_INDEX];
  }

  /** Creating a page table keeps the tables coherent exactly when it is not for the last directory entry:
      there it would take the place of the page_etable. */
  lemma EnsureKeepsCoherence(phys: Frames, dir: nat, etab: nat, i: nat, f: nat)
    requires Coherent(phys, dir, etab, dir) && i < ENTRIES && !Present(phys[etab][i]) && Unused(phys, dir, etab, dir, f)
    ensures Coherent(Ensure(phys, dir, etab, i, f), dir, etab, dir) <==> i != ETABLE_INDEX
  {
    if i == ETABLE_INDEX {
      TableEntry(f, true);
      var phys' := Ensure(phys, dir, etab, i, f);
      assert phys'[dir] == phys[dir][i := Entry(true, true, true, f * PAGE_SIZE)];
      assert WalkDirectory(phys', dir, ETABLE_INDEX) == Some(f);
    } else {
      EnsureCoherent(phys, dir, etab, dir, i, f);
    }
  }

  /** The page table in charge of directory entry i. */
  function PageTable(phys: Frames, etab: nat, i: nat): nat
    requires etab < |phys| && i < |phys[etab]|
  {
    FrameNumber(phys[etab][i])
  }

  /** map(v, p, supervisor), with the frame that allocate_block gives when a page table is missing. */
  ghost function Map(phys: Frames, dir: nat, etab: nat, cr3: nat, v: nat, p: nat, supervisor: bool,
      fresh_frame: nat): Frames
    requires Coherent(phys, dir, etab, cr3) && DirectoryIndex(v) != ETABLE_INDEX
    requires fresh_frame < |phys|
             && (!Present(phys[etab][DirectoryIndex(v)]) ==> Unused(phys, dir, etab, cr3, fresh_frame))
  {
    EnsureCoherent(phys, dir, etab, cr3, DirectoryIndex(v), fresh_frame);
    var phys' := Ensure(phys, dir, etab, DirectoryIndex(v), fresh_frame);
    SetWord(phys', PageTable(phys', etab, DirectoryIndex(v)), TableIndex(v), Entry(true, true, supervisor, p))
  }

  /** Creating a page table maps nothing and unmaps nothing. */
  lemma EnsureWalk(phys: Frames, dir: nat, etab: nat, cr3: nat, i: nat, f: nat, u: nat)
    requires Coherent(phys, dir, etab, cr3) && i < ETABLE_INDEX && DirectoryIndex(u) != ETABLE_INDEX
    requires f < |phys| && (!Present(phys[etab][i]) ==> Unused(phys, dir, etab, cr3, f))
    ensures var phys' := Ensure(phys, dir, etab, i, f);
            && Coherent(phys', dir, etab, cr3)
            && Walk(phys', dir, u) == Walk(phys, dir, u)
  {
    EnsureCoherent(phys, dir, etab, cr3, i, f);
    if !Present(phys[etab][i]) {
      var phys' := Ensure(phys, dir, etab, i, f);
      var k, e := DirectoryIndex(u), Entry(true, true, true, f * PAGE_SIZE);
      TableEntry(f, true);
      assert phys'[dir] == phys[dir][i := e];
      assert phys'[f] == Zeros();
      assert Present(phys[etab][k]) == Present(phys[dir][k]);
      if k != i && Present(phys[dir][k]) {
        assert phys'[FrameNumber(phys[dir][k])] == phys[FrameNumber(phys[dir][k])];
      }
    }
  }

  /** Writing one entry of a page table changes the translation of exactly one page. */
  lemma SetWalk(phys: Frames, dir: nat, etab: nat, cr3: nat, v: nat, w: nat, u: nat)
    requires Coherent(phys, dir, etab, cr3) && DirectoryIndex(v) != ETABLE_INDEX && DirectoryIndex(u) != ETABLE_INDEX
    requires Present(phys[etab][DirectoryIndex(v)]) && Present(w)
    ensures var phys' := SetWord(phys, PageTable(phys, etab, DirectoryIndex(v)), TableIndex(v), w);
            && Coherent(phys', dir, etab, cr3)
            && Walk(phys', dir, u) ==
               if DirectoryIndex(u) == DirectoryIndex(v) && TableIndex(u) == TableIndex(v) then Some(w)
               else Walk(phys, dir, u)
  {
    var i, k := DirectoryIndex(v), DirectoryIndex(u);
    var t := PageTable(phys, etab, i);
    var phys' := SetWord(phys, t, TableIndex(v), w);
    assert Present(phys[dir][i]) && FrameNumber(phys[dir][i]) == t;
    assert phys'[dir] == phys[dir] && phys'[etab] == phys[etab] && phys'[cr3] == phys[cr3];
    assert Present(phys[etab][k]) == Present(phys[dir][k]);
    if Present(phys[dir][k]) && k != i {
      assert FrameNumber(phys[etab][k]) != t;
    }
  }

  lemma SamePage(u: nat, v: nat)
    requires u < WORD_LIMIT && v < WORD_LIMIT
    ensures u / PAGE_SIZE == v / PAGE_SIZE <==> DirectoryIndex(u) == DirectoryIndex(v) && TableIndex(u) == TableIndex(v)
  {
    assert u / TABLE_SPAN == u / PAGE_SIZE / ENTRIES && v / TABLE_SPAN == v / PAGE_SIZE / ENTRIES;
  }

  /** map refines the update of one page in the map from pages to entries. */
  lemma MapWalks(phys: Frames, dir: nat, etab: nat, cr3: nat, v: nat, p: nat, supervisor: bool, f: nat, u: nat)
    requires Coherent(phys, dir, etab, cr3) && v < WORD_LIMIT && DirectoryIndex(v) != ETABLE_INDEX
    requires p < WORD_LIMIT && p % PAGE_SIZE == 0
    requires f < |phys| && (!Present(phys[etab][DirectoryIndex(v)]) ==> Unused(phys, dir, etab, cr3, f))
    requires u < WORD_LIMIT && DirectoryIndex(u) != ETABLE_INDEX
    ensures var phys' := Map(phys, dir, etab, cr3, v, p, supervisor, f);
            && |phys'| == |phys|
            && Coherent(phys', dir, etab, cr3)
            && Walk(phys', dir, u) ==
               if u / PAGE_SIZE == v / PAGE_SIZE then Some(Entry(true, true, supervisor, p)) else Walk(phys, dir, u)
  {
    var phys' := Ensure(phys, dir, etab, DirectoryIndex(v), f);
    EnsureCoherent(phys, dir, etab, cr3, DirectoryIndex(v), f);
    EntryFields(true, true, supervisor, p);
    EnsureWalk(phys, dir, etab, cr3, DirectoryIndex(v), f, u);
    SetWalk(phys', dir, etab, cr3, v, Entry(true, true, supervisor, p), u);
    SamePage(u, v);
  }

  /** A frame that is no table, and does not become one, stays no table. */
  lemma EnsureUnused(phys: Frames, dir: nat, etab: nat, cr3: nat, i: nat, f: nat, g: nat)
    requires Coherent(phys, dir, etab, cr3) && i < ETABLE_INDEX && f < |phys|
    requires !Present(phys[etab][i]) ==> Unused(phys, dir, etab, cr3, f) && g != f
    requires Unused(phys, dir, etab, cr3, g)
    ensures Coherent(Ensure(phys, dir, etab, i, f), dir, etab, cr3)
    ensures Unused(Ensure(phys, dir, etab, i, f), dir, etab, cr3, g)
  {
    EnsureCoherent(phys, dir, etab, cr3, i, f);
    if !Present(phys[etab][i]) {
      EnterCoherent(phys, dir, etab, cr3, i, f);
      assert Ensure(phys, dir, etab, i, f)[etab] == phys[etab][i := Entry(true, true, true, f * PAGE_SIZE)];
      TableEntry(f, true);
    }
  }

  /** Writing an entry of a page table keeps the tables coherent, and uses no other frame. */
  lemma SetCoherent(phys: Frames, dir: nat, etab: nat, cr3: nat, i: nat, j: nat, w: nat)
    requires Coherent(phys, dir, etab, cr3) && i < ETABLE_INDEX && Present(phys[etab][i]) && j < ENTRIES
    ensures var phys' := SetWord(phys, PageTable(phys, etab, i), j, w);
            && |phys'| == |phys| && Coherent(phys', dir, etab, cr3)
            && forall g :: Unused(phys, dir, etab, cr3, g) ==> Unused(phys', dir, etab, cr3, g)
  {
    var t := PageTable(phys, etab, i);
    var phys' := SetWord(phys, t, j, w);
    assert phys'[dir] == phys[dir] && phys'[etab] == phys[etab] && phys'[cr3] == phys[cr3];
  }

  /** Where the store of entry j of page table i goes. */
  lemma EntryAddress(phys: Frames, dir: nat, etab: nat, cr3: nat, i: nat, j: nat)
    requires Coherent(phys, dir, etab, cr3) && i < ETABLE_INDEX && Present(phys[etab][i]) && j < ENTRIES
    ensures var va := TableAddress(i) + 4 * j;
            && cr3 < |phys| && |phys[cr3]| == ENTRIES
            && va % 4 == 0 && va % PAGE_SIZE / 4 == j && Walk(phys, cr3, va) == Some(phys[etab][i])
            && PageTable(phys, etab, i) < |phys| && |phys[PageTable(phys, etab, i)]| == ENTRIES
  {
    SelfMap(phys, dir, etab, cr3, i);
    TableWord(i, j);
    hide DirectoryIndex, TableIndex, TableAddress, Present;
  }

  /** Where word j of page table i is. */
  lemma TableWord(i: nat, j: nat)
    requires i < ETABLE_INDEX && j < ENTRIES
    ensures var va, base := TableAddress(i) + 4 * j, TableAddress(i);
            && va % 4 == 0 && va % PAGE_SIZE == 4 * j
            && DirectoryIndex(va) == DirectoryIndex(base) && TableIndex(va) == TableIndex(base)
  {
    var va, base := TableAddress(i) + 4 * j, TableAddress(i);
    assert base % PAGE_SIZE == 0 && base / PAGE_SIZE == i + ETABLE_INDEX * ENTRIES;
    assert va / PAGE_SIZE == base / PAGE_SIZE && va % PAGE_SIZE == 4 * j;
    assert va / TABLE_SPAN == va / PAGE_SIZE / ENTRIES && base / TABLE_SPAN == base / PAGE_SIZE / ENTRIES;
  }

  /** The frames that a new page table at index leaves free are still no tables. */
  lemma AllocatedUnused(phys: Frames, dir: nat, etab: nat, cr3: nat, index: nat, cells: seq<nat>, f: nat)
    requires Coherent(phys, dir, etab, cr3) && index < ETABLE_INDEX && !Present(phys[etab][index])
    requires f < Blocks(cells) <= |phys| && !Used(cells, f)
    requires forall g :: 0 <= g < Blocks(cells) && !Used(cells, g) ==> Unused(phys, dir, etab, cr3, g)
    ensures var phys' := Ensure(phys, dir, etab, index, f);
            && Coherent(phys', dir, etab, cr3)
            && forall g :: 0 <= g < Blocks(cells) && !Used(Put(cells, f, true), g) ==> Unused(phys', dir, etab, cr3, g)
  {
    EnsureCoherent(phys, dir, etab, cr3, index, f);
    forall g | 0 <= g < Blocks(cells) && !Used(Put(cells, f, true), g)
      ensures Unused(Ensure(phys, dir, etab, index, f), dir, etab, cr3, g)
    {
      UsedOfPut(cells, f, true, g);
      EnsureUnused(phys, dir, etab, cr3, index, f, g);
    }
  }

  /** How many of the page tables a up to b are missing. */
  ghost function MissingTables(etable: Table, a: nat, b: nat): nat
    requires b <= |etable|
    decreases b - a
  {
    if a >= b then 0 else (if Present(etable[a]) then 0 else 1) + MissingTables(etable, a + 1, b)
  }

  lemma MissingHere(etable: Table, a: nat, b: nat)
    requires a < b <= |etable|
    ensures !Present(etable[a]) ==> MissingTables(etable, a, b) > 0
  {
  }

  lemma {:induction false} MissingAfter(etable: Table, a: nat, b: nat, i: nat, w: nat)
    requires a > i && i < b <= |etable|
    ensures MissingTables(etable[i := w], a, b) == MissingTables(etable, a, b)
    decreases b - a
  {
    if a < b { MissingAfter(etable, a + 1, b, i, w); }
  }

  /** n pages from v on are mapped to as many frames from p on, and nothing else has changed. */
  ghost predicate RangeMapped(before: Frames, phys: Frames, dir: nat, v: nat, p: nat, n: nat, supervisor: bool)
    requires dir < |before| && dir < |phys| && |before[dir]| == |phys[dir]| == ENTRIES
  {
    forall u: nat {:trigger Walk(phys, dir, u)} :: u < WORD_LIMIT && DirectoryIndex(u) != ETABLE_INDEX ==>
      Walk(phys, dir, u) ==
        if v <= u < v + n * PAGE_SIZE then Some(Entry(true, true, supervisor, p + (u - v) / PAGE_SIZE * PAGE_SIZE))
        else Walk(before, dir, u)
  }

  /** One more map extends the range by one page. */
  lemma RangeStep(before: Frames, phys: Frames, dir: nat, etab: nat, cr3: nat, v: nat, p: nat, n: nat, supervisor: bool,
      f: nat)
    requires Coherent(phys, dir, etab, cr3) && dir < |before| && |before[dir]| == ENTRIES
    requires v % PAGE_SIZE == 0 && p % PAGE_SIZE == 0 && p + (n + 1) * PAGE_SIZE <= WORD_LIMIT
    requires v + (n + 1) * PAGE_SIZE <= ETABLE_INDEX * TABLE_SPAN
    requires RangeMapped(before, phys, dir, v, p, n, supervisor)
    requires f < |phys|
    requires !Present(phys[etab][DirectoryIndex(v + n * PAGE_SIZE)]) ==> Unused(phys, dir, etab, cr3, f)
    ensures DirectoryIndex(v + n * PAGE_SIZE) != ETABLE_INDEX
    ensures var phys' := Map(phys, dir, etab, cr3, v + n * PAGE_SIZE, p + n * PAGE_SIZE, supervisor, f);
            && Coherent(phys', dir, etab, cr3)
            && RangeMapped(before, phys', dir, v, p, n + 1, supervisor)
  {
    hide Map, Walk;
    var v', p' := v + n * PAGE_SIZE, p + n * PAGE_SIZE;
    var phys' := Map(phys, dir, etab, cr3, v', p', supervisor, f);
    MapWalks(phys, dir, etab, cr3, v', p', supervisor, f, 0);
    forall u: nat | u < WORD_LIMIT && DirectoryIndex(u) != ETABLE_INDEX
      ensures Walk(phys', dir, u) ==
        if v <= u < v + (n + 1) * PAGE_SIZE then
          Some(Entry(true, true, supervisor, p + (u - v) / PAGE_SIZE * PAGE_SIZE))
        else Walk(before, dir, u)
    {
      MapWalks(phys, dir, etab, cr3, v', p', supervisor, f, u);
      InPage(u, v, n);
    }
  }

  lemma InPage(u: nat, v: nat, n: nat)
    requires v % PAGE_SIZE == 0
    ensures u / PAGE_SIZE == (v + n * PAGE_SIZE) / PAGE_SIZE <==> v + n * PAGE_SIZE <= u < v + (n + 1) * PAGE_SIZE
    ensures v + n * PAGE_SIZE <= u < v + (n + 1) * PAGE_SIZE ==> (u - v) / PAGE_SIZE == n
  {
  }

  /** Mapping a page takes a frame exactly when its page table was among the missing ones. */
  lemma MapMissing(phys: Frames, dir: nat, etab: nat, cr3: nat, v: nat, p: nat, supervisor: bool, f: nat, b: nat)
    requires Coherent(phys, dir, etab, cr3) && DirectoryIndex(v) != ETABLE_INDEX && DirectoryIndex(v) < b <= ENTRIES
    requires f < |phys| && (!Present(phys[etab][DirectoryIndex(v)]) ==> Unused(phys, dir, etab, cr3, f))
    ensures var i := DirectoryIndex(v);
            var phys' := Map(phys, dir, etab, cr3, v, p, supervisor, f);
            && |phys'| == |phys| && |phys'[etab]| == ENTRIES && Present(phys'[etab][i])
            && MissingTables(phys'[etab], i, b) ==
               MissingTables(phys[etab], i, b) - (if Present(phys[etab][i]) then 0 else 1)
            && MissingTables(phys'[etab], i + 1, b) == MissingTables(phys'[etab], i, b)
  {
    var i := DirectoryIndex(v);
    EnsureCoherent(phys, dir, etab, cr3, i, f);
    var phys1 := Ensure(phys, dir, etab, i, f);
    SetCoherent(phys1, dir, etab, cr3, i, TableIndex(v), Entry(true, true, supervisor, p));
    var phys' := Map(phys, dir, etab, cr3, v, p, supervisor, f);
    assert phys'[etab] == phys1[etab];
    if !Present(phys[etab][i]) {
      EnterCoherent(phys, dir, etab, cr3, i, f);
      assert phys'[etab] == phys[etab][i := Entry(true, true, true, f * PAGE_SIZE)];
      MissingAfter(phys[etab], i + 1, b, i, Entry(true, true, true, f * PAGE_SIZE));
    }
  }

  /** One past the last directory entry that n pages from v on use. */
  function LastTable(v: nat, n: nat): nat {
    (v + n * PAGE_SIZE + TABLE_SPAN - 1) / TABLE_SPAN
  }

  lemma PageInRange(v: nat, n: nat, i: nat)
    requires v % PAGE_SIZE == 0 && i < n && v + n * PAGE_SIZE <= ETABLE_INDEX * TABLE_SPAN
    ensures var va := v + i * PAGE_SIZE;
            && va < WORD_LIMIT && va % PAGE_SIZE == 0
            && DirectoryIndex(va) == va / TABLE_SPAN < LastTable(v, n) <= ETABLE_INDEX
            && ((va + PAGE_SIZE) / TABLE_SPAN == va / TABLE_SPAN
               || (va + PAGE_SIZE) / TABLE_SPAN == va / TABLE_SPAN + 1)
  {
    assert v + i * PAGE_SIZE + PAGE_SIZE <= v + n * PAGE_SIZE;
  }

  lemma TableSizes(phys: Frames, dir: nat, etab: nat, cr3: nat)
    requires Coherent(phys, dir, etab, cr3)
    ensures dir < |phys| && etab < |phys| && cr3 < |phys|
    ensures |phys[dir]| == ENTRIES && |phys[etab]| == ENTRIES && |phys[cr3]| == ENTRIES
  {
  }

  lemma RangeStart(phys: Frames, dir: nat, v: nat, p: nat, supervisor: bool)
    requires dir < |phys| && |phys[dir]| == ENTRIES
    ensures RangeMapped(phys, phys, dir, v, p, 0, supervisor)
  {
  }

  const KERNEL_VIRTUAL_BASE: nat := 0xC000_0000
  const KERNEL_PAGES: nat := 1024

  /** The translation that initialize sets up: the first 4 MB, at 0 and at the kernel's base, with all three flags. */
  ghost function KernelWalk(u: nat): Option<nat> {
    if u < 0x40_0000 then Some(u / 4096 * 4096 + 7)
    else if 0xC000_0000 <= u < 0xC040_0000 then Some((u - 0xC000_0000) / 4096 * 4096 + 7)
    else None
  }

  lemma KernelEntry(frame: nat)
    requires frame < 0x10_0000
    ensures Entry(true, true, true, frame * PAGE_SIZE) == frame * 4096 + 7
  {
    EntryWord(true, true, true, frame * PAGE_SIZE);
  }

  lemma MissingBound(etable: Table, a: nat, b: nat)
    requires a <= b <= |etable|
    ensures MissingTables(etable, a, b) <= b - a
    decreases b - a
  {
    if a < b { MissingBound(etable, a + 1, b); }
  }

  /** The directory that the boot code leaves active: two entries that map the first 4 MB, at 0 and at the
      kernel's base, as 4 MB pages. */
  const BOOT_ENTRY: nat := 0x83

  function BootDirectory(): Table {
    seq(ENTRIES, i => if i == 0 || i == KERNEL_VIRTUAL_BASE / TABLE_SPAN then BOOT_ENTRY else 0)
  }

  lemma BootEntry()
    ensures Present(BOOT_ENTRY) && Writeable(BOOT_ENTRY) && !RequiresSupervisor(BOOT_ENTRY) && IsLarge(BOOT_ENTRY)
    ensures !Present(0)
  {
    assert Bit(65, 6) && Bit(32, 5) && Bit(16, 4) && Bit(8, 3) && Bit(4, 2) && Bit(2, 1) && Bit(1, 0);
  }

  /** Under the boot directory, with anything in the frames, page k of the first 4 MB and of the kernel's 4 MB
      is frame k, and nothing else is mapped. */
  lemma BootWalk(phys: Frames, cr3: nat, u: nat)
    requires cr3 < |phys| && phys[cr3] == BootDirectory() && u < WORD_LIMIT
    ensures Walk(phys, cr3, u) ==
            if u < TABLE_SPAN then Some(Entry(true, true, false, u / PAGE_SIZE * PAGE_SIZE))
            else if KERNEL_VIRTUAL_BASE <= u < KERNEL_VIRTUAL_BASE + TABLE_SPAN then
              Some(Entry(true, true, false, (u - KERNEL_VIRTUAL_BASE) / PAGE_SIZE * PAGE_SIZE))
            else None
  {
    hide Present, IsLarge, Writeable, RequiresSupervisor, Entry;
    BootEntry();
    assert u / TABLE_SPAN == 0 <==> u < TABLE_SPAN;
    assert u / TABLE_SPAN == 768 <==> KERNEL_VIRTUAL_BASE <= u < KERNEL_VIRTUAL_BASE + TABLE_SPAN;
  }

  /** The frames of the first 4 MB, reached at their own address and from the kernel's base. */
  lemma BootFrame(phys: Frames, cr3: nat, base: nat, frame: nat, o: nat)
    requires cr3 < |phys| && phys[cr3] == BootDirectory() && frame < KERNEL_PAGES && o < PAGE_SIZE
    requires base == 0 || base == KERNEL_VIRTUAL_BASE
    ensures var w := Walk(phys, cr3, base + frame * PAGE_SIZE + o);
            w.Some? && FrameNumber(w.value) == frame
  {
    hide Walk, BootDirectory, Entry;
    TableEntryOf(frame);
    BootWalk(phys, cr3, base + frame * PAGE_SIZE + o);
    assert (frame * PAGE_SIZE + o) / PAGE_SIZE == frame;
  }

  lemma TableEntryOf(frame: nat)
    requires frame < 0x10_0000
    ensures FrameNumber(Entry(true, true, false, frame * PAGE_SIZE)) == frame
  {
    TableEntry(frame, false);
  }

  /** The tables before the first map: no page table at all, and the page_etable in the boot directory. */
  lemma FirstCoherent(phys: Frames, dir: nat, etab: nat, cr3: nat)
    requires WellFormed(phys) && dir < |phys| && etab < |phys| && cr3 < |phys|
    requires dir != etab && dir != cr3 && etab != cr3 && phys[dir] == Zeros()
    ensures var phys' := SetWord(phys[etab := Zeros()], cr3, ETABLE_INDEX, Entry(true, true, true, etab * PAGE_SIZE));
            && |phys'| == |phys| && Coherent(phys', dir, etab, cr3)
            && (forall f :: 0 <= f < |phys| && f !in {dir, etab, cr3} ==> Unused(phys', dir, etab, cr3, f))
            && (forall u: nat :: Walk(phys', dir, u) == None)
  {
    TableEntry(etab, true);
    var e := Entry(true, true, true, etab * PAGE_SIZE);
    var phys' := SetWord(phys[etab := Zeros()], cr3, ETABLE_INDEX, e);
    assert phys'[dir] == Zeros() && phys'[etab] == Zeros() && phys'[cr3] == phys[cr3][ETABLE_INDEX := e];
    assert forall i :: 0 <= i < ENTRIES ==> !Present(Zeros()[i]);
  }

  /** Both ranges of initialize, one after the other, from an empty directory. */
  lemma BothRanges(m0: Frames, m1: Frames, m2: Frames, dir: nat)
    requires dir < |m0| && dir < |m1| && dir < |m2| && |m0[dir]| == |m1[dir]| == |m2[dir]| == ENTRIES
    requires forall u: nat :: Walk(m0, dir, u) == None
    requires RangeMapped(m0, m1, dir, KERNEL_VIRTUAL_BASE, 0, KERNEL_PAGES, true)
    requires RangeMapped(m1, m2, dir, 0, 0, KERNEL_PAGES, true)
    ensures forall u: nat :: u < WORD_LIMIT && DirectoryIndex(u) != ETABLE_INDEX ==> Walk(m2, dir, u) == KernelWalk(u)
    ensures dir < KERNEL_PAGES ==>
              var w := Walk(m2, dir, dir * PAGE_SIZE + 4 * ETABLE_INDEX);
              w.Some? && FrameNumber(w.value) == dir
  {
    hide Walk, Entry;
    forall u: nat | u < WORD_LIMIT && DirectoryIndex(u) != ETABLE_INDEX ensures Walk(m2, dir, u) == KernelWalk(u) {
      if u < KERNEL_PAGES * PAGE_SIZE {
        KernelEntry(u / PAGE_SIZE);
      } else if KERNEL_VIRTUAL_BASE <= u < KERNEL_VIRTUAL_BASE + KERNEL_PAGES * PAGE_SIZE {
        KernelEntry((u - KERNEL_VIRTUAL_BASE) / PAGE_SIZE);
      }
    }
    if dir < KERNEL_PAGES {
      var va := dir * PAGE_SIZE + 4 * ETABLE_INDEX;
      assert DirectoryIndex(va) == 0 && va / PAGE_SIZE == dir;
      TableEntry(dir, true);
    }
  }

  /** The kernel's own directory takes over, with the page_etable put in it. */
  lemma SwitchCoherent(phys: Frames, dir: nat, etab: nat, cr3: nat)
    requires Coherent(phys, dir, etab, cr3)
    ensures var phys' := SetWord(phys, dir, ETABLE_INDEX, Entry(true, true, true, etab * PAGE_SIZE));
            && |phys'| == |phys| && Coherent(phys', dir, etab, dir)
            && (forall f :: Unused(phys, dir, etab, cr3, f) ==> Unused(phys', dir, etab, dir, f))
            && (forall u: nat :: DirectoryIndex(u) != ETABLE_INDEX ==> Walk(phys', dir, u) == Walk(phys, dir, u))
  {
    TableEntry(etab, true);
    var e := Entry(true, true, true, etab * PAGE_SIZE);
    var phys' := SetWord(phys, dir, ETABLE_INDEX, e);
    assert phys'[dir] == phys[dir][ETABLE_INDEX := e] && phys'[etab] == phys[etab];
    forall u: nat | DirectoryIndex(u) != ETABLE_INDEX ensures Walk(phys', dir, u) == Walk(phys, dir, u) {
      var k := DirectoryIndex(u);
      assert Present(phys[etab][k]) == Present(phys[dir][k]);
    }
  }
}
