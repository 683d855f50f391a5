/** One 32-bit entry of a page directory or page table: flags in the low bits, a frame address above. */
module PagingEntry {
  import opened Words
  import opened Bits

  const PAGE_SIZE: nat := 4096
  const PRESENT: nat := 0
  const WRITABLE: nat := 1
  const REQUIRES_SUPERVISOR: nat := 2
  const PAGE_4MB: nat := 7

  predicate Present(e: nat) { Bit(e, PRESENT) }

  predicate Writeable(e: nat) { Bit(e, WRITABLE) }

  predicate RequiresSupervisor(e: nat) { Bit(e, REQUIRES_SUPERVISOR) }

  /** A directory entry that maps 4 MB by itself, without a page table. */
  predicate IsLarge(e: nat) { Bit(e, PAGE_4MB) }

  /** e & 0xFFFFF000 */
  function Frame(e: nat): nat { e - e % PAGE_SIZE }

  function PutFlag(e: nat, k: nat, b: bool): nat {
    if b then SetBit(e, k) else ClearBit(e, k)
  }

  function PutFrame(e: nat, frame: nat): nat { e % PAGE_SIZE + Frame(frame) }

  /** The word of an entry with these fields. */
  function Entry(present: bool, writeable: bool, supervisor: bool, frame: nat): nat {
    PutFrame(Flags(present, writeable, supervisor), frame)
  }

  /** The flag bits alone, before the frame goes in. */
  function Flags(present: bool, writeable: bool, supervisor: bool): nat {
    PutFlag(PutFlag(PutFlag(0, PRESENT, present), WRITABLE, writeable), REQUIRES_SUPERVISOR, supervisor)
  }

  lemma BitOfPut(e: nat, k: nat, b: bool, j: nat)
    ensures Bit(PutFlag(e, k, b), j) <==> if j == k then b else Bit(e, j)
  {
    BitOfSet(e, k, j);
    BitOfClear(e, k, j);
  }

  lemma FlagsBits(present: bool, writeable: bool, supervisor: bool, k: nat)
    ensures var f := Flags(present, writeable, supervisor);
            Bit(f, k) <==>
            (k == PRESENT && present) || (k == WRITABLE && writeable) || (k == REQUIRES_SUPERVISOR && supervisor)
    ensures Flags(present, writeable, supervisor) < PAGE_SIZE
  {
    var f1 := PutFlag(0, PRESENT, present);
    var f2 := PutFlag(f1, WRITABLE, writeable);
    NoBits(k);
    BitOfPut(0, PRESENT, present, k);
    BitOfPut(f1, WRITABLE, writeable, k);
    BitOfPut(f2, REQUIRES_SUPERVISOR, supervisor, k);
    Pow2Values();
    BitBounds(0, PRESENT, 12);
    BitBounds(f1, WRITABLE, 12);
    BitBounds(f2, REQUIRES_SUPERVISOR, 12);
  }

  lemma EntryBits(present: bool, writeable: bool, supervisor: bool, frame: nat, k: nat)
    requires k < 12
    ensures Bit(Entry(present, writeable, supervisor, frame), k) <==> Bit(Flags(present, writeable, supervisor), k)
    ensures Entry(present, writeable, supervisor, frame) == Flags(present, writeable, supervisor) + Frame(frame)
  {
    hide Bit, Flags, Pow2;
    var f := Flags(present, writeable, supervisor);
    FlagsBits(present, writeable, supervisor, k);
    Pow2Values();
    assert Frame(frame) == 4096 * (frame / PAGE_SIZE);
    BitBelow(f, frame / PAGE_SIZE, 12, k);
  }

  /** The fields of an entry are independent: every getter gives back what was put. */
  lemma EntryFields(present: bool, writeable: bool, supervisor: bool, frame: nat)
    requires frame < WORD_LIMIT
    ensures var e := Entry(present, writeable, supervisor, frame);
            && e < WORD_LIMIT
            && Present(e) == present && Writeable(e) == writeable && RequiresSupervisor(e) == supervisor
            && !IsLarge(e) && Frame(e) == Frame(frame)
  {
    hide Bit, Flags;
    EntryBits(present, writeable, supervisor, frame, PAGE_4MB);
    FlagsBits(present, writeable, supervisor, PAGE_4MB);
    EntryBits(present, writeable, supervisor, frame, PRESENT);
    EntryBits(present, writeable, supervisor, frame, WRITABLE);
    EntryBits(present, writeable, supervisor, frame, REQUIRES_SUPERVISOR);
    FlagsBits(present, writeable, supervisor, PRESENT);
    FlagsBits(present, writeable, supervisor, WRITABLE);
    FlagsBits(present, writeable, supervisor, REQUIRES_SUPERVISOR);
  }

  function Num(b: bool): nat {
    if b then 1 else 0
  }

  /** The word as a number: bit 0 is present, bit 1 writable, bit 2 the third flag, and the frame's address above. */
  lemma EntryWord(present: bool, writeable: bool, supervisor: bool, frame: nat)
    requires frame < 0x1_0000_0000
    ensures Entry(present, writeable, supervisor, frame) ==
            frame / 4096 * 4096 + Num(present) + 2 * Num(writeable) + 4 * Num(supervisor)
  {
    var f := Flags(present, writeable, supervisor);
    assert SetBit(0, 0) == 1 && ClearBit(0, 0) == 0 && ClearBit(1, 1) == 1 && ClearBit(0, 1) == 0;
    assert f == Num(present) + 2 * Num(writeable) + 4 * Num(supervisor);
  }

  lemma {:induction false} ClearBitOfClear(w: nat, k: nat)
    requires !Bit(w, k)
    ensures ClearBit(w, k) == w
  {
    if k > 0 { ClearBitOfClear(w / 2, k - 1); }
  }

  /** A page directory entry for a 4 KB page table is the same word as a page table entry. */
  lemma DirectoryEntry(frame: nat)
    requires frame < WORD_LIMIT
    ensures PutFlag(Entry(true, true, true, frame), PAGE_4MB, false) == Entry(true, true, true, frame)
  {
    EntryBits(true, true, true, frame, PAGE_4MB);
    FlagsBits(true, true, true, PAGE_4MB);
    ClearBitOfClear(Entry(true, true, true, frame), PAGE_4MB);
  }

  class PagingEntry {
    var entry: nat

    constructor (present: bool, writeable: bool, requires_supervisor: bool, frame: nat)
      ensures entry == Entry(present, writeable, requires_supervisor, frame)
    {
      entry := 0;
      new;
      SetPresent(present);
      SetWriteable(writeable);
      SetRequiresSupervisor(requires_supervisor);
      SetFrame(frame);
    }

    constructor FromBytes(bytes: nat)
      ensures entry == bytes
    {
      entry := bytes;
    }

    method Put(k: nat, b: bool)
      modifies this
      ensures entry == PutFlag(old(entry), k, b)
    {
      if b {
        entry := SetBit(entry, k);
      } else {
        entry := ClearBit(entry, k);
      }
    }

    method SetPresent(p: bool)
      modifies this
      ensures entry == PutFlag(old(entry), PRESENT, p)
    {
      Put(PRESENT, p);
    }

    method SetWriteable(w: bool)
      modifies this
      ensures entry == PutFlag(old(entry), WRITABLE, w)
    {
      Put(WRITABLE, w);
    }

    method SetRequiresSupervisor(r: bool)
      modifies this
      ensures entry == PutFlag(old(entry), REQUIRES_SUPERVISOR, r)
    {
      Put(REQUIRES_SUPERVISOR, r);
    }

    method Set4mbPageSize(b: bool)
      modifies this
      ensures entry == PutFlag(old(entry), PAGE_4MB, b)
    {
      Put(PAGE_4MB, b);
    }

    method SetFrame(addr: nat)
      modifies this
      ensures entry == PutFrame(old(entry), addr)
    {
      entry := entry % PAGE_SIZE;
      entry := entry + (addr - addr % PAGE_SIZE);
    }

    method GetPresent() returns (p: bool)
      ensures p <==> Present(entry)
    {
      p := AsSigned(Masked(entry, PRESENT)) > 0;
      SignedTest(entry, PRESENT);
    }
  }
}
