/** Byte-granular reads and writes on a drive that only moves whole sectors, at most 255 at a time. */
module DevFs {
  import opened Words
  import opened Disk

  const MAX_SECTORS: nat := 255
  const CHUNK: nat := 130560 // 255 sectors, in bytes

  datatype Result = Done | NoSpace | NoMemory

  function SectorsCount(offset: nat, count: nat): nat {
    (offset + count) / SECTOR - offset / SECTOR + 1
  }

  /** The sectors strictly between the first and the last. */
  function Between(offset: nat, count: nat): nat {
    if SectorsCount(offset, count) < 2 then 0 else SectorsCount(offset, count) - 2
  }

  /** The bytes of the user's buffer that go into the first sector. */
  function FirstCount(offset: nat): nat { SECTOR - offset % SECTOR }

  /** Does writing this range reach the branch that sends full chunks? */
  predicate IsLong(offset: nat, count: nat) {
    Between(offset, count) > MAX_SECTORS
  }

  /** The byte at x of the drive after a write. In the long branch every full chunk carries the bytes
      of the first one, and the sectors after the last full chunk are not written at all. */
  function WrittenByte(disk: seq<Byte>, buf: seq<Byte>, offset: nat, count: nat, x: nat): Byte
    requires offset + count <= |disk| && count <= |buf| && x < |disk|
  {
    var middle := (offset / SECTOR + 1) * SECTOR;
    var chunks := Between(offset, count) / MAX_SECTORS;
    if !(offset <= x < offset + count) then disk[x]
    else if IsLong(offset, count) && middle <= x < middle + Between(offset, count) * SECTOR then
      if x - middle < chunks * CHUNK then buf[FirstCount(offset) + (x - middle) % CHUNK] else disk[x]
    else buf[x - offset]
  }

  /** The byte at y of the user's buffer after a write: the long branch ends with a read into it. */
  function BufferByte(disk: seq<Byte>, buf: seq<Byte>, offset: nat, count: nat, y: nat): Byte
    requires offset + count <= |disk| && count <= |buf| && y < |buf|
  {
    var chunks := Between(offset, count) / MAX_SECTORS;
    var first := FirstCount(offset);
    if IsLong(offset, count) && first + chunks * CHUNK <= y < first + Between(offset, count) * SECTOR then
      disk[offset + y]
    else buf[y]
  }

  ghost predicate Written(disk: seq<Byte>, buf: seq<Byte>, disk': seq<Byte>, buf': seq<Byte>, offset: nat, count: nat)
    requires offset + count <= |disk| && count <= |buf|
  {
    && |disk'| == |disk| && |buf'| == |buf|
    && (forall x :: 0 <= x < |disk| ==> disk'[x] == WrittenByte(disk, buf, offset, count, x))
    && (forall y :: 0 <= y < |buf| ==> buf'[y] == BufferByte(disk, buf, offset, count, y))
  }

  /** A write that is not long is a plain replacement of the bytes from offset on. */
  lemma WrittenIsSplice(disk: seq<Byte>, buf: seq<Byte>, disk': seq<Byte>, buf': seq<Byte>, offset: nat, count: nat)
    requires offset + count <= |disk| && count <= |buf| && !IsLong(offset, count)
    ensures Written(disk, buf, disk', buf', offset, count) <==>
            disk' == Splice(disk, offset, buf[..count]) && buf' == buf
  {
    SpliceAt(disk, offset, buf[..count]);
  }

  /** A long write puts the wrong bytes on some drive from some buffer, at every offset and count. */
  lemma LongWriteFails(offset: nat, count: nat)
    requires IsLong(offset, count)
    ensures exists disk: seq<Byte>, buf: seq<Byte>, x: nat ::
              && offset + count <= |disk| && count <= |buf| && x < |disk|
              && WrittenByte(disk, buf, offset, count, x) != Splice(disk, offset, buf[..count])[x]
  {
    var disk: seq<Byte> := seq(offset + count, _ => 0);
    var wrong := FirstCount(offset) + CHUNK;
    var buf: seq<Byte> := seq(count, y => if y == wrong then 1 else 0);
    SpliceAt(disk, offset, buf[..count]);
    var x := offset + wrong;
    assert WrittenByte(disk, buf, offset, count, x) == 0;
    assert Splice(disk, offset, buf[..count])[x] == 1;
  }

  /** storage_drive_write stores what it was given, whatever that is, exactly when at most 255 sectors lie between. */
  lemma WriteExactly(offset: nat, count: nat)
    ensures !IsLong(offset, count) <==>
            forall disk: seq<Byte>, buf: seq<Byte>, x: nat {:trigger WrittenByte(disk, buf, offset, count, x)} ::
              offset + count <= |disk| && count <= |buf| && x < |disk| ==>
                WrittenByte(disk, buf, offset, count, x) == Splice(disk, offset, buf[..count])[x]
  {
    if IsLong(offset, count) {
      LongWriteFails(offset, count);
    } else {
      forall disk: seq<Byte>, buf: seq<Byte>, x: nat | offset + count <= |disk| && count <= |buf| && x < |disk|
        ensures WrittenByte(disk, buf, offset, count, x) == Splice(disk, offset, buf[..count])[x]
      {
        SpliceAt(disk, offset, buf[..count]);
      }
    }
  }

  lemma LongIs(offset: nat, count: nat)
    ensures IsLong(offset, count) <==> (offset + count) / 512 - offset / 512 > 256
  {
  }

  /** A long write, piece by piece: the first sector's bytes; the chunks of 255 sectors, every one with the bytes of
      the first; the sectors behind them, which are read instead; and the last sector's bytes. */
  lemma LongWriteChunks(disk: seq<Byte>, buf: seq<Byte>, disk': seq<Byte>, buf': seq<Byte>, offset: nat, count: nat)
    requires offset + count <= |disk| && count <= |buf| && Written(disk, buf, disk', buf', offset, count)
    requires (offset + count) / 512 - offset / 512 > 256
    ensures var at, n := 512 - offset % 512, (offset + count) / 512 - offset / 512 - 1;
            var read, last := at + n / 255 * 130560, at + n * 512;
            && read <= last <= count && |disk'| == |disk| && |buf'| == |buf|
            && disk'[..offset] == disk[..offset] && disk'[offset..offset + at] == buf[..at]
            && (forall i {:trigger ChunkStart(at, i)} :: 0 <= i < n / 255 ==>
                  && ChunkStart(at, i) + 130560 <= count
                  && disk'[offset + ChunkStart(at, i)..offset + ChunkStart(at, i) + 130560] == buf[at..at + 130560])
            && disk'[offset + read..offset + last] == disk[offset + read..offset + last]
            && disk'[offset + last..offset + count] == buf[last..count]
            && disk'[offset + count..] == disk[offset + count..]
            && buf'[..read] == buf[..read] && buf'[read..last] == disk[offset + read..offset + last]
            && buf'[last..] == buf[last..]
  {
    hide Written, IsLong, Between, FirstCount, ChunkStart;
    var at, n := 512 - offset % 512, (offset + count) / 512 - offset / 512 - 1;
    var read, last := at + n / 255 * 130560, at + n * 512;
    LongNumbers(offset, count, at, n, read, last);
    AroundChunks(disk, buf, disk', buf', offset, count, at, read, last);
    ReadIntoBuffer(disk, buf, disk', buf', offset, count, at, read, last);
    forall i | 0 <= i < n / 255
      ensures ChunkStart(at, i) + 130560 <= count
      ensures disk'[offset + ChunkStart(at, i)..offset + ChunkStart(at, i) + 130560] == buf[at..at + 130560]
    {
      OneChunk(disk, buf, disk', buf', offset, count, i);
    }
  }

  lemma LongNumbers(offset: nat, count: nat, at: nat, n: nat, read: nat, last: nat)
    requires (offset + count) / 512 - offset / 512 > 256
    requires at == 512 - offset % 512 && n == (offset + count) / 512 - offset / 512 - 1
    requires read == at + n / 255 * 130560 && last == at + n * 512
    ensures IsLong(offset, count) && n == Between(offset, count) && at == FirstCount(offset)
    ensures at <= read <= last <= count
  {
    LongIs(offset, count);
    assert offset + last == (offset + count) / 512 * 512;
  }

  lemma AroundChunks(disk: seq<Byte>, buf: seq<Byte>, disk': seq<Byte>, buf': seq<Byte>, offset: nat, count: nat,
      at: nat, read: nat, last: nat)
    requires offset + count <= |disk| && count <= |buf| && Written(disk, buf, disk', buf', offset, count)
    requires IsLong(offset, count) && at == FirstCount(offset) && last == at + Between(offset, count) * SECTOR
    requires read == at + Between(offset, count) / MAX_SECTORS * CHUNK && read <= last <= count
    ensures |disk'| == |disk| && disk'[..offset] == disk[..offset] && disk'[offset..offset + at] == buf[..at]
    ensures disk'[offset + read..offset + last] == disk[offset + read..offset + last]
    ensures disk'[offset + last..offset + count] == buf[last..count]
    ensures disk'[offset + count..] == disk[offset + count..]
  {
    assert offset + at == (offset / SECTOR + 1) * SECTOR;
    hide IsLong, Between, FirstCount, BufferByte;
  }

  lemma ReadIntoBuffer(disk: seq<Byte>, buf: seq<Byte>, disk': seq<Byte>, buf': seq<Byte>, offset: nat, count: nat,
      at: nat, read: nat, last: nat)
    requires offset + count <= |disk| && count <= |buf| && Written(disk, buf, disk', buf', offset, count)
    requires IsLong(offset, count) && at == FirstCount(offset) && last == at + Between(offset, count) * SECTOR
    requires read == at + Between(offset, count) / MAX_SECTORS * CHUNK && read <= last <= count
    ensures |buf'| == |buf| && buf'[..read] == buf[..read] && buf'[last..] == buf[last..]
    ensures buf'[read..last] == disk[offset + read..offset + last]
  {
    hide IsLong, Between, FirstCount, WrittenByte;
  }

  /** Where chunk i of the user's buffer starts. */
  function ChunkStart(at: nat, i: nat): nat {
    at + i * 130560
  }

  lemma OneChunk(disk: seq<Byte>, buf: seq<Byte>, disk': seq<Byte>, buf': seq<Byte>, offset: nat, count: nat, i: nat)
    requires offset + count <= |disk| && count <= |buf| && Written(disk, buf, disk', buf', offset, count)
    requires IsLong(offset, count) && i < Between(offset, count) / 255
    ensures var at := FirstCount(offset);
            && ChunkStart(at, i) + 130560 <= count
            && disk'[offset + ChunkStart(at, i)..offset + ChunkStart(at, i) + 130560] == buf[at..at + 130560]
  {
    var at, n := FirstCount(offset), Between(offset, count);
    var start := offset + ChunkStart(at, i);
    assert (i + 1) * 130560 <= n / 255 * 130560 <= n * 512;
    assert offset + at == (offset / SECTOR + 1) * SECTOR && at + n * 512 <= count;
    var left, right := disk'[start..start + 130560], buf[at..at + 130560];
    forall k | 0 <= k < 130560 ensures left[k] == right[k] {
      assert (start + k - (offset + at)) % CHUNK == k by { InChunk(i, k); }
      assert disk'[start + k] == WrittenByte(disk, buf, offset, count, start + k);
    }
  }

  lemma InChunk(i: nat, k: nat)
    requires k < CHUNK
    ensures (i * CHUNK + k) % CHUNK == k
  {
  }

  /** Reading the written range gives the buffer back, if the write is not long; reads beside it see no write. */
  lemma ReadAfterWrite(disk: seq<Byte>, buf: seq<Byte>, disk': seq<Byte>, buf': seq<Byte>, offset: nat, count: nat,
      lo: nat, hi: nat)
    requires offset + count <= |disk| && count <= |buf| && Written(disk, buf, disk', buf', offset, count)
             && lo <= hi <= |disk|
    ensures !IsLong(offset, count) ==> disk'[offset..offset + count] == buf[..count]
    ensures hi <= offset || offset + count <= lo ==> disk'[lo..hi] == disk[lo..hi]
  {
    if !IsLong(offset, count) {
      WrittenIsSplice(disk, buf, disk', buf', offset, count);
      SpliceReads(disk, offset, buf[..count], lo, hi);
    }
  }

  /** The parts of a write of three or more sectors, put together. */
  lemma LongParts(disk: seq<Byte>, buf: seq<Byte>, disk': seq<Byte>, buf': seq<Byte>, offset: nat, count: nat)
    requires offset + count <= |disk| && count <= |buf| && SectorsCount(offset, count) > 2
    requires var last := (offset + count) / SECTOR * SECTOR;
             var ends := Splice(Splice(disk, offset, buf[..FirstCount(offset)]), last, buf[last - offset..count]);
             var from := (offset / SECTOR + 1) * SECTOR;
             var at, n := FirstCount(offset), Between(offset, count);
             var done := n / MAX_SECTORS * CHUNK;
             if n <= MAX_SECTORS then disk' == Splice(ends, from, buf[at..at + n * SECTOR]) && buf' == buf
             else
               && Repeats(ends, disk', from, done, buf, at)
               && buf' == Splice(buf, at + done, ends[from + done..from + n * SECTOR])
    ensures Written(disk, buf, disk', buf', offset, count)
  {
    var last := (offset + count) / SECTOR * SECTOR;
    var ends := Splice(Splice(disk, offset, buf[..FirstCount(offset)]), last, buf[last - offset..count]);
    EndsAt(disk, buf, offset, count);
    if Between(offset, count) <= MAX_SECTORS {
      ShortMiddle(disk, buf, ends, disk', offset, count);
    } else {
      LongMiddle(disk, buf, ends, disk', buf', offset, count);
    }
  }

  /** The first and last sectors are in place, those between untouched. */
  ghost predicate EndsWritten(disk: seq<Byte>, buf: seq<Byte>, ends: seq<Byte>, offset: nat, count: nat)
    requires offset + count <= |disk| && count <= |buf|
  {
    && |ends| == |disk|
    && forall x :: 0 <= x < |disk| ==>
         ends[x] == if offset <= x < offset + count
           && !(offset + FirstCount(offset) <= x < (offset + count) / SECTOR * SECTOR)
                    then buf[x - offset] else disk[x]
  }

  lemma EndsAt(disk: seq<Byte>, buf: seq<Byte>, offset: nat, count: nat)
    requires offset + count <= |disk| && count <= |buf| && SectorsCount(offset, count) > 2
    ensures var last := (offset + count) / SECTOR * SECTOR;
            var ends := Splice(Splice(disk, offset, buf[..FirstCount(offset)]), last, buf[last - offset..count]);
            EndsWritten(disk, buf, ends, offset, count)
  {
    var last := (offset + count) / SECTOR * SECTOR;
    SpliceAt(disk, offset, buf[..FirstCount(offset)]);
    SpliceAt(Splice(disk, offset, buf[..FirstCount(offset)]), last, buf[last - offset..count]);
  }

  lemma ShortMiddle(disk: seq<Byte>, buf: seq<Byte>, ends: seq<Byte>, disk': seq<Byte>, offset: nat, count: nat)
    requires offset + count <= |disk| && count <= |buf| && SectorsCount(offset, count) > 2 && !IsLong(offset, count)
    requires EndsWritten(disk, buf, ends, offset, count)
    requires var at, n := FirstCount(offset), Between(offset, count);
             disk' == Splice(ends, (offset / SECTOR + 1) * SECTOR, buf[at..at + n * SECTOR])
    ensures Written(disk, buf, disk', buf, offset, count)
  {
    var at, n := FirstCount(offset), Between(offset, count);
    SpliceAt(ends, (offset / SECTOR + 1) * SECTOR, buf[at..at + n * SECTOR]);
  }

  lemma LongMiddle(disk: seq<Byte>, buf: seq<Byte>, ends: seq<Byte>, disk': seq<Byte>, buf': seq<Byte>, offset: nat,
      count: nat)
    requires offset + count <= |disk| && count <= |buf| && IsLong(offset, count)
    requires EndsWritten(disk, buf, ends, offset, count)
    requires var from := (offset / SECTOR + 1) * SECTOR;
             var at, n := FirstCount(offset), Between(offset, count);
             var done := n / MAX_SECTORS * CHUNK;
             && Repeats(ends, disk', from, done, buf, at)
             && buf' == Splice(buf, at + done, ends[from + done..from + n * SECTOR])
    ensures Written(disk, buf, disk', buf', offset, count)
  {
    var from, at, n := (offset / SECTOR + 1) * SECTOR, FirstCount(offset), Between(offset, count);
    var done := n / MAX_SECTORS * CHUNK;
    SpliceAt(buf, at + done, ends[from + done..from + n * SECTOR]);
    assert from == offset + at && from + n * SECTOR == (offset + count) / SECTOR * SECTOR;
  }

  /** disk' is disk with n bytes from position from on made of copies of one chunk of buf. */
  ghost predicate Repeats(disk: seq<Byte>, disk': seq<Byte>, from: nat, n: nat, buf: seq<Byte>, at: nat)
    requires n > 0 ==> at + CHUNK <= |buf|
  {
    && |disk'| == |disk|
    && forall x {:trigger disk'[x]} :: 0 <= x < |disk| ==>
         disk'[x] == if from <= x < from + n then buf[at + (x - from) % CHUNK] else disk[x]
  }

  lemma RepeatsStep(disk: seq<Byte>, before: seq<Byte>, from: nat, i: nat, buf: seq<Byte>, at: nat)
    requires at + CHUNK <= |buf| && from + (i + 1) * CHUNK <= |disk| && Repeats(disk, before, from, i * CHUNK, buf, at)
    ensures Repeats(disk, Splice(before, from + i * CHUNK, buf[at..at + CHUNK]), from, (i + 1) * CHUNK, buf, at)
  {
    SpliceAt(before, from + i * CHUNK, buf[at..at + CHUNK]);
    var after := Splice(before, from + i * CHUNK, buf[at..at + CHUNK]);
    forall x | 0 <= x < |disk|
      ensures after[x] == if from <= x < from + (i + 1) * CHUNK then buf[at + (x - from) % CHUNK] else disk[x]
    {
      if from + i * CHUNK <= x < from + (i + 1) * CHUNK {
        assert (x - from) % CHUNK == x - from - i * CHUNK;
      }
    }
  }

  class DevFs {
    const drive: Drive

    constructor (drive: Drive)
      ensures this.drive == drive
    {
      this.drive := drive;
    }

    /** The read loops: 255 sectors at a time, then what is left. */
    method ReadInChunks(starting_sector: nat, sectors_count: nat, temp_buf: array<Byte>)
      requires drive.Valid() && starting_sector + sectors_count <= drive.number_of_sectors
      requires temp_buf.Length == sectors_count * SECTOR && temp_buf != drive.bytes
      modifies temp_buf
      ensures temp_buf[..] == drive.bytes[starting_sector * SECTOR..(starting_sector + sectors_count) * SECTOR]
    {
      var lba := starting_sector;
      ghost var from := lba * SECTOR;
      if sectors_count <= MAX_SECTORS {
        drive.ReadSectors(lba, sectors_count, temp_buf, 0);
      } else {
        var tmp := 0;
        for i := 0 to sectors_count / MAX_SECTORS
          invariant lba == starting_sector + i * MAX_SECTORS && tmp == i * CHUNK
          invariant tmp <= temp_buf.Length && temp_buf[..tmp] == drive.bytes[from..from + tmp]
        {
          drive.ReadSectors(lba, MAX_SECTORS, temp_buf, tmp);
          tmp := tmp + CHUNK;
          lba := lba + MAX_SECTORS;
        }
        drive.ReadSectors(lba, sectors_count % MAX_SECTORS, temp_buf, tmp);
      }
    }

    method StorageDriveRead(count: nat, offset: nat, buf: array<Byte>, memory_available: bool) returns (r: Result)
      requires drive.Valid() && count <= buf.Length && buf != drive.bytes
      requires memory_available ==> (offset + count) / SECTOR < drive.number_of_sectors
      modifies buf
      ensures r == if memory_available then Done else NoMemory
      ensures buf[..] ==
              if memory_available then Splice(old(buf[..]), 0, drive.bytes[offset..offset + count]) else old(buf[..])
    {
      hide Splice;
      var starting_sector := offset / SECTOR;
      var ending_sector := (offset + count) / SECTOR;
      var sectors_count := ending_sector - starting_sector + 1;
      if !memory_available {
        return NoMemory;
      }
      var temp_buf := new Byte[sectors_count * SECTOR];
      ReadInChunks(starting_sector, sectors_count, temp_buf);
      ghost var from, o, disk, sectors := starting_sector * SECTOR, offset % SECTOR, drive.bytes[..], temp_buf[..];
      assert temp_buf[o..o + count] == sectors[o..o + count] == disk[offset..offset + count] by {
        assert sectors == disk[from..from + sectors_count * SECTOR];
        SliceOfSlice(disk, from, from + sectors_count * SECTOR, o, o + count);
      }
      Memcpy(buf, 0, temp_buf, offset % SECTOR, count);
      r := Done;
    }

    /** One or two sectors: read, replace, write back. */
    method WriteShort(count: nat, offset: nat, buf: array<Byte>)
      requires drive.Valid() && count <= buf.Length && buf != drive.bytes && SectorsCount(offset, count) <= 2
      requires (offset + count) / SECTOR < drive.number_of_sectors
      modifies drive.bytes
      ensures drive.bytes[..] == Splice(old(drive.bytes[..]), offset, buf[..count])
    {
      hide Splice;
      var lba := offset / SECTOR;
      var sectors_count := SectorsCount(offset, count);
      var sectors := new Byte[SECTOR * sectors_count];
      ghost var disk, blank := drive.bytes[..], sectors[..];
      drive.ReadSectors(lba, sectors_count, sectors, 0);
      SpliceWhole(blank, disk[lba * SECTOR..(lba + sectors_count) * SECTOR]);
      assert sectors[..] == disk[lba * SECTOR..(lba + sectors_count) * SECTOR];
      ghost var data := buf[..count];
      assert buf[0..0 + count] == data;
      Memcpy(sectors, offset % SECTOR, buf, 0, count);
      assert sectors[0..0 + sectors_count * SECTOR] == sectors[..];
      drive.WriteSectors(lba, sectors_count, sectors, 0);
      SpliceInside(disk, lba * SECTOR, (lba + sectors_count) * SECTOR, offset % SECTOR, buf[..count]);
    }

    /** The first and the last sector of a write of three or more: both read first, both written back. */
    method WriteEnds(count: nat, offset: nat, buf: array<Byte>)
      requires drive.Valid() && count <= buf.Length && buf != drive.bytes && SectorsCount(offset, count) > 2
      requires (offset + count) / SECTOR < drive.number_of_sectors
      modifies drive.bytes
      ensures var last := (offset + count) / SECTOR * SECTOR;
              drive.bytes[..] == Splice(Splice(old(drive.bytes[..]), offset, buf[..FirstCount(offset)]),
                                        last, buf[last - offset..count])
    {
      hide Splice;
      var starting_sector := offset / SECTOR;
      var ending_sector := (offset + count) / SECTOR;
      var sectors_count := ending_sector - starting_sector + 1;
      var first_sector := new Byte[SECTOR];
      var last_sector := new Byte[SECTOR];
      ghost var disk, blank := drive.bytes[..], first_sector[..];
      drive.ReadSectors(starting_sector, 1, first_sector, 0);
      SpliceWhole(blank, disk[starting_sector * SECTOR..(starting_sector + 1) * SECTOR]);
      blank := last_sector[..];
      drive.ReadSectors(ending_sector, 1, last_sector, 0);
      SpliceWhole(blank, disk[ending_sector * SECTOR..(ending_sector + 1) * SECTOR]);
      assert first_sector[..] == disk[starting_sector * SECTOR..(starting_sector + 1) * SECTOR];
      assert last_sector[..] == disk[ending_sector * SECTOR..(ending_sector + 1) * SECTOR];

      var offset_in_first_sector := offset % SECTOR;
      var count_write_in_first_sector := SECTOR - offset_in_first_sector;
      Memcpy(first_sector, offset_in_first_sector, buf, 0, count_write_in_first_sector);
      var offset_in_buf := (sectors_count - 2) * SECTOR + count_write_in_first_sector;
      Memcpy(last_sector, 0, buf, offset_in_buf, count - offset_in_buf);

      assert first_sector[0..0 + 1 * SECTOR] == first_sector[..];
      assert last_sector[0..0 + 1 * SECTOR] == last_sector[..];
      drive.WriteSectors(starting_sector, 1, first_sector, 0);
      ghost var disk1, head := drive.bytes[..], buf[..count_write_in_first_sector];
      assert buf[0..0 + count_write_in_first_sector] == head;
      SpliceInside(disk, starting_sector * SECTOR, (starting_sector + 1) * SECTOR, offset_in_first_sector, head);
      SpliceReads(disk, offset, head, ending_sector * SECTOR, (ending_sector + 1) * SECTOR);
      drive.WriteSectors(ending_sector, 1, last_sector, 0);
      SpliceInside(disk1, ending_sector * SECTOR, (ending_sector + 1) * SECTOR, 0, buf[offset_in_buf..count]);
    }

    /** The sectors between. The long branch sends the first chunk's bytes every time, and reads at the end. */
    method WriteMiddle(first_lba: nat, sectors_between_count: nat, buf: array<Byte>, at: nat)
      requires drive.Valid() && first_lba + sectors_between_count <= drive.number_of_sectors && buf != drive.bytes
      requires at + sectors_between_count * SECTOR <= buf.Length
      modifies drive.bytes, buf
      ensures sectors_between_count <= MAX_SECTORS ==>
                && buf[..] == old(buf[..])
                && drive.bytes[..] == Splice(old(drive.bytes[..]), first_lba * SECTOR,
                                            old(buf[at..at + sectors_between_count * SECTOR]))
      ensures sectors_between_count > MAX_SECTORS ==>
                var done := sectors_between_count / MAX_SECTORS * CHUNK;
                var from := first_lba * SECTOR;
                && Repeats(old(drive.bytes[..]), drive.bytes[..], from, done, old(buf[..]), at)
                && buf[..] == Splice(old(buf[..]), at + done,
                                     old(drive.bytes[from + done..(first_lba + sectors_between_count) * SECTOR]))
    {
      hide Splice;
      if sectors_between_count <= MAX_SECTORS {
        drive.WriteSectors(first_lba, sectors_between_count, buf, at);
      } else {
        var lba := first_lba;
        var buf_ptr := at;
        ghost var disk, from := drive.bytes[..], first_lba * SECTOR;
        for i := 0 to sectors_between_count / MAX_SECTORS
          modifies drive.bytes
          invariant lba == first_lba + i * MAX_SECTORS && buf_ptr == at + i * CHUNK
          invariant buf[..] == old(buf[..])
          invariant Repeats(disk, drive.bytes[..], from, i * CHUNK, buf[..], at)
        {
          ghost var before := drive.bytes[..];
          drive.WriteSectors(lba, MAX_SECTORS, buf, at);
          RepeatsStep(disk, before, from, i, buf[..], at);
          buf_ptr := buf_ptr + CHUNK;
          lba := lba + MAX_SECTORS;
        }
        ghost var rest := sectors_between_count % MAX_SECTORS;
        assert drive.bytes[lba * SECTOR..(lba + rest) * SECTOR] == disk[lba * SECTOR..(lba + rest) * SECTOR];
        drive.ReadSectors(lba, sectors_between_count % MAX_SECTORS, buf, buf_ptr);
      }
    }

    method StorageDriveWrite(count: nat, offset: nat, buf: array<Byte>, memory_available: bool) returns (r: Result)
      requires drive.Valid() && count <= buf.Length && buf != drive.bytes
      requires memory_available && offset + count <= drive.bytes.Length ==>
               (offset + count) / SECTOR < drive.number_of_sectors
      modifies drive.bytes, buf
      ensures r == if offset + count > drive.bytes.Length then NoSpace else if memory_available then Done else NoMemory
      ensures r != Done ==> drive.bytes[..] == old(drive.bytes[..]) && buf[..] == old(buf[..])
      ensures r == Done ==> Written(old(drive.bytes[..]), old(buf[..]), drive.bytes[..], buf[..], offset, count)
    {
      hide Splice, Written;
      if offset + count > drive.bytes.Length {
        return NoSpace;
      }
      var lba := offset / SECTOR;
      var sectors_count := (offset + count) / SECTOR - lba + 1;
      if !memory_available {
        return NoMemory;
      }
      ghost var disk, data := drive.bytes[..], buf[..];
      if sectors_count == 1 || sectors_count == 2 {
        assert buf[..count] == data[..count];
        WriteShort(count, offset, buf);
        WrittenIsSplice(disk, data, drive.bytes[..], buf[..], offset, count);
      } else {
        ghost var last := (offset + count) / SECTOR * SECTOR;
        assert buf[..FirstCount(offset)] == data[..FirstCount(offset)]
          && buf[last - offset..count] == data[last - offset..count];
        WriteEnds(count, offset, buf);
        ghost var ends, at, n := drive.bytes[..], FirstCount(offset), sectors_count - 2;
        assert buf[at..at + n * SECTOR] == data[at..at + n * SECTOR];
        WriteMiddle(lba + 1, sectors_count - 2, buf, SECTOR - offset % SECTOR);
        LongParts(disk, data, drive.bytes[..], buf[..], offset, count);
      }
      r := Done;
    }
  }
}
