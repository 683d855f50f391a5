/** A storage drive as flat bytes, read and written in whole sectors of 512. */
module Disk {
  import opened Words

  const SECTOR: nat := 512

  /** s with d put over it from position at on. */
  function Splice<T>(s: seq<T>, at: nat, d: seq<T>): seq<T>
    requires at + |d| <= |s|
  {
    s[..at] + d + s[at + |d|..]
  }

  lemma SpliceAt<T>(s: seq<T>, at: nat, d: seq<T>)
    requires at + |d| <= |s|
    ensures |Splice(s, at, d)| == |s|
    ensures forall x :: 0 <= x < |s| ==> Splice(s, at, d)[x] == if at <= x < at + |d| then d[x - at] else s[x]
  {
  }

  /** What was spliced in reads back, and any range beside it reads as before. */
  lemma SpliceReads<T>(s: seq<T>, at: nat, d: seq<T>, lo: nat, hi: nat)
    requires at + |d| <= |s| && lo <= hi <= |s|
    ensures Splice(s, at, d)[at..at + |d|] == d
    ensures hi <= at || at + |d| <= lo ==> Splice(s, at, d)[lo..hi] == s[lo..hi]
  {
    SpliceAt(s, at, d);
  }

  lemma SliceOfSlice<T>(s: seq<T>, a: nat, b: nat, c: nat, d: nat)
    requires a <= b <= |s| && c <= d <= b - a
    ensures s[a..b][c..d] == s[a + c..a + d]
  {
    var left, right := s[a..b][c..d], s[a + c..a + d];
    assert |left| == |right|;
    forall k | 0 <= k < d - c ensures left[k] == right[k] {
      assert left[k] == s[a..b][c + k] == s[a + c + k];
    }
  }

  lemma SpliceWhole<T>(s: seq<T>, d: seq<T>)
    requires |d| == |s|
    ensures Splice(s, 0, d) == d
  {
    SpliceAt(s, 0, d);
  }

  /** Replacing part of a slice and putting the slice back replaces that part. */
  lemma SpliceInside<T>(s: seq<T>, a: nat, b: nat, o: nat, d: seq<T>)
    requires a <= b <= |s| && o + |d| <= b - a
    ensures Splice(s, a, Splice(s[a..b], o, d)) == Splice(s, a + o, d)
  {
    var part := Splice(s[a..b], o, d);
    SpliceAt(s[a..b], o, d);
    SpliceAt(s, a, part);
    SpliceAt(s, a + o, d);
  }

  /** Copying one more element. */
  lemma SplicePush<T>(s: seq<T>, at: nat, d: seq<T>, from: nat, i: nat)
    requires at + i < |s| && from + i < |d|
    ensures |Splice(s, at, d[from..from + i])| == |s|
    ensures Splice(s, at, d[from..from + i])[at + i := d[from + i]] == Splice(s, at, d[from..from + i + 1])
  {
    var part := d[from..from + i];
    assert d[from..from + i + 1] == part + [d[from + i]];
    assert s[at + i..] == [s[at + i]] + s[at + i + 1..];
  }

  lemma SpliceNothing<T>(s: seq<T>, at: nat, d: seq<T>, from: nat)
    requires at <= |s| && from <= |d|
    ensures Splice(s, at, d[from..from]) == s
  {
  }

  method Memcpy(dest: array<Byte>, at: nat, src: array<Byte>, from: nat, n: nat)
    requires dest != src && at + n <= dest.Length && from + n <= src.Length
    modifies dest
    ensures dest[..] == Splice(old(dest[..]), at, src[from..from + n])
  {
    hide Splice;
    SpliceNothing(dest[..], at, src[..], from);
    for i := 0 to n
      invariant dest[..] == Splice(old(dest[..]), at, src[..][from..from + i])
    {
      SplicePush(old(dest[..]), at, src[..], from, i);
      dest[at + i] := src[from + i];
    }
  }

  class Drive {
    const bytes: array<Byte>
    const number_of_sectors: nat

    constructor (bytes: array<Byte>, number_of_sectors: nat)
      requires bytes.Length == number_of_sectors * SECTOR
      ensures this.bytes == bytes && Valid()
    {
      this.bytes, this.number_of_sectors := bytes, number_of_sectors;
    }

    ghost predicate Valid() {
      bytes.Length == number_of_sectors * SECTOR
    }

    /** read_sectors: count sectors from lba on go into the buffer from position at on. */
    method ReadSectors(lba: nat, count: nat, buffer: array<Byte>, at: nat)
      requires Valid() && count < 256 && lba + count <= number_of_sectors && at + count * SECTOR <= buffer.Length
      requires buffer != bytes
      modifies buffer
      ensures buffer[..] == Splice(old(buffer[..]), at, bytes[lba * SECTOR..(lba + count) * SECTOR])
    {
      hide Splice;
      SpliceNothing(buffer[..], at, bytes[..], lba * SECTOR);
      for i := 0 to count * SECTOR
        invariant buffer[..] == Splice(old(buffer[..]), at, bytes[..][lba * SECTOR..lba * SECTOR + i])
      {
        SplicePush(old(buffer[..]), at, bytes[..], lba * SECTOR, i);
        buffer[at + i] := bytes[lba * SECTOR + i];
      }
    }

    /** write_sectors: count sectors of the buffer from position at on go onto the drive from lba on. */
    method WriteSectors(lba: nat, count: nat, buffer: array<Byte>, at: nat)
      requires Valid() && count < 256 && lba + count <= number_of_sectors && at + count * SECTOR <= buffer.Length
      requires buffer != bytes
      modifies bytes
      ensures bytes[..] == Splice(old(bytes[..]), lba * SECTOR, buffer[at..at + count * SECTOR])
    {
      hide Splice;
      SpliceNothing(bytes[..], lba * SECTOR, buffer[..], at);
      for i := 0 to count * SECTOR
        invariant bytes[..] == Splice(old(bytes[..]), lba * SECTOR, buffer[..][at..at + i])
      {
        SplicePush(old(bytes[..]), lba * SECTOR, buffer[..], at, i);
        bytes[lba * SECTOR + i] := buffer[at + i];
      }
    }
  }
}
