/** A client of the files: what one descriptor writes, another reads. */
module VfsClient {
  import opened Words
  import opened Disk
  import opened DevFs
  import opened Vfs

  /** A span of sectors that storage_drive_write stores as given. */
  predicate Stored(offset: nat, count: nat) {
    (offset + count) / 512 - offset / 512 <= 256
  }

  /** Two descriptors of one drive at one position: both transfers go through, and the bytes written come back. */
  method WriteThenRead(v: Vfs, out: nat, back: nat, data: array<Byte>, copy: array<Byte>, n: nat)
      returns (written: nat, read: nat)
    requires v.Valid() && v.OpenOnDrive(out) && v.OpenOnDrive(back) && out != back
    requires 0 < n <= data.Length && n <= copy.Length
    requires data != copy && data != v.fs.drive.bytes && copy != v.fs.drive.bytes
    requires v.file_descriptors as object !in {data, copy, v.fs.drive.bytes}
    requires v.Descriptor(out).in_use && v.Descriptor(out).write && v.Descriptor(back).in_use && v.Descriptor(back).read
    requires v.Descriptor(back).position == v.Descriptor(out).position
    requires v.Descriptor(out).position + n < v.fs.drive.bytes.Length && Stored(v.Descriptor(out).position, n)
    modifies data, copy, v.fs.drive.bytes, v.file_descriptors
    ensures written == n && read == n
    ensures copy[..n] == old(data[..n]) && data[..] == old(data[..])
    ensures v.Descriptor(out).position == old(v.Descriptor(out).position) + n
    ensures v.Descriptor(back).position == old(v.Descriptor(back).position) + n
    ensures v.fs.drive.bytes[..] == Splice(old(v.fs.drive.bytes[..]), old(v.Descriptor(out).position), old(data[..n]))
  {
    hide Written, Splice;
    ghost var at, device, bytes := v.Descriptor(out).position, v.fs.drive.bytes[..], data[..];
    assert bytes[..n] == data[..n];
    LongIs(at, n);
    written := v.Write(out, data, n, true);
    WrittenIsSplice(device, bytes, v.fs.drive.bytes[..], data[..], at, n);
    SpliceReads(device, at, bytes[..n], 0, 0);
    read := v.Read(back, copy, n, true);
  }
}
