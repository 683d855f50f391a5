/** File descriptors over one mounted device file system. */
module Vfs {
  import opened Words
  import opened Disk
  import opened DevFs
  import P = Path

  const OPEN_FILES_MAX: nat := 200

  datatype FileDesc = FileDesc(
    file_path: P.Value, position: nat, read: bool, write: bool, append: bool, size: nat, in_use: bool)

  /** The path seen from the mount's root. */
  function Trimmed(mount: P.Value, path: P.Value): P.Value
    requires |mount.parts| <= |path.parts|
  {
    P.Value(path.parts[|mount.parts|..], path.folder)
  }

  /** "/sda" */
  predicate IsDrive(path: P.Value) {
    !path.folder && P.Text(path) == "/sda"
  }

  /** Is the path of the first mounted file system a prefix of this one? */
  predicate Under(mount: P.Value, path: P.Value) {
    P.Depth(mount) <= P.Depth(path) && |mount.parts| == 1 && mount.folder && path.parts[0] == mount.parts[0]
  }

  predicate CanRead(d: FileDesc, nbyte: nat) {
    nbyte > 0 && d.in_use && d.read && d.position + nbyte <= d.size
  }

  /** What one read of nbyte bytes delivers, and the descriptor after it. */
  function ReadStep(d: FileDesc, disk: seq<Byte>, nbyte: nat): (seq<Byte>, FileDesc)
    requires d.size <= |disk|
  {
    if CanRead(d, nbyte) then
      (disk[d.position..d.position + nbyte], d.(position := d.position + nbyte))
    else ([], d)
  }

  function Reads(d: FileDesc, disk: seq<Byte>, sizes: seq<nat>): (seq<Byte>, FileDesc)
    requires d.size <= |disk|
    decreases |sizes|
  {
    if sizes == [] then ([], d)
    else
      var (data, d1) := ReadStep(d, disk, sizes[0]);
      var (rest, d2) := Reads(d1, disk, sizes[1..]);
      (data + rest, d2)
  }

  /** Any sequence of reads delivers the device's bytes from the starting position on, without gaps,
      whichever of them fail, and never moves past the size. */
  lemma {:induction false} ReadsAreConsecutive(d: FileDesc, disk: seq<Byte>, sizes: seq<nat>)
    requires d.position <= d.size <= |disk|
    ensures var (data, d') := Reads(d, disk, sizes);
            && d.position <= d'.position <= d'.size == d.size
            && d'.position == d.position + |data|
            && data == disk[d.position..d'.position]
            && d' == d.(position := d'.position)
    decreases |sizes|
  {
    if sizes != [] {
      ReadsAreConsecutive(ReadStep(d, disk, sizes[0]).1, disk, sizes[1..]);
    }
  }

  function Sum(sizes: seq<nat>): nat {
    if sizes == [] then 0 else sizes[0] + Sum(sizes[1..])
  }

  /** Reads of positive sizes on an open descriptor all deliver, as long as the device has the bytes. */
  lemma {:induction false} ReadsDeliver(d: FileDesc, disk: seq<Byte>, sizes: seq<nat>)
    requires d.in_use && d.read && d.position + Sum(sizes) <= d.size <= |disk|
    requires forall i :: 0 <= i < |sizes| ==> sizes[i] > 0
    ensures Reads(d, disk, sizes) ==
            (disk[d.position..d.position + Sum(sizes)], d.(position := d.position + Sum(sizes)))
    decreases |sizes|
  {
    if sizes != [] {
      ReadsDeliver(d.(position := d.position + sizes[0]), disk, sizes[1..]);
      var mid, end := d.position + sizes[0], d.position + Sum(sizes);
      assert disk[d.position..mid] + disk[mid..end] == disk[d.position..end];
    } else {
      assert disk[d.position..d.position + 0] == [];
    }
  }

  /** A path is under the mount exactly when its text begins with the mount's. */
  lemma UnderIsPrefix(mount: P.Value, path: P.Value)
    requires mount.folder && |mount.parts| == 1 && P.WellFormed(mount) && P.WellFormed(path)
    ensures Under(mount, path) <==> P.Text(mount) <= P.Text(path)
  {
    FirstPart(mount);
    FirstPart(path);
    assert P.TextFrom(mount, 1) == "";
    if path.parts != [] {
      var slash := P.Slash(path, 0);
      StartsWithPart(mount.parts[0], path.parts[0], slash, P.TextFrom(path, 1));
      P.TextPastEnd(path);
      hide P.Text, P.TextFrom;
    }
  }

  lemma FirstPart(v: P.Value)
    ensures P.Text(v) == if v.parts == [] then "/" else "/" + (v.parts[0] + P.Slash(v, 0) + P.TextFrom(v, 1))
  {
    if v.parts != [] {
      P.RestText(v, 0);
      assert v.parts[0..] == v.parts;
    }
  }

  lemma StartsWithPart(m: string, p: string, slash: string, rest: string)
    requires '/' !in m && '/' !in p && (slash == "/" || (slash == "" && rest == ""))
    ensures "/" + (m + "/" + "") <= "/" + (p + slash + rest) <==> m == p && slash == "/"
  {
    var s, t := "/" + (m + "/" + ""), "/" + (p + slash + rest);
    assert s[|m| + 1] == '/' && forall k :: 0 <= k < |m| ==> s[k + 1] == m[k];
    assert forall k :: 0 <= k < |p| ==> t[k + 1] == p[k];
    assert slash == "/" ==> t[|p| + 1] == '/';
    assert forall k :: 0 <= k < |m| ==> m[k] != '/';
    assert forall k :: 0 <= k < |p| ==> p[k] != '/';
    if s <= t {
      assert forall k :: 0 <= k < |s| ==> t[k] == s[k];
      assert m == t[1..|m| + 1];
      assert |m| == |p|;
      assert p == t[1..|p| + 1];
    }
  }

  class Vfs {
    const file_descriptors: array<FileDesc>
    const mount_path: P.Value
    const fs: DevFs

    /** The one file system that booting mounts, at a folder of depth 1. */
    constructor (mount_path: P.Value, fs: DevFs, descriptors: array<FileDesc>)
      requires mount_path.folder && |mount_path.parts| == 1 && descriptors.Length == OPEN_FILES_MAX
      ensures this.mount_path == mount_path && this.fs == fs && file_descriptors == descriptors
    {
      this.mount_path, this.fs, file_descriptors := mount_path, fs, descriptors;
    }

    ghost predicate Valid() {
      mount_path.folder && |mount_path.parts| == 1 && file_descriptors.Length == OPEN_FILES_MAX && fs.drive.Valid()
    }

    /** A number out of range is as good as a closed descriptor. */
    ghost function Descriptor(desct: nat): FileDesc reads file_descriptors {
      if desct < file_descriptors.Length then file_descriptors[desct]
      else FileDesc(P.Value([], true), 0, false, false, false, 0, false)
    }

    /** If the descriptor is open, it is open on the drive, and its size is the drive's. */
    ghost predicate OpenOnDrive(desct: nat) reads file_descriptors {
      var d := Descriptor(desct);
      d.in_use ==>
        && Under(mount_path, d.file_path) && IsDrive(Trimmed(mount_path, d.file_path))
        && d.position <= d.size == fs.drive.bytes.Length
    }

    method GetMountedFs(path: P.Value) returns (found: bool)
      requires Valid()
      ensures found <==> Under(mount_path, path)
    {
      var max := 0;
      for i := 0 to 1
        invariant i == 0 ==> max == 0
        invariant i == 1 ==> (max != 0 <==> Under(mount_path, path))
      {
        if P.Depth(mount_path) <= P.Depth(path) {
          var matches := true;
          for j := 0 to P.Depth(mount_path)
            invariant matches <==> (j == 0 || mount_path.parts[i] == path.parts[i])
          {
            if mount_path.parts[i] != path.parts[i] {
              matches := false;
              break;
            }
          }
          if matches {
            var n := P.Depth(mount_path) + 1;
            if n > max {
              max := n;
            }
          }
        }
      }
      found := max != 0;
    }

    /** The loop that makes a path start at the mount's root. */
    method Trim(path: P.Value) returns (trimmed: P.Value)
      requires Valid() && Under(mount_path, path)
      ensures trimmed == Trimmed(mount_path, path)
      ensures P.Text(path) == P.Front(P.Text(mount_path)) + P.Text(trimmed)
    {
      var trimmed_path := new P.Path.Copy(path);
      for i := 0 to P.Depth(mount_path)
        invariant trimmed_path.Fields() == P.Value(path.parts[i..], path.folder)
      {
        trimmed_path.RemovePart(0);
      }
      trimmed := trimmed_path.Fields();
      P.MountText(mount_path, path);
    }

    /** Does the transfer of nbyte bytes at from go through? */
    ghost predicate Succeeds(d: FileDesc, nbyte: nat, from: nat, writing: bool, memory_available: bool) {
      && nbyte > 0 && d.in_use && (if writing then d.write else d.read)
      && from + nbyte <= fs.drive.bytes.Length && memory_available
    }

    /** A transfer that ends where the drive ends: the code then touches one sector more. */
    ghost predicate AtTheEnd(d: FileDesc, nbyte: nat, from: nat, writing: bool, memory_available: bool) {
      Succeeds(d, nbyte, from, writing, memory_available) && from + nbyte == fs.drive.bytes.Length
    }

    method Io(desct: nat, buf: array<Byte>, nbyte: nat, offset: nat, writing: bool, memory_available: bool)
        returns (r: nat)
      requires Valid() && OpenOnDrive(desct) && nbyte <= buf.Length
      requires buf != fs.drive.bytes && file_descriptors as object !in {buf, fs.drive.bytes}
      requires var d := Descriptor(desct);
               !AtTheEnd(d, nbyte, if offset == 0 then d.position else offset, writing, memory_available)
      modifies buf, fs.drive.bytes, file_descriptors
      ensures var d := old(Descriptor(desct));
              var from := if offset == 0 then d.position else offset;
              var device := old(fs.drive.bytes[..]);
              if Succeeds(d, nbyte, from, writing, memory_available) then
                && r == nbyte && desct < file_descriptors.Length
                && file_descriptors[..] == old(file_descriptors[..])[desct := d.(position := from + nbyte)]
                && (if writing then Written(device, old(buf[..]), fs.drive.bytes[..], buf[..], from, nbyte)
                    else fs.drive.bytes[..] == device && buf[..] == Splice(old(buf[..]), 0, device[from..from + nbyte]))
              else
                && r == 0 && buf[..] == old(buf[..]) && fs.drive.bytes[..] == device
                && file_descriptors[..] == old(file_descriptors[..])
    {
      hide Splice, Written;
      if nbyte == 0 {
        return 0;
      }
      if desct >= OPEN_FILES_MAX || !file_descriptors[desct].in_use {
        return 0;
      }
      var actual_offset := if offset == 0 then file_descriptors[desct].position else offset;
      if (!writing && !file_descriptors[desct].read) || (writing && !file_descriptors[desct].write) {
        return 0;
      }
      if !writing && actual_offset + nbyte > file_descriptors[desct].size {
        return 0;
      }
      var found := GetMountedFs(file_descriptors[desct].file_path);
      var trimmed_path := Trim(file_descriptors[desct].file_path);
      var code;
      if writing {
        code := fs.StorageDriveWrite(nbyte, actual_offset, buf, memory_available);
      } else {
        code := fs.StorageDriveRead(nbyte, actual_offset, buf, memory_available);
      }
      if code != Done {
        return 0;
      }
      file_descriptors[desct] := file_descriptors[desct].(position := actual_offset + nbyte);
      if writing {
        file_descriptors[desct] := file_descriptors[desct].(size := fs.drive.bytes.Length);
      }
      r := nbyte;
    }

    method Read(desct: nat, buf: array<Byte>, nbyte: nat, memory_available: bool) returns (r: nat)
      requires Valid() && OpenOnDrive(desct) && nbyte <= buf.Length
      requires buf != fs.drive.bytes && file_descriptors as object !in {buf, fs.drive.bytes}
      requires !AtTheEnd(Descriptor(desct), nbyte, Descriptor(desct).position, false, memory_available)
      modifies buf, fs.drive.bytes, file_descriptors
      ensures fs.drive.bytes[..] == old(fs.drive.bytes[..])
      ensures var d := old(Descriptor(desct));
              var (data, d') :=
                if memory_available && d.in_use then ReadStep(d, old(fs.drive.bytes[..]), nbyte) else ([], d);
              && r == |data| && |data| <= |old(buf[..])| && buf[..] == Splice(old(buf[..]), 0, data)
              && Descriptor(desct) == d'
      ensures var d := old(Descriptor(desct));
              var device := old(fs.drive.bytes[..]);
              if nbyte > 0 && d.in_use && d.read && d.position + nbyte <= |device| && memory_available then
                && r == nbyte && buf[..nbyte] == device[d.position..d.position + nbyte]
                && buf[nbyte..] == old(buf[nbyte..]) && Descriptor(desct) == d.(position := d.position + nbyte)
              else r == 0 && buf[..] == old(buf[..]) && Descriptor(desct) == d
      ensures forall i :: 0 <= i < file_descriptors.Length && i != desct ==>
                file_descriptors[i] == old(file_descriptors[i])
    {
      r := Io(desct, buf, nbyte, 0, false, memory_available);
    }

    method Write(desct: nat, buf: array<Byte>, nbyte: nat, memory_available: bool) returns (r: nat)
      requires Valid() && OpenOnDrive(desct) && nbyte <= buf.Length
      requires buf != fs.drive.bytes && file_descriptors as object !in {buf, fs.drive.bytes}
      requires !AtTheEnd(Descriptor(desct), nbyte, Descriptor(desct).position, true, memory_available)
      modifies buf, fs.drive.bytes, file_descriptors
      ensures var d := old(Descriptor(desct));
              var device := old(fs.drive.bytes[..]);
              if nbyte > 0 && d.in_use && d.write && d.position + nbyte <= |device| && memory_available then
                && r == nbyte && Descriptor(desct) == d.(position := d.position + nbyte)
                && Written(device, old(buf[..]), fs.drive.bytes[..], buf[..], d.position, nbyte)
              else
                r == 0 && Descriptor(desct) == d && fs.drive.bytes[..] == device && buf[..] == old(buf[..])
      ensures forall i :: 0 <= i < file_descriptors.Length && i != desct ==>
                file_descriptors[i] == old(file_descriptors[i])
    {
      hide Written;
      r := Io(desct, buf, nbyte, 0, true, memory_available);
    }
  }
}
