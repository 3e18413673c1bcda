/**
 The untrusted store: one file per directory and node UUID, with the overwrite, append and short-read rules of the
 host.
 */
module Disks {
  import opened ByteStrings

  datatype Directory = ContentDir | MetaDir | AuditDir

  type Files = map<(Directory, Bytes), Bytes>

  /** The bytes of a file; a missing one reads as empty. */
  function FileOf(files: Files, dir: Directory, uuid: Bytes): Bytes {
    if (dir, uuid) in files then files[(dir, uuid)] else []
  }

  class Disk {
    var files: Files

    constructor ()
      ensures files == map[]
    {
      files := map[];
    }

    method FileSize(dir: Directory, uuid: Bytes) returns (size: nat)
      ensures size == |FileOf(files, dir, uuid)|
    {
      size := |FileOf(files, dir, uuid)|;
    }

    /** Nothing can be read at or past the end; a long read is cut short. */
    method Load(dir: Directory, uuid: Bytes, offset: nat, size: nat) returns (r: int, data: Bytes)
      ensures var f := FileOf(files, dir, uuid);
        if offset < |f| then r == |data| && data == f[offset..Min(offset + size, |f|)] else r == -1
    {
      var f := FileOf(files, dir, uuid);
      if |f| <= offset {
        return -1, [];
      }
      var sizeToCopy := |f| - offset;
      if sizeToCopy > size {
        sizeToCopy := size;
      }
      data := f[offset..offset + sizeToCopy];
      r := sizeToCopy;
    }

    /** Overwrites in place without truncating; an empty or missing file is created first. */
    method DumpWithOffset(dir: Directory, uuid: Bytes, offset: nat, data: Bytes) returns (r: int)
      modifies this
      ensures var f := FileOf(old(files), dir, uuid);
        if offset <= |f|
        then r == |data| && files == old(files)[(dir, uuid) := Overlay(f, offset, data)]
        else r == -1 && files == (if f == [] then old(files)[(dir, uuid) := []] else old(files))
    {
      var f := FileOf(files, dir, uuid);
      if f == [] {
        files := files[(dir, uuid) := []];
      }
      if |f| < offset {
        return -1;
      }
      files := files[(dir, uuid) := Overlay(f, offset, data)];
      r := |data|;
    }

    method DumpTrunc(dir: Directory, uuid: Bytes, data: Bytes) returns (r: int)
      modifies this
      ensures r == |data| && files == old(files)[(dir, uuid) := data]
    {
      files := files[(dir, uuid) := data];
      r := |data|;
    }

    /** POSIX `truncate`: fails on a missing file, extends with zeros. */
    method TruncateFile(dir: Directory, uuid: Bytes, newSize: nat) returns (r: int)
      modifies this
      ensures if (dir, uuid) in old(files)
        then var f := old(files)[(dir, uuid)];
             var f' := if newSize <= |f| then f[..newSize] else f + Zeros(newSize - |f|);
             r == 0 && files == old(files)[(dir, uuid) := f']
        else r == -1 && files == old(files)
    {
      if (dir, uuid) !in files {
        return -1;
      }
      var f := files[(dir, uuid)];
      files := files[(dir, uuid) := if newSize <= |f| then f[..newSize] else f + Zeros(newSize - |f|)];
      r := 0;
    }

    /** `remove`: deleting a missing file is no error. */
    method Delete(dir: Directory, uuid: Bytes)
      modifies this
      ensures files == old(files) - {(dir, uuid)}
    {
      files := files - {(dir, uuid)};
    }
  }
}
