/** The file system as the streams see it: regular files by name. */
module Disks {
  import opened Common
  import opened VolumeNames
  import opened MultiVolumeSpec

  datatype FileFlag = Existing | CreateNew

  class Disk {
    var files: Files

    constructor (files: Files)
      ensures this.files == files
    {
      this.files := files;
    }

    /** A name without a filename part denotes a directory, never a volume. */
    predicate Exists(path: string)
      reads this
    {
      HasFilename(path) && path in files
    }

    /** Opening fails for a missing file, and creating fails for one that is there. */
    method Open(path: string, flag: FileFlag) returns (ok: bool)
      modifies this
      ensures ok <==> (flag.Existing? <==> path in old(files))
      ensures files == if ok && flag.CreateNew? then old(files)[path := []] else old(files)
    {
      if flag.Existing? {
        ok := path in files;
      } else {
        ok := path !in files;
        if ok {
          files := files[path := []];
        }
      }
    }

    method WriteAt(path: string, at: nat, chunk: seq<Byte>)
      requires path in files
      modifies this
      ensures files == old(files)[path := Overwritten(old(files)[path], at, chunk)]
    {
      files := files[path := Overwritten(files[path], at, chunk)];
    }

    method ReadAt(path: string, at: nat, size: nat) returns (chunk: seq<Byte>)
      requires path in files && at + size <= |files[path]|
      ensures chunk == Range(files[path], at, at + size)
    {
      chunk := files[path][at..at + size];
    }

    method SetLength(path: string, size: nat)
      requires path in files
      modifies this
      ensures files == old(files)[path := Resized(old(files)[path], size)]
    {
      files := files[path := Resized(files[path], size)];
    }

    method Remove(path: string)
      modifies this
      ensures files == old(files) - {path}
    {
      files := files - {path};
    }
  }
}
