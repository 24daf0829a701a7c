/**
 * The storage underneath both versioning engines: a flat map from path to
 * bytes on a volume that may or may not be mounted. This is the capability
 * set of `storage_callbacks` (is_mounted, file_exists, get_file_size,
 * read_file, write_file, delete_file) and the stat/fopen/fread/fwrite/unlink
 * calls of the inlined engine, which reach the same files.
 *
 * Device failures are modelled by a set of faulty paths: reading, writing or
 * deleting a faulty path fails and changes nothing. Every operation fails on
 * an unmounted volume.
 */
module Backend {
  import opened Types
  import opened Paths

  datatype Disk = Disk(mounted: bool, files: map<string, seq<byte>>, faulty: set<string>)

  /** `file_exists` / a successful `stat` of a regular file. */
  predicate Exists(d: Disk, path: string)
  {
    d.mounted && path in d.files
  }

  /** `get_file_size` / `st_size`: 0 for a file that does not exist. */
  function Size(d: Disk, path: string): (n: nat)
    ensures !Exists(d, path) ==> n == 0
    ensures Exists(d, path) ==> n == |d.files[path]|
  {
    if Exists(d, path) then |d.files[path]| else 0
  }

  /** Reading `len` bytes from the start of a file succeeds only when the file is readable and holds at least `len` bytes. */
  predicate ReadSucceeds(d: Disk, path: string, len: nat)
  {
    Exists(d, path) && path !in d.faulty && len <= |d.files[path]|
  }

  /** `read_file(path, buf, len)` / `fopen(path, "rb")` then `fread` of `len` bytes. */
  function Read(d: Disk, path: string, len: nat): (r: Option<seq<byte>>)
    ensures r.Some? <==> ReadSucceeds(d, path, len)
    ensures r.Some? ==> |r.value| == len && r.value == d.files[path][..len]
  {
    if ReadSucceeds(d, path, len) then Some(d.files[path][..len]) else None
  }

  predicate WriteSucceeds(d: Disk, path: string)
  {
    d.mounted && path !in d.faulty
  }

  /** `write_file(path, data)` / `fopen(path, "wb")` then `fwrite`: the file is replaced by `data`. */
  function Write(d: Disk, path: string, data: seq<byte>): (r: Disk)
    ensures r.mounted == d.mounted && r.faulty == d.faulty
  {
    if WriteSucceeds(d, path) then d.(files := d.files[path := data]) else d
  }

  predicate DeleteSucceeds(d: Disk, path: string)
  {
    Exists(d, path) && path !in d.faulty
  }

  /** `delete_file(path)` / `unlink(path)`: fails on a file that does not exist. */
  function Delete(d: Disk, path: string): (r: Disk)
    ensures r.mounted == d.mounted && r.faulty == d.faulty
  {
    if DeleteSucceeds(d, path) then d.(files := d.files - {path}) else d
  }

  /** What an operation returns and the disk it leaves behind. */
  datatype Outcome = Outcome(ok: bool, disk: Disk)

  /** A successful write is read back exactly, and touches no other path. */
  lemma ReadAfterWrite(d: Disk, p: string, data: seq<byte>, q: string, len: nat)
    requires WriteSucceeds(d, p)
    ensures Read(Write(d, p, data), p, |data|) == Some(data)
    ensures Size(Write(d, p, data), p) == |data|
    ensures q != p ==> Read(Write(d, p, data), q, len) == Read(d, q, len)
    ensures q != p ==> Size(Write(d, p, data), q) == Size(d, q)
    ensures Exists(Write(d, p, data), q) <==> Exists(d, q) || q == p
  {
    assert data[..|data|] == data;
  }

  /** A file on a mounted volume, outside the faulty paths, reads back in full. */
  lemma ReadWhole(d: Disk, p: string)
    requires d.mounted && p in d.files && p !in d.faulty
    ensures Read(d, p, |d.files[p]|) == Some(d.files[p])
  {
    assert d.files[p][..|d.files[p]|] == d.files[p];
  }

  /** A write changes no path but its own. */
  lemma WriteFrame(d: Disk, p: string, data: seq<byte>, q: string)
    requires q != p
    ensures var d' := Write(d, p, data);
      (q in d'.files <==> q in d.files) && (q in d.files ==> d'.files[q] == d.files[q])
  {
  }

  /** A successful delete removes exactly one file; a failed one changes nothing. */
  lemma DeleteEffect(d: Disk, p: string, q: string)
    ensures Exists(Delete(d, p), q) <==> Exists(d, q) && (q != p || !DeleteSucceeds(d, p))
    ensures !DeleteSucceeds(d, p) ==> Delete(d, p) == d
    ensures q != p ==> Read(Delete(d, p), q, 0) == Read(d, q, 0) && Size(Delete(d, p), q) == Size(d, q)
  {
  }

  /** The volume as an object: the map of files is what the engines change. */
  class Store {
    /** `_base_path`, the mount point. */
    const basePath: BasePath
    var mounted: bool
    var files: map<string, seq<byte>>
    var faulty: set<string>

    function State(): Disk
      reads this
    {
      Disk(mounted, files, faulty)
    }

    constructor (basePath: BasePath, mounted: bool, files: map<string, seq<byte>>, faulty: set<string>)
      ensures this.basePath == basePath
      ensures State() == Disk(mounted, files, faulty)
    {
      this.basePath := basePath;
      this.mounted := mounted;
      this.files := files;
      this.faulty := faulty;
    }

    method IsMounted() returns (r: bool)
      ensures r == State().mounted
    {
      r := mounted;
    }

    method FileExists(path: string) returns (r: bool)
      ensures r == Exists(State(), path)
    {
      r := mounted && path in files;
    }

    method FileSize(path: string) returns (n: nat)
      ensures n == Size(State(), path)
    {
      n := if mounted && path in files then |files[path]| else 0;
    }

    method ReadFile(path: string, len: nat) returns (ok: bool, data: seq<byte>)
      ensures Read(State(), path, len) == if ok then Some(data) else None
    {
      if mounted && path in files && path !in faulty && len <= |files[path]| {
        ok, data := true, files[path][..len];
      } else {
        ok, data := false, [];
      }
    }

    method WriteFile(path: string, data: seq<byte>) returns (ok: bool)
      modifies this`files
      ensures ok == WriteSucceeds(old(State()), path)
      ensures State() == Write(old(State()), path, data)
    {
      ok := mounted && path !in faulty;
      if ok {
        files := files[path := data];
      }
    }

    method DeleteFile(path: string) returns (ok: bool)
      modifies this`files
      ensures ok == DeleteSucceeds(old(State()), path)
      ensures State() == Delete(old(State()), path)
    {
      ok := mounted && path in files && path !in faulty;
      if ok {
        files := files - {path};
      }
    }
  }
}
