/** The environment the Python code acts on: the file system and `os.urandom`. */
module Store {
  import opened Types

  /** The `n` bytes an entropy stream yields from position `from` on. */
  function Draw(source: nat -> Byte, from: nat, n: nat): (r: Bytes)
    ensures |r| == n
  {
    seq(n, i requires 0 <= i < n => source(from + i))
  }

  /** The exception `open(p, 'wb')` raises when `p` cannot name a regular file:
      the empty path does not exist, and a path ending in a separator is a directory. */
  function WriteError(p: Path): (r: Option<Error>)
    ensures r.None? <==> IsFileName(p)
    ensures |p| == 0 ==> r == Some(FileNotFound(p))
    ensures |p| > 0 && !IsFileName(p) ==> r == Some(IsADirectory(p))
  {
    if |p| == 0 then Some(FileNotFound(p))
    else if p[|p| - 1] == '/' then Some(IsADirectory(p))
    else None
  }

  /** `os.urandom` as an oracle: a fixed stream of bytes and how many have been drawn. */
  class Entropy {
    const source: nat -> Byte
    var drawn: nat

    constructor (source: nat -> Byte)
      ensures this.source == source && drawn == 0
    {
      this.source := source;
      drawn := 0;
    }

    /** `os.urandom(n)`: the next `n` bytes of the stream. */
    method Urandom(n: nat) returns (r: Bytes)
      modifies this
      ensures r == Draw(source, old(drawn), n)
      ensures drawn == old(drawn) + n
    {
      r := Draw(source, drawn, n);
      drawn := drawn + n;
    }
  }

  /** The regular files of the disk, by path. Directories are not modelled. */
  class FileSystem {
    var files: Files

    constructor (files: Files)
      ensures this.files == files
    {
      this.files := files;
    }

    /** `os.path.exists` */
    method Exists(p: Path) returns (b: bool)
      ensures b == (p in files)
    {
      b := p in files;
    }

    /** `open(p, 'rb').read()`, raising when the file is missing. */
    method Read(p: Path) returns (r: Result<Bytes>)
      ensures p in files ==> r == Success(files[p])
      ensures p !in files ==> r == Failure(FileNotFound(p))
    {
      if p in files {
        r := Success(files[p]);
      } else {
        r := Failure(FileNotFound(p));
      }
    }

    /** `os.path.getsize` */
    method Size(p: Path) returns (n: nat)
      requires p in files
      ensures n == |files[p]|
    {
      n := |files[p]|;
    }

    /** `open(p, 'wb').write(data)`: creates or truncates and replaces. Every call
        site writes a path that names a file (see `WriteError`). */
    method Write(p: Path, data: Bytes)
      modifies this
      ensures files == old(files)[p := data]
    {
      files := files[p := data];
    }

    /** `os.remove`; every call site removes a file it has just read or checked. */
    method Remove(p: Path)
      requires p in files
      modifies this
      ensures files == old(files) - {p}
    {
      files := files - {p};
    }
  }
}
