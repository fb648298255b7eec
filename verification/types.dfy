/** Basic value types shared by every part of the model: bytes, paths,
    the file store as a map, and the error outcomes the Python code can raise. */
module Types {

  /** One octet. */
  type Byte = b: int | 0 <= b < 256

  type Bytes = seq<Byte>

  /** A file path, as the string `os.path.join` produces. */
  type Path = string

  /** The passphrase typed by the user (encoded to UTF-8 inside the key derivation). */
  type Passphrase = string

  /** The file system, flattened: every regular file's path mapped to its contents. */
  type Files = map<Path, Bytes>

  /** A path that can name a regular file: non-empty and not ending in a separator. */
  predicate IsFileName(p: Path) {
    |p| > 0 && p[|p| - 1] != '/'
  }

  datatype Option<T> = None | Some(value: T)

  /** The exceptions the modelled code can raise. */
  datatype Error =
    | FileNotFound(path: Path)   // `open` of a missing file
    | InvalidKeySize             // AES given a key that is not 16, 24 or 32 bytes
    | InvalidIvSize              // CFB mode given an IV that is not 16 bytes
    | InvalidToken               // Fernet token rejected (wrong key or tampered)
    | IsADirectory(path: Path)   // `open` for writing of a path that names a directory

  datatype Result<T> = Success(value: T) | Failure(error: Error)

  /** How a state-changing operation ended: normally, or by raising. */
  datatype Outcome = Done | Raised(error: Error)

  function Min(a: int, b: int): int { if a < b then a else b }

  /** No path is listed twice. */
  predicate Distinct(s: seq<Path>) {
    forall i, j :: 0 <= i < j < |s| ==> s[i] != s[j]
  }

  /** Splitting the last path off a list without repeats. */
  lemma DistinctSnoc(s: seq<Path>, x: Path)
    requires Distinct(s + [x])
    ensures Distinct(s) && x !in s
  {
    forall j | 0 <= j < |s|
      ensures s[j] != x
    {
      assert (s + [x])[j] == s[j] && (s + [x])[|s|] == x;
    }
    forall i, j | 0 <= i < j < |s|
      ensures s[i] != s[j]
    {
      assert (s + [x])[i] == s[i] && (s + [x])[j] == s[j];
    }
  }
}
