/** Folder decryption (decrypt.py): read `<root>/folder.key`, recover the FEK with
    the passphrase, then turn every `<name>.enc` under the root back into `<name>`. */
module FolderDecrypt {
  import opened Types
  import opened Crypto
  import opened Layout
  import opened Store

  /** `decrypt_fek(encrypted_fek, passphrase)`: bytes 0-15 are the IV, bytes 16-31 the
      salt, the rest the encrypted key (Python slices clamp on short input). The AES
      key is checked before the IV, as the library builds the algorithm object first. */
  function OpenFek(c: Primitives, env: Bytes, pw: Passphrase): (r: Result<Bytes>)
    ensures r.Success? <==> |env| >= BlockSize && ValidAesKey(DeriveKey(c, pw, env[Min(16, |env|)..Min(32, |env|)]))
    ensures !ValidAesKey(DeriveKey(c, pw, env[Min(16, |env|)..Min(32, |env|)])) ==> r == Failure(InvalidKeySize)
    ensures ValidAesKey(DeriveKey(c, pw, env[Min(16, |env|)..Min(32, |env|)])) && |env| < BlockSize ==>
      r == Failure(InvalidIvSize)
  {
    var iv := env[..Min(16, |env|)];
    var salt := env[Min(16, |env|)..Min(32, |env|)];
    var encryptedKey := env[Min(32, |env|)..];
    var key := DeriveKey(c, pw, salt);
    if !ValidAesKey(key) then Failure(InvalidKeySize)
    else if |iv| != BlockSize then Failure(InvalidIvSize)
    else Success(c.cfbDecrypt(key, iv, encryptedKey))
  }

  /** No passphrase is ever rejected: any envelope of at least 16 bytes opens, to
      `|env| - 32` bytes (none when it is shorter than 32). */
  lemma OpenFekAcceptsAnyPassphrase(c: Primitives, env: Bytes, pw: Passphrase)
    requires Sound(c)
    requires |env| >= BlockSize
    ensures OpenFek(c, env, pw).Success?
    ensures |OpenFek(c, env, pw).value| == |env| - Min(32, |env|)
  {
    assert |DeriveKey(c, pw, env[16..Min(32, |env|)])| == KeyLength;
  }

  /** The outcome of running `decrypt_file` over a sequence of files: the store, and
      the exception that stopped the run, if any. */
  datatype Run = Run(store: Files, error: Option<Error>)

  /** The plaintext `decrypt_file` computes from a file's bytes: CFB decryption of
      everything after the first 16 bytes, with those 16 bytes as the IV. */
  function Plain(c: Primitives, fek: Bytes, data: Bytes): (r: Bytes)
    ensures Sound(c) && ValidAesKey(fek) && |data| >= BlockSize ==> |r| == |data| - BlockSize
  {
    var (iv, ct) := ParseFrame(data);
    c.cfbDecrypt(fek, iv, ct)
  }

  /** Decrypting a file laid out as `iv + CFB(fek, iv, m)`, with a 16-byte IV,
      gives `m` back. */
  lemma PlainOfFrame(c: Primitives, fek: Bytes, iv: Bytes, m: Bytes)
    requires Sound(c) && ValidAesKey(fek) && |iv| == BlockSize
    ensures Plain(c, fek, Frame(iv, c.cfbEncrypt(fek, iv, m))) == m
  {
    ParseFrameOfFrame(iv, c.cfbEncrypt(fek, iv, m));
  }

  /** `decrypt_file(file_path, fek)` on a file that is present: the first 16 bytes
      are the IV, the rest the ciphertext; the plaintext goes to `file_path[:-4]`
      and `file_path` is removed. Fails, changing nothing, when the FEK is not an AES
      key or the file is shorter than one IV. */
  function DecryptFileStep(c: Primitives, files: Files, q: Path, fek: Bytes): (r: Result<Files>)
    requires q in files && EndsWithEnc(q)
    ensures r.Success? <==> ValidAesKey(fek) && |files[q]| >= BlockSize && IsFileName(StripEnc(q))
    ensures !ValidAesKey(fek) ==> r == Failure(InvalidKeySize)
    ensures ValidAesKey(fek) && |files[q]| < BlockSize ==> r == Failure(InvalidIvSize)
    ensures ValidAesKey(fek) && |files[q]| >= BlockSize && !IsFileName(StripEnc(q)) ==>
      r == Failure(WriteError(StripEnc(q)).value)
    ensures r.Success? ==> q !in r.value && StripEnc(q) in r.value
    ensures r.Success? ==> forall k :: k != q && k != StripEnc(q) ==>
      (k in r.value <==> k in files) && (k in r.value ==> r.value[k] == files[k])
  {
    if !ValidAesKey(fek) then Failure(InvalidKeySize)
    else if |ParseFrame(files[q]).0| != BlockSize then Failure(InvalidIvSize)
    else if WriteError(StripEnc(q)).Some? then Failure(WriteError(StripEnc(q)).value)
    else Success(files[StripEnc(q) := Plain(c, fek, files[q])] - {q})
  }

  /** `decrypt_file` applied to `walk[0]`, `walk[1]`, ... in turn, stopping at the
      first exception, which ends `decrypt_folder`. A file not yet reached is still
      present, so reading it never fails. */
  function DecryptWalk(c: Primitives, files: Files, walk: seq<Path>, fek: Bytes): (r: Run)
    requires Distinct(walk)
    requires forall q :: q in walk ==> q in files && EndsWithEnc(q)
    ensures forall q :: q in files && q !in walk ==> q in r.store
    decreases |walk|
  {
    if walk == [] then Run(files, None)
    else
      var n := |walk| - 1;
      var before := DecryptWalk(c, files, walk[..n], fek);
      if before.error.Some? then before
      else match DecryptFileStep(c, before.store, walk[n], fek)
        case Success(after) => Run(after, None)
        case Failure(e) => Run(before.store, Some(e))
  }

  /** Taking one more file extends the run by one `decrypt_file` step. */
  lemma DecryptWalkSnoc(c: Primitives, files: Files, walk: seq<Path>, fek: Bytes, q: Path)
    requires Distinct(walk)
    requires forall p :: p in walk ==> p in files && EndsWithEnc(p)
    requires q in files && EndsWithEnc(q) && q !in walk
    ensures Distinct(walk + [q])
    ensures var before := DecryptWalk(c, files, walk, fek);
      DecryptWalk(c, files, walk + [q], fek) ==
        if before.error.Some? then before
        else match DecryptFileStep(c, before.store, q, fek)
          case Success(after) => Run(after, None)
          case Failure(e) => Run(before.store, Some(e))
  {
    assert (walk + [q])[..|walk|] == walk;
  }

  /** Whether the run finishes or stops early, a file is unchanged unless it is one
      of the walked ciphertexts or the plaintext name one of them is restored to;
      and nothing appears but those plaintext names. */
  lemma {:induction false} DecryptWalkFrame(c: Primitives, files: Files, walk: seq<Path>, fek: Bytes)
    requires Distinct(walk)
    requires forall q :: q in walk ==> q in files && EndsWithEnc(q)
    ensures var r := DecryptWalk(c, files, walk, fek);
      && (forall k :: k in files && k !in walk && EncName(k) !in walk ==> k in r.store && r.store[k] == files[k])
      && (forall k :: k in r.store ==> k in files || EncName(k) in walk)
  {
    if walk != [] {
      var n := |walk| - 1;
      var front, q := walk[..n], walk[n];
      assert walk == front + [q];
      DistinctSnoc(front, q);
      DecryptWalkFrame(c, files, front, fek);
      var before := DecryptWalk(c, files, front, fek);
      KeptGrows(files, front, q, before.store);
      if before.error.None? {
        match DecryptFileStep(c, before.store, q, fek)
        case Success(after) =>
          KeptByStep(c, files, walk, q, fek, before.store);
        case Failure(_) =>
      }
    }
  }

  /** `store` differs from `files` only at walked ciphertexts and the plaintext
      names they are restored to. */
  ghost predicate Kept(files: Files, walk: seq<Path>, store: Files) {
    && (forall k :: k in files && k !in walk && EncName(k) !in walk ==> k in store && store[k] == files[k])
    && (forall k :: k in store ==> k in files || EncName(k) in walk)
  }

  /** Walking one more file only widens what may have changed. */
  lemma KeptGrows(files: Files, front: seq<Path>, q: Path, store: Files)
    requires Kept(files, front, store)
    ensures Kept(files, front + [q], store)
  {
    forall k | k in store
      ensures k in files || EncName(k) in front + [q]
    {
    }
  }

  /** A `decrypt_file` step on a walked file only changes that file and its plaintext name. */
  lemma KeptByStep(c: Primitives, files: Files, walk: seq<Path>, q: Path, fek: Bytes, before: Files)
    requires q in walk && q in before && EndsWithEnc(q)
    requires Kept(files, walk, before)
    requires DecryptFileStep(c, before, q, fek).Success?
    ensures Kept(files, walk, DecryptFileStep(c, before, q, fek).value)
  {
    var after := DecryptFileStep(c, before, q, fek).value;
    forall k | k in files && k !in walk && EncName(k) !in walk
      ensures k in after && after[k] == files[k]
    {
      assert k != StripEnc(q);
    }
  }

  /** The preconditions under which a run over `walk` cannot go wrong. */
  predicate CleanWalk(files: Files, walk: seq<Path>, fek: Bytes) {
    && Distinct(walk) && ValidAesKey(fek)
    && forall q :: q in walk ==>
         q in files && EndsWithEnc(q) && |files[q]| >= BlockSize && IsFileName(StripEnc(q)) && StripEnc(q) !in walk
  }

  /** `store` is what decrypting every file of `walk` in `files` should give. */
  ghost predicate Decrypted(c: Primitives, files: Files, walk: seq<Path>, fek: Bytes, store: Files)
    requires forall q :: q in walk ==> q in files && EndsWithEnc(q)
  {
    && (forall q :: q in walk ==>
          q !in store && StripEnc(q) in store && store[StripEnc(q)] == Plain(c, fek, files[q]))
    && (forall k :: k in files && k !in walk && EncName(k) !in walk ==> k in store && store[k] == files[k])
    && (forall k :: k in store ==> (k in files && k !in walk) || EncName(k) in walk)
  }

  /** One more clean `decrypt_file` step keeps the store decrypted. */
  lemma DecryptedSnoc(c: Primitives, files: Files, front: seq<Path>, q: Path, fek: Bytes, before: Files)
    requires CleanWalk(files, front + [q], fek)
    requires Decrypted(c, files, front, fek, before)
    requires q in before && before[q] == files[q]
    ensures DecryptFileStep(c, before, q, fek).Success?
    ensures Decrypted(c, files, front + [q], fek, DecryptFileStep(c, before, q, fek).value)
  {
    var walk := front + [q];
    assert forall p :: p in walk <==> p in front || p == q;
    var after := before[StripEnc(q) := Plain(c, fek, files[q])] - {q};
    assert DecryptFileStep(c, before, q, fek) == Success(after);
    assert StripEnc(q) !in walk;
    forall p | p in walk
      ensures p !in after && StripEnc(p) in after && after[StripEnc(p)] == Plain(c, fek, files[p])
    {
    }
    forall k | k in after
      ensures (k in files && k !in walk) || EncName(k) in walk
    {
      if k != StripEnc(q) {
        assert k in before;
      }
    }
  }

  /** With a walk without repeats, a valid AES key, ciphertexts at least one IV long,
      no walked file restored onto another walked file, and every `q[:-4]` naming a
      file (non-empty, not ending in `/`), the run raises nothing: every walked file
      `q` is gone and `q[:-4]` holds the decryption of its contents; every other
      file not overwritten keeps its contents; nothing else appears. */
  lemma {:induction false} DecryptWalkClean(c: Primitives, files: Files, walk: seq<Path>, fek: Bytes)
    requires CleanWalk(files, walk, fek)
    ensures DecryptWalk(c, files, walk, fek).error == None
    ensures Decrypted(c, files, walk, fek, DecryptWalk(c, files, walk, fek).store)
  {
    if walk != [] {
      var n := |walk| - 1;
      var front := walk[..n];
      var q := walk[n];
      assert walk == front + [q];
      assert CleanWalk(files, front, fek);
      DecryptWalkClean(c, files, front, fek);
      var before := DecryptWalk(c, files, front, fek);
      assert q !in front;
      assert EncName(q) !in front by {
        if EncName(q) in front {
          StripEncName(q);
        }
      }
      DecryptedSnoc(c, files, front, q, fek, before.store);
    }
  }

  /** The files of the walk whose name ends in `.enc`: those `decrypt_folder` handles. */
  function EncryptedUnder(files: Files, root: Path): (s: set<Path>)
    ensures forall q :: q in s <==> q in files && UnderRoot(root, q) && EndsWithEnc(q)
  {
    set q | q in files && UnderRoot(root, q) && EndsWithEnc(q)
  }

  /** `decrypt_file(file_path, fek)`; `file_path` always carries the `.enc` suffix,
      the only way `decrypt_folder` calls it. */
  method DecryptFile(fs: FileSystem, c: Primitives, q: Path, fek: Bytes) returns (outcome: Outcome)
    requires EndsWithEnc(q)
    modifies fs
    ensures q !in old(fs.files) ==> outcome == Raised(FileNotFound(q)) && fs.files == old(fs.files)
    ensures q in old(fs.files) ==>
      match DecryptFileStep(c, old(fs.files), q, fek)
      case Success(after) => outcome == Done && fs.files == after
      case Failure(e) => outcome == Raised(e) && fs.files == old(fs.files)
  {
    var read := fs.Read(q);
    if read.Failure? {
      return Raised(read.error);
    }
    var iv, ciphertext := ParseFrame(read.value).0, ParseFrame(read.value).1;
    if !ValidAesKey(fek) {
      return Raised(InvalidKeySize);
    }
    if |iv| != BlockSize {
      return Raised(InvalidIvSize);
    }
    var plaintext := c.cfbDecrypt(fek, iv, ciphertext);
    var target := StripEnc(q);
    var denied := WriteError(target);
    if denied.Some? {
      return Raised(denied.value);
    }
    fs.Write(target, plaintext);
    fs.Remove(q);
    outcome := Done;
  }

  /** The nested `for` loops of `decrypt_folder` over the `.enc` files of the walk's
      snapshot, in an unspecified order returned as `order`; an exception ends the
      loop, with the files already handled left decrypted. */
  method DecryptEach(fs: FileSystem, c: Primitives, snapshot: set<Path>, fek: Bytes)
    returns (outcome: Outcome, ghost order: seq<Path>)
    requires forall q :: q in snapshot ==> q in fs.files && EndsWithEnc(q)
    modifies fs
    ensures Distinct(order) && forall q :: q in order ==> q in snapshot
    ensures var run := DecryptWalk(c, old(fs.files), order, fek);
      && fs.files == run.store
      && (outcome == Done <==> run.error == None)
      && (outcome.Raised? ==> run.error == Some(outcome.error))
    ensures outcome == Done ==> forall q :: q in snapshot ==> q in order
  {
    ghost var start := fs.files;
    var todo := snapshot;
    order := [];
    outcome := Done;
    while todo != {}
      invariant todo <= snapshot
      invariant Distinct(order)
      invariant forall q :: q in order ==> q in snapshot && q !in todo
      invariant forall q :: q in snapshot ==> q in todo || q in order
      invariant forall q :: q in todo ==> q in fs.files
      invariant fs.files == DecryptWalk(c, start, order, fek).store
      invariant DecryptWalk(c, start, order, fek).error == None
      invariant outcome == Done
      decreases todo
    {
      var q :| q in todo;
      DecryptWalkSnoc(c, start, order, fek, q);
      ghost var step := DecryptFileStep(c, fs.files, q, fek);
      outcome := DecryptFile(fs, c, q, fek);
      order := order + [q];
      if outcome.Raised? {
        assert step == Failure(outcome.error);
        return;
      }
      todo := todo - {q};
    }
  }

  /** `decrypt_folder(folder_path, passphrase)`: the key file is read first, so a
      missing key file raises before any file is touched; the FEK recovered from it
      (right passphrase or not) is then used for every `.enc` file of the walk. The
      key file itself is never removed, and every file that is neither a walked
      ciphertext nor the plaintext name of one keeps its contents. */
  method DecryptFolder(fs: FileSystem, c: Primitives, root: Path, pw: Passphrase)
    returns (outcome: Outcome, ghost fek: Bytes, ghost order: seq<Path>)
    modifies fs
    ensures KeyPath(root) !in old(fs.files) ==>
      outcome == Raised(FileNotFound(KeyPath(root))) && fs.files == old(fs.files)
    ensures KeyPath(root) in old(fs.files) && OpenFek(c, old(fs.files)[KeyPath(root)], pw).Failure? ==>
      outcome == Raised(OpenFek(c, old(fs.files)[KeyPath(root)], pw).error) && fs.files == old(fs.files)
    ensures KeyPath(root) in old(fs.files) && OpenFek(c, old(fs.files)[KeyPath(root)], pw).Success? ==>
      && fek == OpenFek(c, old(fs.files)[KeyPath(root)], pw).value
      && Distinct(order) && (forall q :: q in order ==> q in EncryptedUnder(old(fs.files), root))
      && (var run := DecryptWalk(c, old(fs.files), order, fek);
          && fs.files == run.store
          && (outcome == Done <==> run.error == None)
          && (outcome.Raised? ==> run.error == Some(outcome.error)))
      && (outcome == Done ==> forall q :: q in EncryptedUnder(old(fs.files), root) ==> q in order)
    ensures forall k :: k in old(fs.files) && k !in EncryptedUnder(old(fs.files), root)
                        && EncName(k) !in EncryptedUnder(old(fs.files), root) ==>
      k in fs.files && fs.files[k] == old(fs.files)[k]
  {
    fek, order := [], [];
    var read := fs.Read(KeyPath(root));
    if read.Failure? {
      return Raised(read.error), fek, order;
    }
    var unsealed := OpenFek(c, read.value, pw);
    if unsealed.Failure? {
      return Raised(unsealed.error), fek, order;
    }
    var key := unsealed.value;
    fek := key;
    var snapshot := EncryptedUnder(fs.files, root);
    outcome, order := DecryptEach(fs, c, snapshot, key);
    DecryptWalkFrame(c, old(fs.files), order, key);
  }
}
