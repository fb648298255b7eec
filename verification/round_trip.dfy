/** What the folder scheme promises end to end: decryption undoes encryption, for
    the key envelope, for one file, and for a whole folder. */
module RoundTrip {
  import opened Types
  import opened Crypto
  import opened Store
  import opened Layout
  import opened FolderEncrypt
  import opened FolderDecrypt

  /** `decrypt_fek(encrypt_fek(fek, p), p) == fek`, for every FEK and passphrase. */
  lemma EnvelopeRoundTrip(c: Primitives, fek: Bytes, pw: Passphrase, salt: Bytes, iv: Bytes)
    requires Sound(c)
    requires |salt| == SaltLength && |iv| == BlockSize
    ensures SealFek(c, fek, pw, salt, iv).Success?
    ensures OpenFek(c, SealFek(c, fek, pw, salt, iv).value, pw) == Success(fek)
  {
    assert |DeriveKey(c, pw, salt)| == KeyLength;
    var env := SealFek(c, fek, pw, salt, iv).value;
    assert env[..16] == iv && env[16..32] == salt;
  }

  /** `decrypt_file(p + '.enc', fek)` after `encrypt_file(p, fek)` gives back exactly
      the store `encrypt_file` started from, less any earlier `p.enc`. */
  lemma FileRoundTrip(c: Primitives, files: Files, p: Path, fek: Bytes, iv: Bytes)
    requires Sound(c)
    requires p in files && IsFileName(p) && ValidAesKey(fek) && |iv| == BlockSize
    ensures EncName(p) in EncryptFileStep(c, files, p, fek, iv)
    ensures DecryptFileStep(c, EncryptFileStep(c, files, p, fek, iv), EncName(p), fek)
         == Success(files - {EncName(p)})
  {
    PlainOfFrame(c, fek, iv, files[p]);
    StripEncName(p);
    var after := EncryptFileStep(c, files, p, fek, iv)[p := files[p]] - {EncName(p)};
    assert after == files - {EncName(p)};
  }

  /** Every file of the walk is a regular file without a ciphertext name, and
      there is no key file yet. */
  predicate Fresh(files: Files, root: Path) {
    && (forall p :: p in files && UnderRoot(root, p) ==> IsFileName(p) && !EndsWithEnc(p))
    && KeyPath(root) !in files
  }

  /** The store `encrypt_folder` leaves, given its walk order and random draws. */
  function Encrypted(c: Primitives, files: Files, root: Path, walk: seq<Path>, fek: Bytes, ivs: seq<Bytes>, env: Bytes): Files
    requires Distinct(walk) && |ivs| == |walk|
    requires forall p :: p in walk <==> p in WalkFiles(files, root)
  {
    EncryptWalk(c, files, walk, fek, ivs)[KeyPath(root) := env]
  }

  /** On a fresh folder, the walk's files are replaced by their ciphertexts, framed
      with their own IV under the one FEK, and the `.enc` files `decrypt_folder`
      will find are exactly those ciphertexts. */
  lemma EncryptedShape(c: Primitives, files: Files, root: Path, walk: seq<Path>, fek: Bytes, ivs: seq<Bytes>, env: Bytes)
    requires Fresh(files, root)
    requires Distinct(walk) && |ivs| == |walk|
    requires forall p :: p in walk <==> p in WalkFiles(files, root)
    ensures var enc := Encrypted(c, files, root, walk, fek, ivs, env);
      && KeyPath(root) in enc && enc[KeyPath(root)] == env
      && (forall i :: 0 <= i < |walk| ==>
            EncName(walk[i]) in enc &&
            enc[EncName(walk[i])] == Frame(ivs[i], c.cfbEncrypt(fek, ivs[i], files[walk[i]])))
      && (forall q :: q in EncryptedUnder(enc, root) <==> EndsWithEnc(q) && StripEnc(q) in walk)
      && (forall q :: q in files && q !in walk ==> q in enc && enc[q] == files[q])
      && (forall q :: q in enc ==> q == KeyPath(root) || (q in files && q !in walk) || (EndsWithEnc(q) && StripEnc(q) in walk))
  {
    WalkedPaths(files, root, walk);
    EncryptWalkAll(c, files, walk, fek, ivs);
    CiphertextsFound(c, files, root, walk, fek, ivs, env);
  }

  /** On a fresh folder, each walked file is present under a plain name whose
      ciphertext name is free and differs from the key file's. */
  lemma WalkedPaths(files: Files, root: Path, walk: seq<Path>)
    requires Fresh(files, root)
    requires forall p :: p in walk <==> p in WalkFiles(files, root)
    ensures forall p :: p in walk ==>
      p in files && !EndsWithEnc(p) && EncName(p) !in files && EncName(p) != KeyPath(root)
  {
    KeyPathShape(root);
    forall p | p in walk
      ensures p in files && !EndsWithEnc(p) && EncName(p) !in files && EncName(p) != KeyPath(root)
    {
      assert p in WalkFiles(files, root);
      EncNameUnderRoot(root, p);
    }
  }

  /** The `.enc` files under the root after encryption are exactly the walked
      files' ciphertexts. */
  lemma CiphertextsFound(c: Primitives, files: Files, root: Path, walk: seq<Path>, fek: Bytes, ivs: seq<Bytes>, env: Bytes)
    requires Fresh(files, root)
    requires Distinct(walk) && |ivs| == |walk|
    requires forall p :: p in walk <==> p in WalkFiles(files, root)
    requires var r := EncryptWalk(c, files, walk, fek, ivs);
      && (forall i :: 0 <= i < |walk| ==> EncName(walk[i]) in r)
      && (forall q :: q in r ==> (q in files && q !in walk) || (EndsWithEnc(q) && StripEnc(q) in walk))
    ensures forall q :: q in EncryptedUnder(Encrypted(c, files, root, walk, fek, ivs, env), root)
                        <==> EndsWithEnc(q) && StripEnc(q) in walk
  {
    KeyPathShape(root);
    var r := EncryptWalk(c, files, walk, fek, ivs);
    forall q
      ensures q in EncryptedUnder(Encrypted(c, files, root, walk, fek, ivs, env), root)
              <==> EndsWithEnc(q) && StripEnc(q) in walk
    {
      if EndsWithEnc(q) && StripEnc(q) in walk {
        var p := StripEnc(q);
        var i :| 0 <= i < |walk| && walk[i] == p;
        assert EncName(walk[i]) in r;
        EncNameUnderRoot(root, p);
      }
    }
  }

  /** The draws and walk order of one `encrypt_folder` run on a fresh folder. */
  ghost predicate EncryptionRun(files: Files, root: Path, walk: seq<Path>, fek: Bytes, ivs: seq<Bytes>) {
    && Fresh(files, root)
    && Distinct(walk) && (forall p :: p in walk <==> p in WalkFiles(files, root))
    && |fek| == KeyLength && |ivs| == |walk|
    && forall i :: 0 <= i < |ivs| ==> |ivs[i]| == BlockSize
  }

  /** A walk order of the `.enc` files `decrypt_folder` finds under the root. */
  ghost predicate DecryptionWalk(enc: Files, root: Path, walk2: seq<Path>) {
    Distinct(walk2) && forall q :: q in walk2 <==> q in EncryptedUnder(enc, root)
  }

  /** What encryption leaves on a fresh folder meets every condition of a clean
      decryption run, over all of its `.enc` files or any part of them: a 32-byte
      key, and ciphertexts long enough to hold an IV whose plaintext names are not
      themselves ciphertexts. */
  lemma DecryptableAfterEncrypt(c: Primitives, files: Files, root: Path, walk: seq<Path>, fek: Bytes,
                                ivs: seq<Bytes>, env: Bytes, walk2: seq<Path>)
    requires EncryptionRun(files, root, walk, fek, ivs)
    requires Distinct(walk2)
    requires forall q :: q in walk2 ==> q in EncryptedUnder(Encrypted(c, files, root, walk, fek, ivs, env), root)
    ensures CleanWalk(Encrypted(c, files, root, walk, fek, ivs, env), walk2, fek)
  {
    var enc := Encrypted(c, files, root, walk, fek, ivs, env);
    EncryptedShape(c, files, root, walk, fek, ivs, env);
    forall q | q in walk2
      ensures q in enc && EndsWithEnc(q) && |enc[q]| >= BlockSize && IsFileName(StripEnc(q)) && StripEnc(q) !in walk2
    {
      var i :| 0 <= i < |walk| && walk[i] == StripEnc(q);
      assert enc[EncName(walk[i])] == Frame(ivs[i], c.cfbEncrypt(fek, ivs[i], files[walk[i]]));
    }
  }

  /** Decrypting the encrypted folder produces no file that was not there before,
      except `folder.key`. */
  lemma RestoresNothingElse(c: Primitives, files: Files, root: Path, walk: seq<Path>, fek: Bytes,
                            ivs: seq<Bytes>, env: Bytes, walk2: seq<Path>, store: Files)
    requires EncryptionRun(files, root, walk, fek, ivs)
    requires DecryptionWalk(Encrypted(c, files, root, walk, fek, ivs, env), root, walk2)
    requires CleanWalk(Encrypted(c, files, root, walk, fek, ivs, env), walk2, fek)
    requires Decrypted(c, Encrypted(c, files, root, walk, fek, ivs, env), walk2, fek, store)
    ensures forall k :: k in store ==> k in files || k == KeyPath(root)
  {
    EncryptedShape(c, files, root, walk, fek, ivs, env);
    forall k | k in store
      ensures k in files || k == KeyPath(root)
    {
      if EncName(k) in walk2 {
        StripEncName(k);
      }
    }
  }

  /** Decrypting the encrypted folder restores every original file's bytes, and
      `folder.key` still holds the envelope. */
  lemma RestoresEveryFile(c: Primitives, files: Files, root: Path, walk: seq<Path>, fek: Bytes,
                          ivs: seq<Bytes>, env: Bytes, walk2: seq<Path>, store: Files)
    requires Sound(c)
    requires EncryptionRun(files, root, walk, fek, ivs)
    requires DecryptionWalk(Encrypted(c, files, root, walk, fek, ivs, env), root, walk2)
    requires CleanWalk(Encrypted(c, files, root, walk, fek, ivs, env), walk2, fek)
    requires Decrypted(c, Encrypted(c, files, root, walk, fek, ivs, env), walk2, fek, store)
    ensures forall k :: k in files ==> k in store && store[k] == files[k]
    ensures KeyPath(root) in store && store[KeyPath(root)] == env
  {
    var enc := Encrypted(c, files, root, walk, fek, ivs, env);
    EncryptedShape(c, files, root, walk, fek, ivs, env);
    KeyPathShape(root);
    StripEncName(KeyPath(root));
    assert KeyPath(root) !in walk2 && EncName(KeyPath(root)) !in walk2;
    forall k | k in files
      ensures k in store && store[k] == files[k]
    {
      StripEncName(k);
      if k in walk {
        var i :| 0 <= i < |walk| && walk[i] == k;
        var q := EncName(k);
        assert q in walk2;
        PlainOfFrame(c, fek, ivs[i], files[k]);
        assert store[k] == Plain(c, fek, enc[q]);
      } else {
        assert k !in walk2 && EncName(k) !in walk2;
      }
    }
  }

  /** Together: the decrypted store is the original one plus `folder.key`. */
  lemma RestoresOriginal(c: Primitives, files: Files, root: Path, walk: seq<Path>, fek: Bytes,
                         ivs: seq<Bytes>, env: Bytes, walk2: seq<Path>, store: Files)
    requires Sound(c)
    requires EncryptionRun(files, root, walk, fek, ivs)
    requires DecryptionWalk(Encrypted(c, files, root, walk, fek, ivs, env), root, walk2)
    requires CleanWalk(Encrypted(c, files, root, walk, fek, ivs, env), walk2, fek)
    requires Decrypted(c, Encrypted(c, files, root, walk, fek, ivs, env), walk2, fek, store)
    ensures store == files[KeyPath(root) := env]
  {
    RestoresNothingElse(c, files, root, walk, fek, ivs, env, walk2, store);
    RestoresEveryFile(c, files, root, walk, fek, ivs, env, walk2, store);
    SameStore(files, KeyPath(root), env, store);
  }

  /** A store holding every original file unchanged, the envelope at the key path
      and nothing else is the original store with the envelope added. */
  lemma SameStore(files: Files, key: Path, env: Bytes, store: Files)
    requires forall k :: k in store ==> k in files || k == key
    requires forall k :: k in files ==> k in store && store[k] == files[k]
    requires key in store && store[key] == env
    ensures store == files[key := env]
  {
  }

  /** On a fresh folder, decrypting what encryption left, with the FEK the envelope
      yields for the same passphrase, raises nothing and gives back every original
      file byte for byte; the only file added is `folder.key`, which holds the
      envelope. This holds for every order of either walk and every random draw. */
  lemma FolderRoundTrip(c: Primitives, files: Files, root: Path, pw: Passphrase,
                        walk: seq<Path>, fek: Bytes, ivs: seq<Bytes>,
                        salt: Bytes, iv: Bytes, walk2: seq<Path>)
    requires Sound(c)
    requires EncryptionRun(files, root, walk, fek, ivs)
    requires |salt| == SaltLength && |iv| == BlockSize
    requires DecryptionWalk(Encrypted(c, files, root, walk, fek, ivs, SealFek(c, fek, pw, salt, iv).value), root, walk2)
    ensures SealFek(c, fek, pw, salt, iv).Success?
    ensures var env := SealFek(c, fek, pw, salt, iv).value;
      var enc := Encrypted(c, files, root, walk, fek, ivs, env);
      && KeyPath(root) in enc
      && OpenFek(c, enc[KeyPath(root)], pw) == Success(fek)
      && DecryptWalk(c, enc, walk2, fek) == Run(files[KeyPath(root) := env], None)
  {
    var env := SealFek(c, fek, pw, salt, iv).value;
    var enc := Encrypted(c, files, root, walk, fek, ivs, env);
    assert enc[KeyPath(root)] == env;
    EnvelopeRoundTrip(c, fek, pw, salt, iv);
    DecryptableAfterEncrypt(c, files, root, walk, fek, ivs, env, walk2);
    DecryptWalkClean(c, enc, walk2, fek);
    var run := DecryptWalk(c, enc, walk2, fek);
    RestoresOriginal(c, files, root, walk, fek, ivs, env, walk2, run.store);
  }

  /** Running `encrypt_folder` and then `decrypt_folder` with the same passphrase on
      a fresh folder raises nothing and leaves every original file as it was, plus
      `folder.key` holding the envelope; whatever the random bytes and walk orders. */
  method EncryptThenDecryptFolder(fs: FileSystem, rng: Entropy, c: Primitives, root: Path, pw: Passphrase)
    returns (encrypted: Outcome, decrypted: Outcome, ghost env: Bytes)
    requires Sound(c)
    requires Fresh(fs.files, root)
    modifies fs, rng
    ensures encrypted == Done && decrypted == Done
    ensures fs.files == old(fs.files)[KeyPath(root) := env]
    ensures |env| == 64 && OpenFek(c, env, pw) == Success(Draw(rng.source, old(rng.drawn), KeyLength))
  {
    ghost var files := fs.files;
    ghost var d0 := rng.drawn;
    ghost var fek: Bytes, walk: seq<Path>, ivs: seq<Bytes>, salt: Bytes, iv: Bytes, sealed: Result<Bytes>;
    encrypted, fek, walk, ivs, salt, iv, sealed := EncryptFolder(fs, rng, c, root, pw);
    EnvelopeRoundTrip(c, fek, pw, salt, iv);
    EnvelopeLayout(c, fek, pw, salt, iv);
    env := sealed.value;
    DrawnIvsAreBlocks(rng.source, d0 + KeyLength, |walk|, ivs);
    assert EncryptionRun(files, root, walk, fek, ivs);
    ghost var enc := fs.files;
    assert enc == Encrypted(c, files, root, walk, fek, ivs, env);
    ghost var fek2: Bytes, order: seq<Path>;
    decrypted, fek2, order := DecryptFolder(fs, c, root, pw);
    assert fek2 == fek;
    DecryptableAfterEncrypt(c, files, root, walk, fek, ivs, env, order);
    DecryptWalkClean(c, enc, order, fek);
    assert DecryptionWalk(enc, root, order);
    FolderRoundTrip(c, files, root, pw, walk, fek, ivs, salt, iv, order);
  }
}
