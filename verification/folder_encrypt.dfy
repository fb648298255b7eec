/** Folder encryption (main.py): one random File Encryption Key (FEK) for the
    whole folder, every walked file replaced by `<name>.enc` holding
    `iv ++ AES-CFB(FEK, iv, contents)`, then the FEK sealed under a
    passphrase-derived key and written to `<root>/folder.key`. */
module FolderEncrypt {
  import opened Types
  import opened Crypto
  import opened Store
  import opened Layout

  /** `encrypt_fek` once its two random draws are given: `iv ++ salt ++ encrypted FEK`.
      Building the cipher checks the derived key's size first, then the IV's. */
  function SealFek(c: Primitives, fek: Bytes, pw: Passphrase, salt: Bytes, iv: Bytes): (r: Result<Bytes>)
    ensures r.Success? <==> ValidAesKey(DeriveKey(c, pw, salt)) && |iv| == BlockSize
    ensures !ValidAesKey(DeriveKey(c, pw, salt)) ==> r == Failure(InvalidKeySize)
    ensures ValidAesKey(DeriveKey(c, pw, salt)) && |iv| != BlockSize ==> r == Failure(InvalidIvSize)
    ensures r.Success? ==>
      && |r.value| >= |iv| + |salt|
      && r.value[..|iv|] == iv && r.value[|iv|..|iv| + |salt|] == salt
      && r.value[|iv| + |salt|..] == c.cfbEncrypt(DeriveKey(c, pw, salt), iv, fek)
  {
    var key := DeriveKey(c, pw, salt);
    if !ValidAesKey(key) then Failure(InvalidKeySize)
    else if |iv| != BlockSize then Failure(InvalidIvSize)
    else Success(iv + salt + c.cfbEncrypt(key, iv, fek))
  }

  /** With a working library, a 32-byte FEK and 16-byte draws, sealing succeeds and
      the envelope is 64 bytes: IV in bytes 0-15, salt in bytes 16-31, encrypted FEK
      in bytes 32-63. */
  lemma EnvelopeLayout(c: Primitives, fek: Bytes, pw: Passphrase, salt: Bytes, iv: Bytes)
    requires Sound(c)
    requires |fek| == KeyLength && |salt| == SaltLength && |iv| == BlockSize
    ensures SealFek(c, fek, pw, salt, iv).Success?
    ensures var env := SealFek(c, fek, pw, salt, iv).value;
      |env| == 64 && env[..16] == iv && env[16..32] == salt
  {
    assert |DeriveKey(c, pw, salt)| == KeyLength;
  }

  /** The store after `encrypt_file(p, fek)` has succeeded with IV `iv`. */
  function EncryptFileStep(c: Primitives, files: Files, p: Path, fek: Bytes, iv: Bytes): (r: Files)
    requires p in files
    ensures p !in r && EncName(p) in r
    ensures |r[EncName(p)]| >= |iv| && r[EncName(p)][..|iv|] == iv
    ensures forall q :: q != p && q != EncName(p) ==>
      (q in r <==> q in files) && (q in r ==> r[q] == files[q])
  {
    files[EncName(p) := Frame(iv, c.cfbEncrypt(fek, iv, files[p]))] - {p}
  }

  /** The store after `encrypt_file` has been applied to `walk[0]`, ..., `walk[|walk|-1]`
      in that order, the i-th with IV `ivs[i]`. A file not yet reached is still
      present, so the walk never meets a missing file. */
  function EncryptWalk(c: Primitives, files: Files, walk: seq<Path>, fek: Bytes, ivs: seq<Bytes>): (r: Files)
    requires Distinct(walk) && |ivs| == |walk|
    requires forall p :: p in walk ==> p in files
    ensures forall q :: q in files && q !in walk ==> q in r
    decreases |walk|
  {
    if walk == [] then files
    else
      var n := |walk| - 1;
      var before := EncryptWalk(c, files, walk[..n], fek, ivs[..n]);
      EncryptFileStep(c, before, walk[n], fek, ivs[n])
  }

  /** Whatever the walk, a file that is neither walked nor the ciphertext name of a
      walked file keeps its contents. */
  lemma {:induction false} EncryptWalkFrame(c: Primitives, files: Files, walk: seq<Path>, fek: Bytes, ivs: seq<Bytes>)
    requires Distinct(walk) && |ivs| == |walk|
    requires forall p :: p in walk ==> p in files
    ensures forall q :: q in files && q !in walk && !(EndsWithEnc(q) && StripEnc(q) in walk) ==>
      q in EncryptWalk(c, files, walk, fek, ivs) && EncryptWalk(c, files, walk, fek, ivs)[q] == files[q]
  {
    if walk != [] {
      var n := |walk| - 1;
      EncryptWalkFrame(c, files, walk[..n], fek, ivs[..n]);
      forall q | q in files && q !in walk && !(EndsWithEnc(q) && StripEnc(q) in walk)
        ensures EncryptWalk(c, files, walk, fek, ivs)[q] == files[q]
      {
        if q == EncName(walk[n]) {
          StripEncName(walk[n]);
          assert false;
        }
        assert q !in walk[..n];
      }
    }
  }

  /** `r` is what encrypting every file of `walk` in `files` should give: each
      walked file replaced by its framed ciphertext, every other file kept, and
      nothing else present. */
  ghost predicate EncryptedAll(c: Primitives, files: Files, walk: seq<Path>, fek: Bytes, ivs: seq<Bytes>, r: Files)
    requires |ivs| == |walk| && forall p :: p in walk ==> p in files
  {
    && (forall i :: 0 <= i < |walk| ==>
          walk[i] !in r && EncName(walk[i]) in r &&
          r[EncName(walk[i])] == Frame(ivs[i], c.cfbEncrypt(fek, ivs[i], files[walk[i]])))
    && (forall q :: q in files && q !in walk ==> q in r && r[q] == files[q])
    && (forall q :: q in r ==> (q in files && q !in walk) || (EndsWithEnc(q) && StripEnc(q) in walk))
  }

  /** One more `encrypt_file` step, on a file that is no ciphertext name and whose
      ciphertext name is free, keeps the store fully encrypted. */
  lemma EncryptedAllSnoc(c: Primitives, files: Files, walk: seq<Path>, ivs: seq<Bytes>,
                         front: seq<Path>, ivsFront: seq<Bytes>, p: Path, iv: Bytes, fek: Bytes, before: Files)
    requires walk == front + [p] && ivs == ivsFront + [iv]
    requires Distinct(walk) && |ivsFront| == |front|
    requires forall q :: q in walk ==> q in files && !EndsWithEnc(q) && EncName(q) !in files
    requires EncryptedAll(c, files, front, fek, ivsFront, before)
    ensures p in before
    ensures EncryptedAll(c, files, walk, fek, ivs, EncryptFileStep(c, before, p, fek, iv))
  {
    DistinctSnoc(front, p);
    var n := |front|;
    var r := EncryptFileStep(c, before, p, fek, iv);
    StripEncName(p);
    forall i | 0 <= i < |walk|
      ensures walk[i] !in r && EncName(walk[i]) in r
      ensures r[EncName(walk[i])] == Frame(ivs[i], c.cfbEncrypt(fek, ivs[i], files[walk[i]]))
    {
      if i < n {
        assert front[i] == walk[i] && ivsFront[i] == ivs[i];
        StripEncName(walk[i]);
        if EncName(walk[i]) == EncName(p) {
          EncNameInjective(walk[i], p);
        }
      }
    }
    forall q | q in files && q !in walk
      ensures q in r && r[q] == files[q]
    {
      assert q !in front;
    }
    forall q | q in r
      ensures (q in files && q !in walk) || (EndsWithEnc(q) && StripEnc(q) in walk)
    {
      if q != EncName(p) {
        assert q in before;
      }
    }
  }

  /** With no walked file already named like a ciphertext and no ciphertext name
      already taken, each walked file `walk[i]` is replaced by
      `ivs[i] ++ CFB(fek, ivs[i], contents)`, every other file keeps its contents,
      and nothing else appears. */
  lemma {:induction false} EncryptWalkAll(c: Primitives, files: Files, walk: seq<Path>, fek: Bytes, ivs: seq<Bytes>)
    requires Distinct(walk) && |ivs| == |walk|
    requires forall p :: p in walk ==> p in files && !EndsWithEnc(p) && EncName(p) !in files
    ensures EncryptedAll(c, files, walk, fek, ivs, EncryptWalk(c, files, walk, fek, ivs))
  {
    if walk != [] {
      var n := |walk| - 1;
      assert walk == walk[..n] + [walk[n]] && ivs == ivs[..n] + [ivs[n]];
      EncryptWalkAll(c, files, walk[..n], fek, ivs[..n]);
      EncryptedAllSnoc(c, files, walk, ivs, walk[..n], ivs[..n], walk[n], ivs[n], fek,
                       EncryptWalk(c, files, walk[..n], fek, ivs[..n]));
    }
  }

  /** What `encrypt_folder` leaves alone, whether or not sealing the key succeeds:
      every file other than the key file that is neither walked nor named like the
      ciphertext of a walked file. */
  lemma FolderFrame(c: Primitives, files: Files, root: Path, walk: seq<Path>, fek: Bytes, ivs: seq<Bytes>,
                    sealed: Result<Bytes>)
    requires Distinct(walk) && |ivs| == |walk|
    requires forall p :: p in walk <==> p in WalkFiles(files, root)
    ensures var r := if sealed.Success? then EncryptWalk(c, files, walk, fek, ivs)[KeyPath(root) := sealed.value]
                     else EncryptWalk(c, files, walk, fek, ivs);
      forall k :: k in files && k != KeyPath(root) && k !in WalkFiles(files, root)
                  && !(EndsWithEnc(k) && StripEnc(k) in WalkFiles(files, root)) ==>
        k in r && r[k] == files[k]
  {
    EncryptWalkFrame(c, files, walk, fek, ivs);
  }

  /** Taking one more file extends the walk by one `encrypt_file` step. */
  lemma EncryptWalkSnoc(c: Primitives, files: Files, walk: seq<Path>, fek: Bytes, ivs: seq<Bytes>, p: Path, iv: Bytes)
    requires Distinct(walk) && |ivs| == |walk|
    requires forall q :: q in walk ==> q in files
    requires p in files && p !in walk
    ensures Distinct(walk + [p])
    ensures EncryptWalk(c, files, walk + [p], fek, ivs + [iv])
         == EncryptFileStep(c, EncryptWalk(c, files, walk, fek, ivs), p, fek, iv)
  {
    assert (walk + [p])[..|walk|] == walk;
    assert (ivs + [iv])[..|ivs|] == ivs;
  }

  /** The IVs of `count` files drawn one after another, 16 bytes each, from
      position `base` of the stream on. */
  function DrawnIvs(source: nat -> Byte, base: nat, count: nat): (ivs: seq<Bytes>)
    ensures |ivs| == count
  {
    if count == 0 then []
    else DrawnIvs(source, base, count - 1) + [Draw(source, base + 16 * (count - 1), BlockSize)]
  }

  /** The i-th IV is the 16 bytes at position `base + 16 * i`, so each is one block long. */
  lemma {:induction false} DrawnIvAt(source: nat -> Byte, base: nat, count: nat, i: nat)
    requires i < count
    ensures DrawnIvs(source, base, count)[i] == Draw(source, base + 16 * i, BlockSize)
    ensures |DrawnIvs(source, base, count)[i]| == BlockSize
  {
    if i < count - 1 {
      DrawnIvAt(source, base, count - 1, i);
    }
  }

  /** Every IV drawn in turn is one block long. */
  lemma DrawnIvsAreBlocks(source: nat -> Byte, base: nat, count: nat, ivs: seq<Bytes>)
    requires ivs == DrawnIvs(source, base, count)
    ensures forall i :: 0 <= i < |ivs| ==> |ivs[i]| == BlockSize
  {
    forall i | 0 <= i < |ivs|
      ensures |ivs[i]| == BlockSize
    {
      DrawnIvAt(source, base, count, i);
    }
  }

  /** Drawing the IV at the next position extends the IVs drawn so far. */
  lemma IvsInDrawOrder(source: nat -> Byte, base: nat, ivs: seq<Bytes>, at: nat, iv: Bytes)
    requires ivs == DrawnIvs(source, base, |ivs|)
    requires at == base + 16 * |ivs| && iv == Draw(source, at, BlockSize)
    ensures ivs + [iv] == DrawnIvs(source, base, |ivs| + 1)
  {
  }

  /** `generate_fek`: 32 fresh random bytes. */
  method GenerateFek(rng: Entropy) returns (fek: Bytes)
    modifies rng
    ensures |fek| == KeyLength
    ensures fek == Draw(rng.source, old(rng.drawn), KeyLength)
    ensures rng.drawn == old(rng.drawn) + KeyLength
  {
    fek := rng.Urandom(KeyLength);
  }

  /** `encrypt_file(file_path, fek)`: read the file, draw an IV, encrypt, write
      `file_path + '.enc'`, remove the original. A missing file raises before any
      draw; an FEK of the wrong size raises after the IV draw but before any write. */
  method EncryptFile(fs: FileSystem, rng: Entropy, c: Primitives, p: Path, fek: Bytes)
    returns (outcome: Outcome, ghost iv: Bytes)
    modifies fs, rng
    ensures p !in old(fs.files) ==>
      outcome == Raised(FileNotFound(p)) && fs.files == old(fs.files) && rng.drawn == old(rng.drawn)
    ensures p in old(fs.files) ==>
      && iv == Draw(rng.source, old(rng.drawn), BlockSize)
      && rng.drawn == old(rng.drawn) + BlockSize
      && (ValidAesKey(fek) ==> outcome == Done && fs.files == EncryptFileStep(c, old(fs.files), p, fek, iv))
      && (!ValidAesKey(fek) ==> outcome == Raised(InvalidKeySize) && fs.files == old(fs.files))
  {
    iv := [];
    var read := fs.Read(p);
    if read.Failure? {
      return Raised(read.error), iv;
    }
    var plaintext := read.value;
    var freshIv := rng.Urandom(BlockSize);
    iv := freshIv;
    if !ValidAesKey(fek) {
      return Raised(InvalidKeySize), iv;
    }
    var ciphertext := c.cfbEncrypt(fek, freshIv, plaintext);
    fs.Write(EncName(p), Frame(freshIv, ciphertext));
    fs.Remove(p);
    outcome := Done;
  }

  /** `encrypt_fek(fek, passphrase)`: draws the salt, then the IV, and only then
      builds the cipher, so both draws happen even when it raises. */
  method EncryptFek(rng: Entropy, c: Primitives, fek: Bytes, pw: Passphrase) returns (sealed: Result<Bytes>)
    modifies rng
    ensures sealed == SealFek(c, fek, pw, Draw(rng.source, old(rng.drawn), SaltLength),
                              Draw(rng.source, old(rng.drawn) + SaltLength, BlockSize))
    ensures rng.drawn == old(rng.drawn) + SaltLength + BlockSize
  {
    var salt := rng.Urandom(SaltLength);
    var key := DeriveKey(c, pw, salt);
    var iv := rng.Urandom(BlockSize);
    if !ValidAesKey(key) {
      return Failure(InvalidKeySize);
    }
    if |iv| != BlockSize {
      return Failure(InvalidIvSize);
    }
    sealed := Success(iv + salt + c.cfbEncrypt(key, iv, fek));
  }

  /** `store_encrypted_fek(encrypted_fek, path)`: the store holds exactly `env` at `path`. */
  method StoreEncryptedFek(fs: FileSystem, env: Bytes, path: Path)
    modifies fs
    ensures fs.files == old(fs.files)[path := env]
  {
    fs.Write(path, env);
  }

  /** The nested `for` loops of `encrypt_folder`: `encrypt_file(p, fek)` for every
      file of the walk's snapshot, in an unspecified order returned as `order`; the
      i-th file taken gets the i-th 16 random bytes drawn as its IV. */
  method EncryptEach(fs: FileSystem, rng: Entropy, c: Primitives, snapshot: set<Path>, fek: Bytes)
    returns (ghost order: seq<Path>, ghost ivs: seq<Bytes>)
    requires ValidAesKey(fek)
    requires forall p :: p in snapshot ==> p in fs.files
    modifies fs, rng
    ensures Distinct(order) && forall p :: p in order <==> p in snapshot
    ensures |ivs| == |order|
    ensures ivs == DrawnIvs(rng.source, old(rng.drawn), |order|)
    ensures rng.drawn == old(rng.drawn) + 16 * |order|
    ensures fs.files == EncryptWalk(c, old(fs.files), order, fek, ivs)
  {
    ghost var start := fs.files;
    ghost var d0 := rng.drawn;
    ghost var src := rng.source;
    var todo := snapshot;
    order, ivs := [], [];
    while todo != {}
      invariant todo <= snapshot
      invariant Distinct(order)
      invariant forall p :: p in order ==> p in snapshot && p !in todo
      invariant forall p :: p in snapshot ==> p in todo || p in order
      invariant forall p :: p in todo ==> p in fs.files
      invariant |ivs| == |order|
      invariant ivs == DrawnIvs(src, d0, |ivs|)
      invariant rng.drawn == d0 + 16 * |order|
      invariant fs.files == EncryptWalk(c, start, order, fek, ivs)
      decreases todo
    {
      var p :| p in todo;
      ghost var at := rng.drawn;
      var outcome, iv := EncryptFile(fs, rng, c, p, fek);
      IvsInDrawOrder(src, d0, ivs, at, iv);
      EncryptWalkSnoc(c, start, order, fek, ivs, p, iv);
      order, ivs := order + [p], ivs + [iv];
      todo := todo - {p};
    }
  }

  /** `encrypt_folder(folder_path, passphrase)`. The walk's file set is fixed when the
      walk starts; files are taken in an unspecified order, returned as `order`. The
      FEK is the first 32 random bytes, the i-th file's IV the next 16 bytes after
      i earlier IVs, then come the salt and the IV of the envelope. The key file is
      written after the loop, so it is never encrypted by the run that writes it;
      when sealing the FEK raises, the files stay encrypted and no key file is
      written. */
  method EncryptFolder(fs: FileSystem, rng: Entropy, c: Primitives, root: Path, pw: Passphrase)
    returns (outcome: Outcome, ghost fek: Bytes, ghost order: seq<Path>, ghost ivs: seq<Bytes>,
             ghost salt: Bytes, ghost envIv: Bytes, ghost sealed: Result<Bytes>)
    modifies fs, rng
    ensures fek == Draw(rng.source, old(rng.drawn), KeyLength)
    ensures Distinct(order) && forall p :: p in order <==> p in WalkFiles(old(fs.files), root)
    ensures |ivs| == |order|
    ensures ivs == DrawnIvs(rng.source, old(rng.drawn) + KeyLength, |order|)
    ensures var d := old(rng.drawn) + KeyLength + 16 * |order|;
      && salt == Draw(rng.source, d, SaltLength)
      && envIv == Draw(rng.source, d + SaltLength, BlockSize)
      && rng.drawn == d + SaltLength + BlockSize
    ensures sealed == SealFek(c, fek, pw, salt, envIv)
    ensures outcome == if sealed.Success? then Done else Raised(sealed.error)
    ensures fs.files == if sealed.Success? then EncryptWalk(c, old(fs.files), order, fek, ivs)[KeyPath(root) := sealed.value]
                        else EncryptWalk(c, old(fs.files), order, fek, ivs)
    ensures forall k :: k in old(fs.files) && k != KeyPath(root) && k !in WalkFiles(old(fs.files), root)
                        && !(EndsWithEnc(k) && StripEnc(k) in WalkFiles(old(fs.files), root)) ==>
      k in fs.files && fs.files[k] == old(fs.files)[k]
  {
    var key := GenerateFek(rng);
    fek := key;
    var snapshot := WalkFiles(fs.files, root);
    order, ivs := EncryptEach(fs, rng, c, snapshot, key);
    ghost var d := rng.drawn;
    assert d == old(rng.drawn) + KeyLength + 16 * |order|;
    outcome, salt, envIv, sealed := SealAndStoreFek(fs, rng, c, key, pw, KeyPath(root));
    assert salt == Draw(rng.source, d, SaltLength);
    assert envIv == Draw(rng.source, d + SaltLength, BlockSize);
    FolderFrame(c, old(fs.files), root, order, fek, ivs, sealed);
  }

  /** `encrypt_fek` followed by `store_encrypted_fek`, the last two statements of
      `encrypt_folder`: the envelope is written to `path` unless sealing raises. */
  method SealAndStoreFek(fs: FileSystem, rng: Entropy, c: Primitives, fek: Bytes, pw: Passphrase, path: Path)
    returns (outcome: Outcome, ghost salt: Bytes, ghost iv: Bytes, ghost sealed: Result<Bytes>)
    modifies fs, rng
    ensures salt == Draw(rng.source, old(rng.drawn), SaltLength)
    ensures iv == Draw(rng.source, old(rng.drawn) + SaltLength, BlockSize)
    ensures rng.drawn == old(rng.drawn) + SaltLength + BlockSize
    ensures sealed == SealFek(c, fek, pw, salt, iv)
    ensures outcome == if sealed.Success? then Done else Raised(sealed.error)
    ensures fs.files == if sealed.Success? then old(fs.files)[path := sealed.value] else old(fs.files)
  {
    salt, iv := Draw(rng.source, rng.drawn, SaltLength), Draw(rng.source, rng.drawn + SaltLength, BlockSize);
    var result := EncryptFek(rng, c, fek, pw);
    sealed := result;
    if result.Failure? {
      return Raised(result.error), salt, iv, sealed;
    }
    StoreEncryptedFek(fs, result.value, path);
    outcome := Done;
  }
}
