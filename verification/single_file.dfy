/** The single-file scheme: one fixed file sealed with a Fernet token under a
    passphrase-derived key, the salt kept in a side file, and every file it
    consumes overwritten with random bytes before removal. */
module SingleFile {
  import opened Types
  import opened Crypto
  import opened Store

  /** The file the scheme protects. */
  const FileName: Path := "hello.txt"
  /** Where its Fernet token goes. */
  const EncryptedFileName: Path := FileName + ".enc"
  /** Where the PBKDF2 salt goes. */
  const SaltFileName: Path := FileName + ".salt"

  /** The three names are pairwise different. */
  lemma NamesDistinct()
    ensures FileName != EncryptedFileName && FileName != SaltFileName && EncryptedFileName != SaltFileName
  {
    assert |FileName| == 9 && |EncryptedFileName| == 13 && |SaltFileName| == 14;
  }

  /** Key derivation with an optional salt: a supplied salt is used as it is and
      nothing is drawn; otherwise a fresh 16-byte salt is drawn first. The
      derived key is the one the folder scheme uses (same hash, length and
      iteration count); its base64 text form is not modelled. */
  method GenerateKeyFromPassphrase(rng: Entropy, c: Primitives, pw: Passphrase, salt: Option<Bytes>)
    returns (key: Bytes, usedSalt: Bytes)
    modifies rng
    ensures salt.Some? ==> usedSalt == salt.value && rng.drawn == old(rng.drawn)
    ensures salt.None? ==> usedSalt == Draw(rng.source, old(rng.drawn), SaltLength)
                           && rng.drawn == old(rng.drawn) + SaltLength
    ensures key == DeriveKey(c, pw, usedSalt)
    ensures Sound(c) ==> |key| == KeyLength
  {
    if salt.None? {
      usedSalt := rng.Urandom(SaltLength);
    } else {
      usedSalt := salt.value;
    }
    key := DeriveKey(c, pw, usedSalt);
  }

  /** Overwrite a file with as many random bytes as it holds, then remove it;
      a missing file is left alone and nothing is drawn. */
  method SecureDelete(fs: FileSystem, rng: Entropy, p: Path)
    modifies fs, rng
    ensures fs.files == old(fs.files) - {p}
    ensures p !in old(fs.files) ==> rng.drawn == old(rng.drawn)
    ensures p in old(fs.files) ==> rng.drawn == old(rng.drawn) + |old(fs.files)[p]|
  {
    var present := fs.Exists(p);
    if !present {
      return;
    }
    var size := fs.Size(p);
    var noise := rng.Urandom(size);
    fs.Write(p, noise);
    fs.Remove(p);
  }

  /** The store after encrypting `FileName` with the given salt and Fernet IV:
      the token and the salt are written to their files and the plaintext is
      gone; everything else stays. A missing plaintext raises and changes
      nothing. */
  function EncryptFileSpec(c: Primitives, files: Files, pw: Passphrase, salt: Bytes, fernetIv: Bytes)
    : (r: Result<Files>)
    ensures FileName !in files ==> r == Failure(FileNotFound(FileName))
    ensures FileName in files ==> r.Success?
    ensures r.Success? ==>
      && FileName !in r.value
      && EncryptedFileName in r.value
      && r.value[EncryptedFileName] == c.fernetEncrypt(DeriveKey(c, pw, salt), files[FileName], fernetIv)
      && SaltFileName in r.value && r.value[SaltFileName] == salt
    ensures r.Success? ==> forall k :: k != FileName && k != EncryptedFileName && k != SaltFileName ==>
      (k in r.value <==> k in files) && (k in files ==> r.value[k] == files[k])
  {
    NamesDistinct();
    if FileName !in files then
      Failure(FileNotFound(FileName))
    else
      var token := c.fernetEncrypt(DeriveKey(c, pw, salt), files[FileName], fernetIv);
      Success(files[EncryptedFileName := token][SaltFileName := salt] - {FileName})
  }

  /** The store after decrypting: the salt file is read first, then the token;
      either missing raises that name's error, a token that does not open
      raises `InvalidToken`, and in all three cases nothing changes. On success
      the plaintext is back in `FileName` and both the token and the salt file
      are gone. */
  function DecryptFileSpec(c: Primitives, files: Files, pw: Passphrase): (r: Result<Files>)
    ensures SaltFileName !in files ==> r == Failure(FileNotFound(SaltFileName))
    ensures SaltFileName in files && EncryptedFileName !in files ==> r == Failure(FileNotFound(EncryptedFileName))
    ensures r.Success? <==>
      && SaltFileName in files && EncryptedFileName in files
      && c.fernetDecrypt(DeriveKey(c, pw, files[SaltFileName]), files[EncryptedFileName]).Some?
    ensures SaltFileName in files && EncryptedFileName in files && r.Failure? ==> r.error == InvalidToken
    ensures r.Success? ==>
      && EncryptedFileName !in r.value && SaltFileName !in r.value
      && FileName in r.value
      && Some(r.value[FileName]) == c.fernetDecrypt(DeriveKey(c, pw, files[SaltFileName]), files[EncryptedFileName])
    ensures r.Success? ==> forall k :: k != FileName && k != EncryptedFileName && k != SaltFileName ==>
      (k in r.value <==> k in files) && (k in files ==> r.value[k] == files[k])
  {
    NamesDistinct();
    if SaltFileName !in files then
      Failure(FileNotFound(SaltFileName))
    else if EncryptedFileName !in files then
      Failure(FileNotFound(EncryptedFileName))
    else
      match c.fernetDecrypt(DeriveKey(c, pw, files[SaltFileName]), files[EncryptedFileName])
      case None => Failure(InvalidToken)
      case Some(data) => Success(files[FileName := data] - {EncryptedFileName, SaltFileName})
  }

  /** Encrypt `FileName`. The salt is drawn before the file is read, so a
      missing file still consumes 16 random bytes; on success Fernet draws its
      IV and the secure erase draws one byte per plaintext byte. */
  method EncryptFile(fs: FileSystem, rng: Entropy, c: Primitives, pw: Passphrase)
    returns (outcome: Outcome, ghost salt: Bytes, ghost fernetIv: Bytes)
    modifies fs, rng
    ensures salt == Draw(rng.source, old(rng.drawn), SaltLength)
    ensures fernetIv == Draw(rng.source, old(rng.drawn) + SaltLength, BlockSize)
    ensures match EncryptFileSpec(c, old(fs.files), pw, salt, fernetIv)
      case Failure(e) =>
        outcome == Raised(e) && fs.files == old(fs.files) && rng.drawn == old(rng.drawn) + SaltLength
      case Success(s) =>
        && outcome == Done && fs.files == s
        && rng.drawn == old(rng.drawn) + SaltLength + BlockSize + |old(fs.files)[FileName]|
  {
    NamesDistinct();
    var key, usedSalt := GenerateKeyFromPassphrase(rng, c, pw, None);
    salt := usedSalt;
    fernetIv := Draw(rng.source, rng.drawn, BlockSize);
    var read := fs.Read(FileName);
    if read.Failure? {
      outcome := Raised(read.error);
      return;
    }
    var iv := rng.Urandom(BlockSize);
    var token := c.fernetEncrypt(key, read.value, iv);
    fs.Write(EncryptedFileName, token);
    fs.Write(SaltFileName, usedSalt);
    SecureDelete(fs, rng, FileName);
    outcome := Done;
  }

  /** Decrypt back into `FileName`, then securely erase the token and the salt
      file, drawing one random byte per byte erased. Failures draw nothing. */
  method DecryptFile(fs: FileSystem, rng: Entropy, c: Primitives, pw: Passphrase) returns (outcome: Outcome)
    modifies fs, rng
    ensures match DecryptFileSpec(c, old(fs.files), pw)
      case Failure(e) =>
        outcome == Raised(e) && fs.files == old(fs.files) && rng.drawn == old(rng.drawn)
      case Success(s) =>
        && outcome == Done && fs.files == s
        && rng.drawn == old(rng.drawn) + |old(fs.files)[EncryptedFileName]| + |old(fs.files)[SaltFileName]|
  {
    NamesDistinct();
    var saltRead := fs.Read(SaltFileName);
    if saltRead.Failure? {
      outcome := Raised(saltRead.error);
      return;
    }
    var key, sameSalt := GenerateKeyFromPassphrase(rng, c, pw, Some(saltRead.value));
    var tokenRead := fs.Read(EncryptedFileName);
    if tokenRead.Failure? {
      outcome := Raised(tokenRead.error);
      return;
    }
    var plain := c.fernetDecrypt(key, tokenRead.value);
    if plain.None? {
      outcome := Raised(InvalidToken);
      return;
    }
    fs.Write(FileName, plain.value);
    SecureDelete(fs, rng, EncryptedFileName);
    SecureDelete(fs, rng, SaltFileName);
    outcome := Done;
  }

  /** Decrypting with the same passphrase after encrypting restores the
      plaintext exactly; what was in the token and salt files before is gone. */
  lemma SingleFileRoundTrip(c: Primitives, files: Files, pw: Passphrase, salt: Bytes, fernetIv: Bytes)
    requires Sound(c)
    requires FileName in files
    ensures EncryptFileSpec(c, files, pw, salt, fernetIv).Success?
    ensures DecryptFileSpec(c, EncryptFileSpec(c, files, pw, salt, fernetIv).value, pw)
            == Success(files - {EncryptedFileName, SaltFileName})
  {
    NamesDistinct();
    var enc := EncryptFileSpec(c, files, pw, salt, fernetIv).value;
    var key := DeriveKey(c, pw, salt);
    assert enc[SaltFileName] == salt;
    assert c.fernetDecrypt(key, enc[EncryptedFileName]) == Some(files[FileName]);
    var dec := DecryptFileSpec(c, enc, pw);
    assert dec.Success?;
    var want := files - {EncryptedFileName, SaltFileName};
    forall k
      ensures k in dec.value <==> k in want
      ensures k in want ==> dec.value[k] == want[k]
    {
    }
    assert dec.value == want;
  }

  /** Encrypting and then decrypting with the same passphrase raises nothing and
      leaves the store as it was, less any earlier token or salt file. */
  method EncryptThenDecryptFile(fs: FileSystem, rng: Entropy, c: Primitives, pw: Passphrase)
    returns (encrypted: Outcome, decrypted: Outcome)
    requires Sound(c)
    requires FileName in fs.files
    modifies fs, rng
    ensures encrypted == Done && decrypted == Done
    ensures fs.files == old(fs.files) - {EncryptedFileName, SaltFileName}
  {
    ghost var files := fs.files;
    ghost var salt: Bytes, fernetIv: Bytes;
    encrypted, salt, fernetIv := EncryptFile(fs, rng, c, pw);
    SingleFileRoundTrip(c, files, pw, salt, fernetIv);
    decrypted := DecryptFile(fs, rng, c, pw);
  }

  /** The plaintext is gone after a successful encryption, so encrypting again
      raises a missing-file error. */
  lemma EncryptTwiceFails(c: Primitives, files: Files, pw: Passphrase, salt: Bytes, fernetIv: Bytes,
                          salt2: Bytes, fernetIv2: Bytes)
    requires EncryptFileSpec(c, files, pw, salt, fernetIv).Success?
    ensures EncryptFileSpec(c, EncryptFileSpec(c, files, pw, salt, fernetIv).value, pw, salt2, fernetIv2)
            == Failure(FileNotFound(FileName))
  {
  }

  /** The salt file is gone after a successful decryption, so decrypting again
      raises a missing-file error for it. */
  lemma DecryptTwiceFails(c: Primitives, files: Files, pw: Passphrase)
    requires DecryptFileSpec(c, files, pw).Success?
    ensures DecryptFileSpec(c, DecryptFileSpec(c, files, pw).value, pw) == Failure(FileNotFound(SaltFileName))
  {
  }
}
