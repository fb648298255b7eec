# Folder envelope encryption, modelled in Dafny

The repository protects a directory tree with envelope encryption. `encrypt_folder`
(main.py) draws one random 32-byte File Encryption Key (FEK). It replaces every
file the walk of the folder finds with `<name>.enc`, which holds a fresh 16-byte
IV followed by the AES-CFB ciphertext of the file under the FEK, and removes the
original. It then seals the FEK under a PBKDF2-HMAC-SHA256 key derived from the
passphrase and a fresh salt, and writes the 64-byte envelope
`IV ++ salt ++ encrypted FEK` to `<root>/folder.key`. `decrypt_folder`
(decrypt.py) reads the envelope back, recovers the FEK, and turns every
`<name>.enc` file under the root back into `<name>`. A second, independent scheme
(Encryption.py) protects the single file `hello.txt` with a Fernet token under a
passphrase-derived key. It keeps the salt in `hello.txt.salt` and overwrites
every file it consumes with random bytes before removing it.

The model is organised as follows:

- `types.dfy`: bytes, paths, the file store as a `map<Path, Bytes>`, and the
  exceptions the code can raise.
- `crypto.dfy`: the library calls as parameters (`Crypto.Primitives`), and the
  only facts the proofs use about them (`Crypto.Sound`). Those facts are:
  - a derived key has the requested length;
  - CFB decryption inverts CFB encryption;
  - CFB preserves length;
  - a Fernet token opens under the key that made it.
- `store.dfy`: the disk as a class whose `files` map the methods update, and
  `os.urandom` as a class drawing from a fixed stream of bytes.
- `layout.dfy`: the naming (`.enc` suffix, `folder.key`) and the framing of a
  ciphertext file.
- `folder_encrypt.dfy` and `folder_decrypt.dfy`: the two folder operations.
  Each is an imperative method proved against a pure specification. The
  specification is a fold of the per-file step over the walk order.
- `round_trip.dfy`: decryption undoes encryption, at three levels: the
  envelope, one file, and a whole folder.
- `single_file.dfy`: the Fernet-based single-file scheme.

The walk of the folder is taken as a snapshot of the files under the root. The
files are processed in an order the model does not fix, and every proof holds
for every such order.

What the code does that a reader might not expect:

- Encryption does not skip files that already end in `.enc`, and it does not
  skip an existing `folder.key`.
- Nothing in the folder scheme is securely erased. Originals and ciphertexts
  are removed with a plain `os.remove`.
- `folder.key` is never removed by decryption.
- The first exception ends a folder operation, with the files already handled
  left transformed. Errors are not collected per file.
- A wrong passphrase is not detected. Any envelope of at least 16 bytes opens
  to some key (`FolderDecrypt.OpenFekAcceptsAnyPassphrase`).
- An envelope of the wrong length is not rejected as such. Python slices clamp,
  and only an IV shorter than 16 bytes raises.
- The root is joined to names the way `os.path.join` does. `test` and `test/`
  reach the same files and the same `folder.key`. An empty root walks nothing and
  puts `folder.key` in the working directory.
- A file named exactly `.enc` is restored to the directory path itself. Opening
  that path for writing raises, so decryption stops there.

## Model

| member | source | states |
|---|---|---|
| Crypto.DeriveKey | main.py:12-20 | with a working library the PBKDF2 key (SHA-256, 100000 iterations, 32 bytes) is 32 bytes long, so a valid AES key, whatever the passphrase and salt |
| Store.Entropy.Urandom | main.py:27 | `os.urandom(n)` yields the next `n` bytes of the random stream and advances it by `n` |
| Store.FileSystem.Read | main.py:24-25 | reading a present file yields its bytes; reading a missing file raises FileNotFound for that path |
| Store.FileSystem.Write | main.py:32-33 | writing creates or replaces exactly that path, nothing else changes |
| Store.WriteError | decrypt.py:39 | opening a path for writing fails exactly when it cannot name a file: the empty path raises FileNotFound and a path ending in `/` raises IsADirectory |
| Store.FileSystem.Remove | main.py:34 | `os.remove` drops exactly that path |
| Store.FileSystem.Exists | Encryption.py:38-39 | `os.path.exists` is membership in the store |
| Store.FileSystem.Size | Encryption.py:42 | `os.path.getsize` is the length of the file's bytes |
| Layout.EndsWithEncIsCiphertextName | decrypt.py:55 | the names `filename.endswith('.enc')` accepts are exactly the names `file_path + '.enc'` produces |
| Layout.EncName | main.py:32 | the ciphertext name ends in `.enc` and has the plaintext name as its prefix |
| Layout.StripEnc | decrypt.py:39 | dropping the last 4 characters of a `.enc` name gives the name whose ciphertext name it is |
| Layout.StripEncName | decrypt.py:39 | stripping the suffix undoes adding it |
| Layout.EncNameInjective | main.py:32 | distinct files get distinct ciphertext names |
| Layout.Join | main.py:57 | `os.path.join` keeps the directory as a prefix and the name as a suffix, and puts one `/` between them only when the directory is non-empty and does not already end in `/` |
| Layout.KeyPath | main.py:61 | the key path starts with the root and ends with `folder.key` |
| Layout.WalkFiles | main.py:55-57 | the walk lists exactly the files strictly under the root, with or without a trailing `/` on it; an empty root walks nothing |
| Layout.RootSpellings | main.py:55-61 | for every store and every root naming a file, the root with a trailing `/` gives the same key path and the same walk as without; the empty root walks nothing and keeps `folder.key` in the working directory |
| Layout.KeyPathShape | main.py:61 | `folder.key` does not end in `.enc`, and for a non-empty root it lies under the root |
| Layout.EncNameUnderRoot | main.py:32 | a file's ciphertext stays under the same root |
| Layout.Frame | main.py:33 | the ciphertext file is the IV followed by the ciphertext, neither shortened |
| Layout.ParseFrame | decrypt.py:31-33 | the first read returns min(16, size) bytes, and the two reads together give back the whole file |
| Layout.ParseFrameOfFrame | decrypt.py:31-33 | reading a file written as `iv + ciphertext` with a 16-byte IV recovers the IV and the ciphertext |
| FolderEncrypt.SealFek | main.py:37-44 | sealing raises InvalidKeySize when the derived key is not an AES key, else InvalidIvSize when the IV is not 16 bytes, and succeeds otherwise; the envelope holds the IV, then the salt, then the CFB encryption of the FEK under the key derived from the passphrase and that salt |
| FolderEncrypt.EnvelopeLayout | main.py:44 | with a working library, a 32-byte FEK and 16-byte draws, sealing succeeds and the envelope is 64 bytes, with the IV in bytes 0-15 and the salt in 16-31 |
| FolderEncrypt.EncryptFileStep | main.py:23-34 | the original is gone, its `.enc` file is at least as long as the IV and starts with it, and every other file is unchanged |
| FolderEncrypt.EncryptWalk | main.py:55-58 | applying the step along the walk never meets a missing file: every unwalked file is still present |
| FolderEncrypt.EncryptWalkFrame | main.py:55-58 | a file that is neither walked nor the ciphertext name of a walked file keeps its contents |
| FolderEncrypt.EncryptedAllSnoc | main.py:58 | one more `encrypt_file` call on a file with a free ciphertext name keeps every walked file replaced by its framed ciphertext and everything else as it was |
| FolderEncrypt.EncryptWalkAll | main.py:55-58 | with no `.enc` names in the walk and no ciphertext names taken, each walked file is replaced by `iv_i + CFB(FEK, iv_i, contents)`, the rest is kept, and nothing else appears |
| FolderEncrypt.FolderFrame | main.py:52-61 | what `encrypt_folder` leaves alone: every file other than `folder.key` that is neither walked nor a walked file's ciphertext name |
| FolderEncrypt.EncryptWalkSnoc | main.py:55-58 | one more loop iteration extends the walk by one `encrypt_file` step |
| FolderEncrypt.DrawnIvAt | main.py:27 | the i-th IV drawn during the walk is the 16 bytes of the stream at offset 16·i from where the walk started |
| FolderEncrypt.DrawnIvsAreBlocks | main.py:27 | every IV drawn during the walk is 16 bytes long |
| FolderEncrypt.IvsInDrawOrder | main.py:27 | the next IV drawn is the next 16 bytes of the stream, so it extends the IVs drawn so far |
| FolderEncrypt.GenerateFek | main.py:8-9 | the FEK is the next 32 random bytes |
| FolderEncrypt.EncryptFile | main.py:23-34 | a missing file raises before any draw; otherwise an IV is drawn; a wrong-size FEK then raises with the store unchanged, else the store becomes the encrypt step |
| FolderEncrypt.EncryptFek | main.py:37-44 | draws the salt, then the IV, and returns what sealing with them gives, the key or IV error included; both draws happen even when it raises |
| FolderEncrypt.StoreEncryptedFek | main.py:47-49 | the store holds exactly the envelope at the given path |
| FolderEncrypt.EncryptEach | main.py:55-58 | every snapshot file is encrypted exactly once, in some order, the i-th with the i-th IV drawn |
| FolderEncrypt.SealAndStoreFek | main.py:60-61 | draws the salt and the IV; when sealing raises, the exception is the outcome and the store is unchanged; otherwise exactly the envelope is written to the given path |
| FolderEncrypt.EncryptFolder | main.py:52-61 | FEK first, then one IV per walked file in walk order, then salt and IV of the envelope; the new store is the walk fold plus `folder.key`, or the walk fold alone when sealing raises, which is then the outcome; every unrelated file is unchanged |
| FolderDecrypt.OpenFek | decrypt.py:19-27 | opening succeeds exactly when the envelope has at least 16 bytes and the derived key is a valid AES key; an invalid key raises InvalidKeySize first, otherwise a short envelope raises InvalidIvSize |
| FolderDecrypt.OpenFekAcceptsAnyPassphrase | decrypt.py:19-27 | any envelope of at least 16 bytes opens under any passphrase, to `size - 32` bytes (0 if shorter than 32): a wrong passphrase is not detected |
| FolderDecrypt.Plain | decrypt.py:31-37 | with a working library and a valid key, the plaintext of a file of at least 16 bytes is 16 bytes shorter than the file |
| FolderDecrypt.PlainOfFrame | decrypt.py:31-37 | decrypting a file written as `iv + CFB(fek, iv, m)` with a 16-byte IV gives `m` back |
| FolderDecrypt.DecryptFileStep | decrypt.py:30-41 | succeeds exactly with a valid AES key, a file of at least 16 bytes and a plaintext name that can name a file; otherwise the key error, the IV error, or the error of opening that name for writing (FileNotFound for a file named `.enc` in the working directory, IsADirectory for one named `.enc` in a directory) is raised; on success the `.enc` file is gone, its plaintext name is present, and every other file is unchanged |
| FolderDecrypt.DecryptWalk | decrypt.py:53-57 | the run stops at the first exception, and every file not yet reached is still present |
| FolderDecrypt.DecryptWalkSnoc | decrypt.py:53-57 | one more loop iteration extends the run by one `decrypt_file` step, unless it has already raised |
| FolderDecrypt.DecryptWalkFrame | decrypt.py:53-57 | whether the run finishes or stops, only walked ciphertexts and their plaintext names change, and nothing else appears |
| FolderDecrypt.KeptByStep | decrypt.py:39-41 | a `decrypt_file` step on a walked file changes only that file and its plaintext name |
| FolderDecrypt.DecryptedSnoc | decrypt.py:57 | one more clean `decrypt_file` step keeps the store fully decrypted |
| FolderDecrypt.DecryptWalkClean | decrypt.py:53-57 | with a walk without repeats, a valid key, framed ciphertexts, no plaintext name that is itself walked and every plaintext name naming a file (non-empty, not ending in `/`), the run raises nothing; each ciphertext is replaced by its decryption, the rest is kept, and nothing else appears |
| FolderDecrypt.EncryptedUnder | decrypt.py:53-55 | the files decryption handles are exactly those under the root whose name ends in `.enc` |
| FolderDecrypt.DecryptFile | decrypt.py:30-41 | a missing file raises FileNotFound; otherwise the store and the exception follow the decrypt step, the store unchanged on error |
| FolderDecrypt.DecryptEach | decrypt.py:53-57 | the loop is the run over some order of the snapshot; on normal completion every snapshot file was handled; a raise leaves the run's partial store |
| FolderDecrypt.DecryptFolder | decrypt.py:44-57 | a missing `folder.key` or an envelope that fails to open raises with nothing changed; otherwise the store is the run with the recovered FEK; `folder.key` is never removed, and a file changes only if it is a walked ciphertext or the plaintext name of one (so `folder.key` is overwritten when `folder.key.enc` is present) |
| RoundTrip.EnvelopeRoundTrip | decrypt.py:19-27 | with a working library and 16-byte draws, sealing succeeds and opening the envelope with the same passphrase yields the FEK |
| RoundTrip.FileRoundTrip | decrypt.py:30-41 | for a path that names a file, decrypting its ciphertext after encrypting it gives back the original store, less any earlier `.enc` file |
| RoundTrip.WalkedPaths | main.py:55-58 | on a fresh folder every walked file is present, is no ciphertext name, and has a ciphertext name that is free and is not `folder.key` |
| RoundTrip.EncryptedShape | main.py:52-61 | on a fresh folder, each walked file's ciphertext is framed with its own IV, and the `.enc` files decryption will find are exactly those ciphertexts |
| RoundTrip.CiphertextsFound | decrypt.py:53-55 | after encryption, the `.enc` files under the root are exactly the walked files' ciphertext names |
| RoundTrip.DecryptableAfterEncrypt | decrypt.py:53-57 | any walk over the `.enc` files encryption produced meets the conditions of a clean decryption run |
| RoundTrip.RestoresNothingElse | decrypt.py:44-57 | after the round trip, the only file that was not there before is `folder.key` |
| RoundTrip.RestoresEveryFile | decrypt.py:44-57 | after the round trip, every original file has its original bytes, and `folder.key` holds the envelope |
| RoundTrip.RestoresOriginal | decrypt.py:44-57 | the decrypted store is exactly the original store plus `folder.key` |
| RoundTrip.FolderRoundTrip | decrypt.py:44-57 | on a fresh folder with a working library, sealing succeeds and decrypt after encrypt with the same passphrase raises nothing and restores every file byte for byte, for every walk order and every random draw |
| RoundTrip.EncryptThenDecryptFolder | main.py:52-61 | running both methods in turn on a fresh folder raises in neither, and ends with the original store plus `folder.key`, which holds a 64-byte envelope that opens under the passphrase to the FEK, the first 32 bytes drawn |
| SingleFile.NamesDistinct | Encryption.py:9-11 | `hello.txt`, `hello.txt.enc` and `hello.txt.salt` are pairwise different |
| SingleFile.GenerateKeyFromPassphrase | Encryption.py:13-32 | a given salt is used as is and nothing is drawn; without one, 16 fresh bytes are drawn; the key is the 32-byte PBKDF2 key of the passphrase and that salt |
| SingleFile.SecureDelete | Encryption.py:34-49 | a missing file is a no-op that draws nothing; otherwise one random byte is drawn per file byte and the file is gone |
| SingleFile.EncryptFileSpec | Encryption.py:51-87 | a missing `hello.txt` raises and changes nothing; otherwise the token of its bytes under the derived key and the salt are written, the plaintext is gone, and every other file is unchanged |
| SingleFile.DecryptFileSpec | Encryption.py:89-126 | a missing salt file, then a missing token file, then a rejected token raise in that order; success exactly when the token opens; then the plaintext is back and both side files are gone |
| SingleFile.EncryptFile | Encryption.py:51-87 | the salt is drawn before the file is read; the store and the draws follow the encryption spec, unchanged on error |
| SingleFile.DecryptFile | Encryption.py:89-126 | the store follows the decryption spec, unchanged and with nothing drawn on error; on success the two erasures draw one byte per erased byte |
| SingleFile.EncryptThenDecryptFile | Encryption.py:89-126 | encrypting then decrypting with the same passphrase ends normally and leaves the original store, less any earlier token or salt file |
| SingleFile.SingleFileRoundTrip | Encryption.py:110-118 | with the same passphrase, decryption after encryption succeeds and restores `hello.txt` byte for byte |
| SingleFile.EncryptTwiceFails | Encryption.py:64-65 | a second encryption raises FileNotFound for `hello.txt`, because the first removed it |
| SingleFile.DecryptTwiceFails | Encryption.py:96-97 | a second decryption raises FileNotFound for the salt file, because the first removed it |

## Left out

- The internals of PBKDF2, AES-CFB and Fernet. They are parameters, and only the facts in `Crypto.Sound` are assumed about them.
- The security properties: secrecy, IV and salt uniqueness, and integrity. `os.urandom` is a fixed but arbitrary stream, so nothing about its randomness is modelled.
- The timestamp in a Fernet token. The code passes no `ttl` to `decrypt`, so no time check happens, in the code or in the model. The token is a function of the key, the data and Fernet's own 16-byte IV draw.
- The base64 text form of the Fernet key. The model uses the 32 raw PBKDF2 bytes it encodes. Building the Fernet object from that key cannot fail.
- The UTF-8 encoding of the passphrase. It is part of the key derivation parameter.
- Directories. The store is a flat map from paths to bytes. A path ending in `/` is refused for writing, as `open` refuses a directory, but a path that runs through a file as if it were a directory is not. Writing `folder.key` or a plaintext into a missing directory, and walking an empty directory, are not modelled.
- The walk order of `os.walk`, and which directory a file lies in. The walk is a snapshot of the files under the root, taken in any order.
- Other spellings of the same path. Each file is held under the one spelling that `Join` produces from the root as given, so a root such as `./test` or `test//` walks nothing in the model when the files are stored as `test/…`, although `os.walk` would reach them.
- `os.path.join` with an absolute name, which discards the directory. Every name joined here is relative: `folder.key` or a name the walk lists.
- The fresh-folder round-trip lemmas assume every file under the root can be named as a file, that is, it is non-empty and does not end in `/`. The store of a real walk never holds anything else.
- PermissionError and other operating-system failures. The model has no permissions.
- The physical effect of secure erasure. The overwrite is modelled as a write of fresh random bytes followed by removal. What a disk retains is not modelled.
- The printed messages and the swallowing of exceptions in the single-file scheme. Its methods return the exception as an `Outcome`, where the code prints it.
- `main()` in all three files: the interactive prompts and the existence check on the `test` folder.
