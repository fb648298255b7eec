/** The on-disk layout of the folder scheme: how ciphertext files are named,
    how a file's bytes are framed, and where the key file lives. */
module Layout {
  import opened Types
  import opened Crypto

  const EncSuffix: string := ".enc"
  const KeyFileName: string := "folder.key"

  /** `filename.endswith('.enc')` (a path ends with it exactly when its last component does). */
  predicate EndsWithEnc(p: Path) {
    |p| >= |EncSuffix| && p[|p| - |EncSuffix|..] == EncSuffix
  }

  /** `file_path + '.enc'`: the name of a file's ciphertext. */
  function EncName(p: Path): (q: Path)
    ensures EndsWithEnc(q)
    ensures |q| == |p| + |EncSuffix| && q[..|p|] == p
  {
    p + EncSuffix
  }

  /** `file_path[:-4]`: the plaintext name a ciphertext is restored to. */
  function StripEnc(q: Path): (p: Path)
    requires EndsWithEnc(q)
    ensures EncName(p) == q
    ensures |p| + |EncSuffix| == |q|
  {
    q[..|q| - |EncSuffix|]
  }

  /** The names the `.enc` test accepts are exactly the ciphertext names. */
  lemma EndsWithEncIsCiphertextName(p: Path)
    ensures EndsWithEnc(p) <==> exists stem :: p == EncName(stem)
  {
    if EndsWithEnc(p) {
      assert p == EncName(p[..|p| - |EncSuffix|]);
    }
  }

  /** Dropping the suffix undoes adding it, so distinct files get distinct ciphertext names. */
  lemma StripEncName(p: Path)
    ensures StripEnc(EncName(p)) == p
  {
    assert EncName(p)[..|p|] == p;
  }

  lemma EncNameInjective(p: Path, q: Path)
    requires EncName(p) == EncName(q)
    ensures p == q
  {
    StripEncName(p);
    StripEncName(q);
  }

  /** `os.path.join(dir, name)` as the POSIX path module computes it for a relative
      `name` (every name joined here is one): a separator is inserted only when `dir`
      is non-empty and does not already end in one. */
  function Join(dir: Path, name: string): (r: Path)
    ensures |r| == (if IsFileName(dir) then |dir| + 1 + |name| else |dir| + |name|)
    ensures r[..|dir|] == dir && r[|r| - |name|..] == name
    ensures IsFileName(dir) ==> r[|dir|] == '/'
  {
    if IsFileName(dir) then dir + "/" + name else dir + name
  }

  /** `os.path.join(folder_path, 'folder.key')` */
  function KeyPath(root: Path): (k: Path)
    ensures |k| >= |root| + |KeyFileName| && k[..|root|] == root
    ensures k[|k| - |KeyFileName|..] == KeyFileName
  {
    Join(root, KeyFileName)
  }

  /** `p` is a file `os.walk(root)` reaches, at any depth: it extends the root
      followed by a separator. An empty root walks nothing. */
  predicate UnderRoot(root: Path, p: Path) {
    var top := Join(root, "");
    |root| > 0 && |top| < |p| && p[..|top|] == top
  }

  /** The files `os.walk(root)` lists, taken as a snapshot of the store. */
  function WalkFiles(files: Files, root: Path): (s: set<Path>)
    ensures forall p :: p in s <==> p in files && UnderRoot(root, p)
    ensures |root| == 0 ==> s == {}
  {
    set p | p in files && UnderRoot(root, p)
  }

  /** The key file is not itself a ciphertext name, and for a non-empty root it sits
      under the root. */
  lemma KeyPathShape(root: Path)
    ensures |root| > 0 ==> UnderRoot(root, KeyPath(root))
    ensures !EndsWithEnc(KeyPath(root))
  {
    var k := KeyPath(root);
    var top := Join(root, "");
    assert k[..|top|] == top;
    assert k[|k| - 4..] == ".key";
  }

  /** Appending the suffix keeps a path under the root. */
  lemma EncNameUnderRoot(root: Path, p: Path)
    requires UnderRoot(root, p)
    ensures UnderRoot(root, EncName(p))
  {
    var top := Join(root, "");
    assert EncName(p)[..|top|] == p[..|top|];
  }

  /** A root written with or without its trailing separator walks the same files
      and keeps its key file at the same path; the empty root walks nothing and
      keeps its key file in the working directory. */
  lemma RootSpellings(files: Files, root: Path)
    requires IsFileName(root)
    ensures KeyPath(root + "/") == KeyPath(root)
    ensures WalkFiles(files, root + "/") == WalkFiles(files, root)
    ensures WalkFiles(files, "") == {} && KeyPath("") == KeyFileName
  {
    assert Join(root + "/", "") == Join(root, "");
  }

  /** `iv + ciphertext`: how a ciphertext file is laid out. */
  function Frame(iv: Bytes, ct: Bytes): (r: Bytes)
    ensures |r| == |iv| + |ct| && r[..|iv|] == iv && r[|iv|..] == ct
  {
    iv + ct
  }

  /** `f.read(16)` then `f.read()`: the first (up to) 16 bytes, then the rest. */
  function ParseFrame(b: Bytes): (r: (Bytes, Bytes))
    ensures r.0 + r.1 == b
    ensures |r.0| == Min(BlockSize, |b|)
  {
    (b[..Min(BlockSize, |b|)], b[Min(BlockSize, |b|)..])
  }

  /** Reading a frame back recovers the IV and the ciphertext it was written from. */
  lemma ParseFrameOfFrame(iv: Bytes, ct: Bytes)
    requires |iv| == BlockSize
    ensures ParseFrame(Frame(iv, ct)) == (iv, ct)
  {
    assert Frame(iv, ct)[..BlockSize] == iv;
    assert Frame(iv, ct)[BlockSize..] == ct;
  }
}
