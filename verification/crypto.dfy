/** The cryptographic library calls, kept abstract: PBKDF2-HMAC-SHA256
    (section 5.2 of RFC 8018), AES in CFB mode (section 6.3 of NIST SP 800-38A)
    and Fernet. They are parameters of the model; `Sound` lists the only
    facts about them that the proofs use. */
module Crypto {
  import opened Types

  /** `length=32` of every PBKDF2HMAC call. */
  const KeyLength: nat := 32
  /** `iterations=100000` of every PBKDF2HMAC call. */
  const Iterations: nat := 100000
  /** AES block size, hence the CFB IV size. */
  const BlockSize: nat := 16
  /** `os.urandom(16)` salts. */
  const SaltLength: nat := 16

  /** Key lengths the AES algorithm object accepts for CFB mode. */
  predicate ValidAesKey(key: Bytes) {
    |key| == 16 || |key| == 24 || |key| == 32
  }

  datatype Primitives = Primitives(
    /** pbkdf2(passphrase, salt, iterations, length) */
    pbkdf2: (Passphrase, Bytes, nat, nat) -> Bytes,
    /** cfbEncrypt(key, iv, plaintext) */
    cfbEncrypt: (Bytes, Bytes, Bytes) -> Bytes,
    /** cfbDecrypt(key, iv, ciphertext) */
    cfbDecrypt: (Bytes, Bytes, Bytes) -> Bytes,
    /** fernetEncrypt(key, data, iv): the token; `iv` stands for Fernet's own random draw */
    fernetEncrypt: (Bytes, Bytes, Bytes) -> Bytes,
    /** fernetDecrypt(key, token): None when the token does not authenticate */
    fernetDecrypt: (Bytes, Bytes) -> Option<Bytes>)

  /** The library behaves as documented: derived keys have the requested length,
      CFB decryption inverts CFB encryption under the same key and IV, CFB
      preserves lengths (stream mode, no padding), and a Fernet token opens
      under the key that made it. */
  ghost predicate Sound(c: Primitives) {
    && (forall pw, salt, iters, len :: |c.pbkdf2(pw, salt, iters, len)| == len)
    && (forall key, iv, x :: ValidAesKey(key) && |iv| == BlockSize ==>
          c.cfbDecrypt(key, iv, c.cfbEncrypt(key, iv, x)) == x)
    && (forall key, iv, x :: ValidAesKey(key) && |iv| == BlockSize ==>
          |c.cfbEncrypt(key, iv, x)| == |x|)
    && (forall key, iv, y :: ValidAesKey(key) && |iv| == BlockSize ==>
          |c.cfbDecrypt(key, iv, y)| == |y|)
    && (forall key, data, iv :: c.fernetDecrypt(key, c.fernetEncrypt(key, data, iv)) == Some(data))
  }

  /** `derive_key_from_passphrase`: PBKDF2-HMAC-SHA256, 100000 iterations, 32 bytes.
      Whatever the passphrase and salt, the key is a valid 256-bit AES key. */
  function DeriveKey(c: Primitives, pw: Passphrase, salt: Bytes): (key: Bytes)
    ensures Sound(c) ==> |key| == KeyLength && ValidAesKey(key)
  {
    c.pbkdf2(pw, salt, Iterations, KeyLength)
  }
}
