/** The cryptography of libsodium as functions, with only the laws the formats rely on. */
module Crypto {
  import opened Wrappers
  import opened Bytes

  const KEY_LEN: nat := 32
  const SALT_LEN: nat := 16
  const NONCE_LEN: nat := 24
  const MAC_LEN: nat := 16
  const HASH_LEN: nat := 32
  const SIG_LEN: nat := 64
  const PK_LEN: nat := 32

  type Bytestring = seq<byte>

  /** crypto_core.c's wrappers: key derivation (password, salt), authenticated encryption and decryption
      (key, nonce, text), hashing, signing (secret key, message), and verifying (public key, message,
      signature). `publicOf` gives the public key of a pair. */
  datatype Suite = Suite(
    derive: (string, Bytestring) -> Bytestring,
    encrypt: (Bytestring, Bytestring, Bytestring) -> Bytestring,
    decrypt: (Bytestring, Bytestring, Bytestring) -> Option<Bytestring>,
    hash: Bytestring -> Bytestring,
    sign: (Bytestring, Bytestring) -> Bytestring,
    verify: (Bytestring, Bytestring, Bytestring) -> bool,
    publicOf: Bytestring -> Bytestring)
  {
    /** Decryption undoes encryption, the text grows by its MAC, and genuine signatures verify. */
    ghost predicate Lawful() {
      && (forall k, n, m :: decrypt(k, n, encrypt(k, n, m)) == Some(m))
      && (forall k, n, m :: |encrypt(k, n, m)| == |m| + MAC_LEN)
      && (forall k, n, c :: decrypt(k, n, c).Some? ==> |decrypt(k, n, c).value| + MAC_LEN == |c|)
      && (forall m :: |hash(m)| == HASH_LEN)
      && (forall sk, m :: |sign(sk, m)| == SIG_LEN && verify(publicOf(sk), m, sign(sk, m)))
      && (forall sk :: |publicOf(sk)| == PK_LEN)
    }
  }
}
