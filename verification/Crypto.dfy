/** The cryptographic primitives, as function values constrained only by the
    laws the rest of the system relies on. */
module Crypto {
  import opened Bytes

  const KEY_LEN := 32
  const HASH_U_LEN := 56
  const HASH_S_LEN := 28
  const NONCE_LEN := 12
  const NCK_LEN := 46

  /** X25519, BLAKE2b and ChaCha20 as used by messages and envelopes. */
  datatype Primitives = Primitives(
    scalarmultBase: seq<byte> -> seq<byte>,
    scalarmult: (seq<byte>, seq<byte>) -> Option<seq<byte>>,
    generichash: (nat, seq<byte>, seq<byte>) -> seq<byte>,  // output length, data, key
    chacha20: (seq<byte>, nat, seq<byte>, nat) -> seq<byte>)  // nonce, counter, key, length
  {
    /** Lengths, and the commutativity of section 6.1 of RFC 7748. */
    ghost predicate Lawful() {
      && (forall sk :: |scalarmultBase(sk)| == KEY_LEN)
      && (forall n, data, key :: |generichash(n, data, key)| == n)
      && (forall nonce, ctr, key, n :: |chacha20(nonce, ctr, key, n)| == n)
      && (forall a, b :: scalarmult(a, scalarmultBase(b)) == scalarmult(b, scalarmultBase(a)))
    }
  }

  const AEAD_NPUB := 32
  const AEAD_TAG := 32

  /** AEGIS-256 with empty associated data. */
  datatype Aead = Aead(
    seal: (seq<byte>, seq<byte>, seq<byte>) -> seq<byte>,  // key, nonce, plaintext
    open: (seq<byte>, seq<byte>, seq<byte>) -> Option<seq<byte>>)  // key, nonce, ciphertext
  {
    ghost predicate Lawful() {
      && (forall k, n, m :: |seal(k, n, m)| == |m| + AEAD_TAG)
      && (forall k, n, m :: open(k, n, seal(k, n, m)) == Some(m))
    }
  }
}
