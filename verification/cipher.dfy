/** The field cipher, seen from the store. The key is derived from a constant
    token and the IV is a constant, so encryption under that key is an ordinary
    (deterministic) function from strings to ciphertext bytes, and decryption a
    function back. The cryptography itself is not modelled: a `Cipher` is any
    pair of such functions, and the store's guarantees are stated for ciphers
    whose decryption undoes encryption. */
module Ciphers {

  newtype byte = x: int | 0 <= x < 256

  /** An `ArrayBuffer` holding ciphertext. */
  type Bytes = seq<byte>

  /** `encryptData(_, key)` and `decryptData(_, key)` for the one derived key. */
  datatype Cipher = Cipher(encrypt: string -> Bytes, decrypt: Bytes -> string)

  /** Decrypting a ciphertext gives back the plaintext it was made from. */
  ghost predicate RoundTrips(c: Cipher)
  {
    forall s: string {:trigger c.encrypt(s)} :: c.decrypt(c.encrypt(s)) == s
  }

  /** Because the IV never changes, equal ciphertexts reveal equal plaintexts and
      equal plaintexts always give equal ciphertexts. */
  lemma CiphertextEqualityLeaksPlaintextEquality(c: Cipher, a: string, b: string)
    requires RoundTrips(c)
    ensures c.encrypt(a) == c.encrypt(b) <==> a == b
  {
    if c.encrypt(a) == c.encrypt(b) {
      calc {
        a;
        c.decrypt(c.encrypt(a));
        c.decrypt(c.encrypt(b));
        b;
      }
    }
  }
}
