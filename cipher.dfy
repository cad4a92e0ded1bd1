/**
 * The cipher the entry store and the master-password check are written
 * against: encryption of a text under a key (the master password) to bytes,
 * and checked decryption back. The real AEAD and its key derivation are
 * outside the model; what the rest of the model relies on is stated as the
 * predicates RoundTrips and NeverForges, and IdentityCipher shows that the
 * placeholder cipher satisfies both.
 */
module Cipher {
  import opened Basics
  import Utf8
  import Encryption

  datatype Cipher = Cipher(
    encrypt: (string, string) -> seq<byte>,
    decrypt: (string, seq<byte>) -> Option<string>)
  {
    /** Decrypting under the same key gives back the plaintext. */
    ghost predicate RoundTrips() {
      forall key, plain :: decrypt(key, encrypt(key, plain)) == Some(plain)
    }

    /**
     * Decrypting under any key either fails or yields the original
     * plaintext; it never yields a different text.
     */
    ghost predicate NeverForges() {
      forall key, other, plain :: decrypt(other, encrypt(key, plain)) in {None, Some(plain)}
    }
  }

  /** The placeholder `Encryption` on the bytes of its `String`. */
  function IdentityCipher(): Cipher {
    Cipher(
      (key, plain) => Utf8.Encode(Encryption.New(key).Encrypt(plain)),
      (key, data) =>
        match Utf8.Decode(data)
        case None => None
        case Some(text) => Some(Encryption.New(key).Decrypt(text)))
  }

  /** The placeholder cipher round-trips and never forges. */
  lemma IdentityCipherIsSound()
    ensures IdentityCipher().RoundTrips() && IdentityCipher().NeverForges()
  {
    var c := IdentityCipher();
    forall key, other, plain
      ensures c.decrypt(other, c.encrypt(key, plain)) == Some(plain)
    {
      Utf8.DecodeEncode(plain);
    }
  }
}
