/**
 * The placeholder `Encryption` type: it stores a key and passes data through
 * unchanged. It is the concrete cipher the rest of the model runs against.
 */
module Encryption {

  datatype Encryption = Encryption(key: string) {

    /** The stub passes plaintext through unchanged. */
    function Encrypt(data: string): (r: string)
      ensures r == data
    {
      data
    }

    /** The stub passes ciphertext through unchanged. */
    function Decrypt(data: string): (r: string)
      ensures r == data
    {
      data
    }

    /** A candidate key is accepted exactly when an `Encryption` built from it is this one. */
    predicate VerifyKey(candidate: string): (ok: bool)
      ensures ok <==> New(candidate) == this
    {
      candidate == key
    }
  }

  /** `Encryption::new`: keeps the key as given. */
  function New(key: string): (e: Encryption)
    ensures e.key == key
  {
    Encryption(key)
  }

  /** `Encryption::generate_key`: a fixed placeholder key. */
  function GenerateKey(): (k: string)
    ensures k == "key"
  {
    "key"
  }

  /** Round trip of the stub under any key. */
  lemma StubRoundTrip(key: string, s: string)
    ensures New(key).Decrypt(New(key).Encrypt(s)) == s
  {
  }

  /** An encryption built from the generated key accepts that key and no other. */
  lemma GeneratedKeyVerifies(candidate: string)
    ensures New(GenerateKey()).VerifyKey(candidate) <==> candidate == "key"
  {
  }
}
