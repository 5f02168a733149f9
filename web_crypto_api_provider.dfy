/** The Web Crypto API signature provider: two persisted key slots, a lazy
    key generation that runs only while a slot is empty, and signing with
    the stored private key. The key generator and ECDSA signing are inputs:
    a freshly generated pair is a parameter, `sign` an uninterpreted
    function. */
module WebCryptoApi {

  datatype KeyPair = KeyPair(publicKey: string, privateKey: string)

  datatype Signature = Signature(signature: string, publicKey: string)

  /** A pair with both slots filled. */
  predicate Complete(keys: KeyPair) {
    |keys.publicKey| > 0 && |keys.privateKey| > 0
  }

  /** `initialize$` on the stored slots: a new pair is stored when either
      slot is empty; otherwise nothing is written. */
  function InitializedKeys(stored: KeyPair, generated: KeyPair): (r: KeyPair)
  {
    if |stored.publicKey| == 0 || |stored.privateKey| == 0 then generated else stored
  }

  /** A complete stored pair is kept as it is. */
  lemma InitializeKeepsCompletePair(stored: KeyPair, generated: KeyPair)
    requires Complete(stored)
    ensures InitializedKeys(stored, generated) == stored
  {
  }

  /** Both slots are replaced as soon as one of them is empty: a stored
      public key without its private key is not kept. */
  lemma InitializeReplacesHalfPair(stored: KeyPair, generated: KeyPair)
    requires |stored.publicKey| > 0 && |stored.privateKey| == 0
    ensures InitializedKeys(stored, generated) == generated
    ensures generated.publicKey != stored.publicKey ==> InitializedKeys(stored, generated).publicKey != stored.publicKey
  {
  }

  /** After initialization both slots are filled, provided the generator
      yields non-empty keys. */
  lemma InitializeFillsSlots(stored: KeyPair, generated: KeyPair)
    requires Complete(generated)
    ensures Complete(InitializedKeys(stored, generated))
    ensures InitializedKeys(stored, generated) == stored || InitializedKeys(stored, generated) == generated
  {
  }

  /** Initializing a second time keeps the keys of the first, whatever the
      generator would yield. */
  lemma InitializeIdempotent(stored: KeyPair, first: KeyPair, second: KeyPair)
    requires Complete(first)
    ensures InitializedKeys(InitializedKeys(stored, first), second) == InitializedKeys(stored, first)
  {
    InitializeFillsSlots(stored, first);
    InitializeKeepsCompletePair(InitializedKeys(stored, first), second);
  }

  class WebCryptoApiProvider {
    /** `signWithSha256AndEcdsa$`: message and private key to signature. */
    const sign: (string, string) -> string
    var publicKey: string
    var privateKey: string

    function Keys(): KeyPair
      reads this
    {
      KeyPair(publicKey, privateKey)
    }

    /** Opens the provider over the persisted preferences. */
    constructor (sign: (string, string) -> string, stored: KeyPair)
      ensures this.sign == sign && Keys() == stored
    {
      this.sign := sign;
      publicKey := stored.publicKey;
      privateKey := stored.privateKey;
    }

    /** `initialize$()`: `generated` tells whether a new pair was created
        and stored. */
    method Initialize(newPair: KeyPair) returns (generated: bool)
      modifies this`publicKey, this`privateKey
      ensures generated <==> |old(publicKey)| == 0 || |old(privateKey)| == 0
      ensures Keys() == InitializedKeys(old(Keys()), newPair)
      ensures Complete(newPair) ==> Complete(Keys())
      ensures !generated ==> Keys() == old(Keys())
    {
      generated := |publicKey| == 0 || |privateKey| == 0;
      if generated {
        publicKey := newPair.publicKey;
        privateKey := newPair.privateKey;
      }
    }

    /** `provide(message)`: signs with the stored private key and pairs the
        signature with the stored public key; no slot is written. */
    method Provide(message: string) returns (s: Signature)
      ensures s.signature == sign(message, privateKey)
      ensures s.publicKey == publicKey
    {
      var privateKeyHex := privateKey;
      var signatureHex := sign(message, privateKeyHex);
      s := Signature(signatureHex, publicKey);
    }
  }
}
