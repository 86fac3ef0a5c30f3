/** The `AeadCipher` trait: an abstract encrypt/decrypt pair under the contract
    of section 2 of RFC 5116. Nothing about a cipher's inside is assumed. */
module Aead {
  import opened Wrappers
  import opened Bytes

  /** `seal(key, nonce, aad, plaintext)` and `open(key, nonce, aad, ciphertext)`;
      `None` is the error indication (section 2.1) or FAIL (section 2.2). */
  datatype Cipher = Cipher(
    algoId: byte,
    keySize: nat,
    nonceSize: nat,
    tagLen: nat,
    seal: (Bytes, Bytes, Bytes, Bytes) -> Option<Bytes>,
    open: (Bytes, Bytes, Bytes, Bytes) -> Option<Bytes>)

  /** What decryption promises: it gives back what was encrypted, and accepts
      nothing but the encryption of its answer under the same key, nonce and
      associated data. The ciphertext is longer than the plaintext by the tag. */
  ghost predicate Sound(c: Cipher) {
    && (forall k: Bytes, n: Bytes, a: Bytes, p: Bytes ::
          c.seal(k, n, a, p).Some? ==>
            && c.open(k, n, a, c.seal(k, n, a, p).value) == Some(p)
            && |c.seal(k, n, a, p).value| == |p| + c.tagLen)
    && (forall k: Bytes, n: Bytes, a: Bytes, x: Bytes ::
          c.open(k, n, a, x).Some? ==> c.seal(k, n, a, c.open(k, n, a, x).value) == Some(x))
  }

  /** A toy with the sizes of the shipped ciphers: the plaintext followed by 16
      bytes of the key as its tag. It hides nothing; it only shows that the
      contract can be met, at the sizes the callers ask for. */
  function Toy(algoId: byte, nonceSize: nat): Cipher {
    Cipher(algoId, 32, nonceSize, 16,
      (k: Bytes, n: Bytes, a: Bytes, p: Bytes) =>
        if |k| == 32 && |n| == nonceSize then Some(p + k[..16]) else None,
      (k: Bytes, n: Bytes, a: Bytes, x: Bytes) =>
        if |k| == 32 && |n| == nonceSize && |x| >= 16 && x[|x| - 16..] == k[..16] then Some(x[..|x| - 16]) else None)
  }

  lemma ToyIsSound(algoId: byte, nonceSize: nat)
    ensures Sound(Toy(algoId, nonceSize))
    ensures forall k: Bytes, n: Bytes, a: Bytes, p: Bytes ::
              Toy(algoId, nonceSize).seal(k, n, a, p).Some? <==> |k| == 32 && |n| == nonceSize
  {
    var c := Toy(algoId, nonceSize);
    forall k: Bytes, n: Bytes, a: Bytes, p: Bytes | c.seal(k, n, a, p).Some?
      ensures c.open(k, n, a, c.seal(k, n, a, p).value) == Some(p)
    {
      assert (p + k[..16])[|p|..] == k[..16] && (p + k[..16])[..|p|] == p;
    }
    forall k: Bytes, n: Bytes, a: Bytes, x: Bytes | c.open(k, n, a, x).Some?
      ensures c.seal(k, n, a, c.open(k, n, a, x).value) == Some(x)
    {
      assert x == x[..|x| - 16] + x[|x| - 16..];
    }
  }
}
