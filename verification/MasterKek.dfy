/** The master key-encryption key: wrapping and unwrapping DEKs
    (key_provider.rs, first half). */
module MasterKek {
  import opened Wrappers
  import opened Bytes
  import opened StoreErrors
  import opened Aead
  import Envelope

  datatype ControllerId = Tenant(id: Uuid) | User(id: Uuid)
  {
    function KindByte(): byte {
      if Tenant? then 0x74 else 0x75
    }
  }

  const DEK_LEN := 32

  /** The key and the cipher it wraps with, AES-256-GCM-SIV. */
  datatype Master = Master(key: Bytes, cipher: Cipher)
  {
    ghost predicate Valid() {
      && |key| == 32
      && cipher.algoId == 0x01 && cipher.keySize == 32 && cipher.nonceSize == 12 && cipher.tagLen == 16
      && Sound(cipher)
    }

    function Wrap(controller: ControllerId, recordKind: Bytes, version: u32, dek: Bytes, nonce: Bytes): (r: Result<Bytes, StoreError>)
      requires |nonce| == cipher.nonceSize && |dek| == DEK_LEN
    {
      match cipher.seal(key, nonce, WrapAad(controller, recordKind, version), dek)
      case None => Err(StoreError.Encrypt)
      case Some(ct) => Ok(nonce + ct)
    }

    function Unwrap(controller: ControllerId, recordKind: Bytes, version: u32, wrapped: Bytes): (r: Result<Bytes, StoreError>)
      ensures r.Ok? ==> |r.value| == DEK_LEN
    {
      if |wrapped| < cipher.nonceSize then Err(StoreError.Envelope(WrappedShorterThanNonce))
      else
        match cipher.open(key, wrapped[..cipher.nonceSize], WrapAad(controller, recordKind, version), wrapped[cipher.nonceSize..])
        case None => Err(StoreError.Decrypt)
        case Some(pt) => if |pt| == DEK_LEN then Ok(pt) else Err(StoreError.Envelope(UnwrappedNot32Bytes))
    }

    /** A wrapped DEK is 60 bytes and unwraps to itself under its own triple. */
    lemma UnwrapWrap(controller: ControllerId, recordKind: Bytes, version: u32, dek: Bytes, nonce: Bytes)
      requires Valid() && |nonce| == cipher.nonceSize && |dek| == DEK_LEN
      requires Wrap(controller, recordKind, version, dek, nonce).Ok?
      ensures var w := Wrap(controller, recordKind, version, dek, nonce).value;
              |w| == 60 && Unwrap(controller, recordKind, version, w) == Ok(dek)
    {
      var w := Wrap(controller, recordKind, version, dek, nonce).value;
      var ct := cipher.seal(key, nonce, WrapAad(controller, recordKind, version), dek).value;
      assert w[..cipher.nonceSize] == nonce && w[cipher.nonceSize..] == ct;
    }

    /** The 60 bytes are the nonce and then what the cipher made, in that order. */
    lemma WrapLayout(controller: ControllerId, recordKind: Bytes, version: u32, dek: Bytes, nonce: Bytes)
      requires Valid() && |nonce| == 12 && |dek| == 32
      ensures var r := Wrap(controller, recordKind, version, dek, nonce);
              var ct := cipher.seal(key, nonce, WrapAad(controller, recordKind, version), dek);
              && (r.Err? ==> ct.None? && r.error == StoreError.Encrypt)
              && (r.Ok? ==> |r.value| == 60 && r.value[..12] == nonce && ct == Some(r.value[12..]))
    {
      var r := Wrap(controller, recordKind, version, dek, nonce);
      if r.Ok? { assert r.value[..12] == nonce; }
    }

    /** Unwrapping accepts exactly what wrapping makes of 32 bytes under the same
        triple. */
    lemma UnwrapIff(controller: ControllerId, recordKind: Bytes, version: u32, dek: Bytes, wrapped: Bytes)
      requires Valid()
      ensures Unwrap(controller, recordKind, version, wrapped) == Ok(dek) <==>
                |dek| == 32 && exists nonce: Bytes :: |nonce| == 12 && Wrap(controller, recordKind, version, dek, nonce) == Ok(wrapped)
      ensures |wrapped| < 12 <==> Unwrap(controller, recordKind, version, wrapped) == Err(StoreError.Envelope(WrappedShorterThanNonce))
      ensures Unwrap(controller, recordKind, version, wrapped).Err? && 12 <= |wrapped| ==>
                Unwrap(controller, recordKind, version, wrapped).error ==
                if cipher.open(key, wrapped[..12], WrapAad(controller, recordKind, version), wrapped[12..]).None?
                then StoreError.Decrypt else StoreError.Envelope(UnwrappedNot32Bytes)
    {
      if Unwrap(controller, recordKind, version, wrapped) == Ok(dek) {
        assert wrapped[..12] + wrapped[12..] == wrapped;
        assert Wrap(controller, recordKind, version, dek, wrapped[..12]) == Ok(wrapped);
      }
      if nonce: Bytes :| |dek| == 32 && |nonce| == 12 && Wrap(controller, recordKind, version, dek, nonce) == Ok(wrapped) {
        UnwrapWrap(controller, recordKind, version, dek, nonce);
      }
    }
  }

  const WRAP_PREFIX := Ascii("dek-wrap:")

  /** `wrap_aad`. */
  function WrapAad(controller: ControllerId, recordKind: Bytes, version: u32): Bytes {
    WRAP_PREFIX + [controller.KindByte()] + [COLON] + controller.id + [COLON] + recordKind + [COLON] + ToBigEndian(version)
  }

  /** Every part of the triple can be read back out of the wrap AAD, whatever
      bytes the record kind holds. */
  lemma WrapAadInjective(c: ControllerId, k: Bytes, v: u32, c': ControllerId, k': Bytes, v': u32)
    requires WrapAad(c, k, v) == WrapAad(c', k', v')
    ensures c == c' && k == k' && v == v'
  {
    var front := (d: ControllerId) => WRAP_PREFIX + [d.KindByte()] + [COLON] + d.id + [COLON];
    assert WrapAad(c, k, v) == front(c) + k + [COLON] + ToBigEndian(v);
    assert WrapAad(c', k', v') == front(c') + k' + [COLON] + ToBigEndian(v');
    SplitConcatBack(front(c) + k + [COLON], front(c') + k' + [COLON], ToBigEndian(v), ToBigEndian(v'));
    SplitConcatBack(front(c) + k, front(c') + k', [COLON], [COLON]);
    SplitConcat(front(c), front(c'), k, k');
    BigEndianInjective(v, v');
    assert front(c)[9] == c.KindByte() && front(c')[9] == c'.KindByte();
    assert front(c)[11..27] == c.id && front(c')[11..27] == c'.id;
  }

  /** A wrapped DEK can never pass as a data ciphertext: the two kinds of
      associated data differ in their first byte. */
  lemma WrapAadIsNotDataAad(c: ControllerId, k: Bytes, v: u32, algoId: byte, w: u32, nonceLen: byte, aadRecord: Bytes)
    ensures WrapAad(c, k, v) != Envelope.ComposeAad(algoId, w, nonceLen, aadRecord)
  {
    assert WrapAad(c, k, v)[0] == WRAP_PREFIX[0] == AsciiByte("dek-wrap:"[0]) == 0x64;
    assert Envelope.ComposeAad(algoId, w, nonceLen, aadRecord)[0] == Envelope.ENVELOPE_VERSION;
  }

  /** The wrap AAD byte by byte. */
  lemma WrapAadLayout(c: ControllerId, k: Bytes, v: u32)
    ensures var a, n := WrapAad(c, k, v), |k|;
            && |a| == 33 + n
            && a[..9] == [0x64, 0x65, 0x6B, 0x2D, 0x77, 0x72, 0x61, 0x70, 0x3A]
            && a[9] == (if c.Tenant? then 0x74 else 0x75) && a[10] == 0x3A && a[11..27] == c.id && a[27] == 0x3A
            && a[28..28 + n] == k && a[28 + n] == 0x3A
            && Unsigned(a[29 + n..]) == v
  {
    var a, n := WrapAad(c, k, v), |k|;
    BigEndianValue(v, []);
    var prefix: Bytes := [0x64, 0x65, 0x6B, 0x2D, 0x77, 0x72, 0x61, 0x70, 0x3A];
    assert WRAP_PREFIX == prefix by {
      assert forall i | 0 <= i < 9 :: WRAP_PREFIX[i] == prefix[i];
    }
    assert a[..9] == WRAP_PREFIX && a[11..27] == c.id && a[28..28 + n] == k && a[29 + n..] == ToBigEndian(v);
  }
}
