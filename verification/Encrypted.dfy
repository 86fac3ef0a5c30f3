/** `AadRecord` and `EncryptedString` (encrypted.rs). */
module Encrypted {
  import opened Wrappers
  import opened Bytes
  import opened StoreErrors
  import opened Aead
  import opened Envelope

  datatype AadRecord = AadRecord(recordKind: Bytes, recordId: Bytes, column: Bytes)
  {
    function ToBytes(): Bytes {
      recordKind + [COLON] + recordId + [COLON] + column
    }
  }

  function Seal(cipher: Cipher, dek: Bytes, dekVersion: u32, plaintext: Bytes, aad: AadRecord, nonce: Bytes): Result<Bytes, StoreError>
    requires MIN_NONCE_LEN <= cipher.nonceSize <= MAX_NONCE_LEN && |nonce| == cipher.nonceSize
  {
    Envelope.Encrypt(cipher, dek, dekVersion, plaintext, aad.ToBytes(), nonce)
  }

  /** Opening also insists that the plaintext is text. */
  function Open(ciphers: Ciphers, dekFor: KeyLookup, ciphertext: Bytes, aad: AadRecord): Result<Bytes, StoreError> {
    match Envelope.Decrypt(ciphers, dekFor, ciphertext, aad.ToBytes())
    case Err(e) => Err(e)
    case Ok(p) => if IsUtf8(p) then Ok(p) else Err(StoreError.Decrypt)
  }

  /** Kind, id and column with a colon between them. */
  lemma ToBytesIs(r: AadRecord, bs: Bytes)
    ensures bs == r.ToBytes() <==>
              var i, j := |r.recordKind|, |r.recordKind| + 1 + |r.recordId|;
              && |bs| == j + 1 + |r.column|
              && bs[..i] == r.recordKind && bs[i] == 0x3A && bs[i + 1..j] == r.recordId && bs[j] == 0x3A && bs[j + 1..] == r.column
  {
    PartsOf(r);
    var i, j := |r.recordKind|, |r.recordKind| + 1 + |r.recordId|;
    if |bs| == j + 1 + |r.column| {
      assert bs == bs[..i] + [bs[i]] + bs[i + 1..j] + [bs[j]] + bs[j + 1..];
    }
  }

  /** Sealing under a record is encrypting with its bytes, and opening is
      decrypting with them; what is opened is text or refused. */
  lemma OpenIff(ciphers: Ciphers, dekFor: KeyLookup, ciphertext: Bytes, aad: AadRecord, text: Bytes)
    ensures Open(ciphers, dekFor, ciphertext, aad) == Ok(text) <==>
              Envelope.Decrypt(ciphers, dekFor, ciphertext, aad.ToBytes()) == Ok(text) && IsUtf8(text)
    ensures Open(ciphers, dekFor, ciphertext, aad).Err? ==>
              Open(ciphers, dekFor, ciphertext, aad) ==
              match Envelope.Decrypt(ciphers, dekFor, ciphertext, aad.ToBytes())
              case Ok(_) => Err(StoreError.Decrypt)
              case Err(e) => Err(e)
  {
  }

  /** A sealing of the text, by a registered cipher under the key looked up for
      the header it was given. */
  predicate IsSealing(ciphers: Ciphers, dekFor: KeyLookup, id: byte, dekVersion: u32, nonce: Bytes, text: Bytes, aad: AadRecord, ciphertext: Bytes)
  {
    && id in ciphers && Carriable(ciphers[id]) && |nonce| == ciphers[id].nonceSize && dekFor(id, dekVersion).Ok?
    && Seal(ciphers[id], dekFor(id, dekVersion).value, dekVersion, text, aad, nonce) == Ok(ciphertext)
  }

  /** A value opens as text if and only if it is a sealing of that text under
      the same record. */
  lemma OpensExactlyWhatWasSealed(ciphers: Ciphers, dekFor: KeyLookup, ciphertext: Bytes, aad: AadRecord, text: Bytes)
    requires ValidCiphers(ciphers)
    ensures Open(ciphers, dekFor, ciphertext, aad) == Ok(text) <==>
            IsUtf8(text) && exists id, dekVersion: u32, nonce: Bytes :: IsSealing(ciphers, dekFor, id, dekVersion, nonce, text, aad, ciphertext)
  {
    OpenIff(ciphers, dekFor, ciphertext, aad, text);
    if Open(ciphers, dekFor, ciphertext, aad) == Ok(text) {
      PrintParse(ciphertext);
      var f := Parse(ciphertext).value;
      assert IsSealing(ciphers, dekFor, f.algoId, f.dekVersion, f.nonce, text, aad, ciphertext);
    }
    forall id, dekVersion: u32, nonce: Bytes | IsSealing(ciphers, dekFor, id, dekVersion, nonce, text, aad, ciphertext)
      ensures Envelope.Decrypt(ciphers, dekFor, ciphertext, aad.ToBytes()) == Ok(text)
    {
      DecryptEncrypt(ciphers, dekFor, id, dekFor(id, dekVersion).value, dekVersion, text, aad.ToBytes(), nonce);
    }
  }

  /** Splitting at the first separator: fronts without one must agree. */
  lemma SplitAtFirst(a: Bytes, b: Bytes, x: Bytes, y: Bytes)
    requires COLON !in a && COLON !in b && a + [COLON] + x == b + [COLON] + y
    ensures a == b && x == y
  {
    var s, t := a + [COLON] + x, b + [COLON] + y;
    assert s[|a|] == COLON && t[|b|] == COLON;
    assert forall i | 0 <= i < |a| :: s[i] == a[i];
    assert forall i | 0 <= i < |b| :: t[i] == b[i];
    assert |a| == |b|;
    assert a + [COLON] + x == a + ([COLON] + x) && b + [COLON] + y == b + ([COLON] + y);
    SplitConcat(a, b, [COLON] + x, [COLON] + y);
    SplitConcat([COLON], [COLON], x, y);
  }

  /** Splitting at the last separator: backs without one must agree. */
  lemma SplitAtLast(a: Bytes, b: Bytes, x: Bytes, y: Bytes)
    requires COLON !in x && COLON !in y && a + [COLON] + x == b + [COLON] + y
    ensures a == b && x == y
  {
    var s, t := a + [COLON] + x, b + [COLON] + y;
    assert s[|a|] == COLON && t[|b|] == COLON;
    assert forall i | |a| < i < |s| :: s[i] == x[i - |a| - 1];
    assert forall i | |b| < i < |t| :: t[i] == y[i - |b| - 1];
    assert |a| == |b|;
    SplitConcat(a + [COLON], b + [COLON], x, y);
    SplitConcat(a, b, [COLON], [COLON]);
  }

  /** The record identity is unambiguous when neither the record kind nor the
      column holds a separator; the record id may. */
  lemma AadRecordInjective(r: AadRecord, s: AadRecord)
    requires COLON !in r.recordKind && COLON !in s.recordKind
    requires COLON !in r.column && COLON !in s.column
    requires r.ToBytes() == s.ToBytes()
    ensures r == s
  {
    SplitAtLast(r.recordKind + [COLON] + r.recordId, s.recordKind + [COLON] + s.recordId, r.column, s.column);
    SplitAtFirst(r.recordKind, s.recordKind, r.recordId, s.recordId);
  }

  /** Against every other record, including ones whose kind or column holds a
      separator, a record is the only one with its encoding if and only if
      none of its three parts holds a separator. */
  lemma AadRecordUniqueIff(r: AadRecord)
    ensures (forall s: AadRecord :: s.ToBytes() == r.ToBytes() ==> s == r) <==>
            COLON !in r.recordKind && COLON !in r.recordId && COLON !in r.column
  {
    if COLON !in r.recordKind && COLON !in r.recordId && COLON !in r.column {
      forall s: AadRecord | s.ToBytes() == r.ToBytes() ensures s == r {
        SeparatorsDecide(r, s);
      }
    } else {
      var s := Shifted(r);
      assert s.ToBytes() == r.ToBytes() && s != r;
    }
  }

  /** In a record without separators of its own the two that are there are the
      ones put between its parts. */
  lemma SeparatorAt(r: AadRecord, i: nat)
    requires COLON !in r.recordKind && COLON !in r.recordId && COLON !in r.column
    requires i < |r.ToBytes()|
    ensures r.ToBytes()[i] == COLON <==> i == |r.recordKind| || i == |r.recordKind| + 1 + |r.recordId|
  {
    var bs, p := r.ToBytes(), |r.recordKind|;
    var p' := p + 1 + |r.recordId|;
    if i < p { assert bs[i] == r.recordKind[i]; }
    else if p < i < p' { assert bs[i] == r.recordId[i - p - 1]; }
    else if p' < i { assert bs[i] == r.column[i - p' - 1]; }
  }

  lemma PartsOf(r: AadRecord)
    ensures var bs, p := r.ToBytes(), |r.recordKind|;
            var p' := p + 1 + |r.recordId|;
            && p' < |bs| && bs[p] == bs[p'] == COLON
            && r.recordKind == bs[..p] && r.recordId == bs[p + 1..p'] && r.column == bs[p' + 1..]
  {
  }

  lemma SeparatorsDecide(r: AadRecord, s: AadRecord)
    requires COLON !in r.recordKind && COLON !in r.recordId && COLON !in r.column
    requires s.ToBytes() == r.ToBytes()
    ensures s == r
  {
    PartsOf(r);
    PartsOf(s);
    SeparatorAt(r, |s.recordKind|);
    SeparatorAt(r, |s.recordKind| + 1 + |s.recordId|);
  }

  /** Another record with the same encoding: one separator changes sides. */
  function Shifted(r: AadRecord): (s: AadRecord)
    requires COLON in r.recordKind || COLON in r.recordId || COLON in r.column
    ensures s != r && s.ToBytes() == r.ToBytes()
  {
    if COLON in r.recordKind then
      var (a, b) := SplitOnce(r.recordKind);
      assert (a + [COLON] + b) + [COLON] + r.recordId + [COLON] + r.column
          == a + [COLON] + (b + [COLON] + r.recordId) + [COLON] + r.column;
      AadRecord(a, b + [COLON] + r.recordId, r.column)
    else if COLON in r.recordId then
      var (a, b) := SplitOnce(r.recordId);
      assert r.recordKind + [COLON] + (a + [COLON] + b) + [COLON] + r.column
          == (r.recordKind + [COLON] + a) + [COLON] + b + [COLON] + r.column;
      AadRecord(r.recordKind + [COLON] + a, b, r.column)
    else
      var (a, b) := SplitOnce(r.column);
      assert r.recordKind + [COLON] + r.recordId + [COLON] + (a + [COLON] + b)
          == r.recordKind + [COLON] + (r.recordId + [COLON] + a) + [COLON] + b;
      AadRecord(r.recordKind, r.recordId + [COLON] + a, b)
  }

  function SplitOnce(s: Bytes): (r: (Bytes, Bytes))
    requires COLON in s
    ensures s == r.0 + [COLON] + r.1
  {
    if s[0] == COLON then assert s == [] + [COLON] + s[1..]; ([], s[1..])
    else
      var (a, b) := SplitOnce(s[1..]);
      assert s == [s[0]] + (a + [COLON] + b) == ([s[0]] + a) + [COLON] + b;
      ([s[0]] + a, b)
  }
}
