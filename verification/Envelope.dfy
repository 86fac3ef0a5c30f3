/** The ciphertext envelope and the cipher registry (aead/mod.rs). */
module Envelope {
  import opened Wrappers
  import opened Bytes
  import opened StoreErrors
  import opened Aead

  const ENVELOPE_VERSION: byte := 0x02
  const HEADER_LEN := 7
  const ALGO_ID_SENTINEL_ZERO: byte := 0x00
  const ALGO_ID_SENTINEL_NEVER: byte := 0xFF
  const MIN_NONCE_LEN := 12
  const MAX_NONCE_LEN := 32

  type Ciphers = map<byte, Cipher>
  type KeyLookup = (byte, u32) -> Result<Bytes, StoreError>

  /** A cipher the envelope can carry: every byte of its header passes the
      checks a reader makes. */
  predicate Carriable(c: Cipher) {
    && MIN_NONCE_LEN <= c.nonceSize <= MAX_NONCE_LEN
    && c.algoId != ALGO_ID_SENTINEL_ZERO && c.algoId != ALGO_ID_SENTINEL_NEVER
  }

  /** Every entry sits under its own `algo_id`, as `register` puts it there,
      is carriable and keeps the AEAD contract. */
  ghost predicate ValidCiphers(ciphers: Ciphers) {
    forall id | id in ciphers :: ciphers[id].algoId == id && Carriable(ciphers[id]) && Sound(ciphers[id])
  }

  /** The map after registering ciphers one after the other. */
  function RegisterAll(ciphers: Ciphers, cs: seq<Cipher>): Ciphers {
    if cs == [] then ciphers else RegisterAll(ciphers, cs[..|cs| - 1])[cs[|cs| - 1].algoId := cs[|cs| - 1]]
  }

  /** An id is in the map exactly when some registered cipher has it. */
  lemma {:induction false} RegisteredIff(cs: seq<Cipher>, id: byte)
    ensures id in RegisterAll(map[], cs) <==> exists i :: 0 <= i < |cs| && cs[i].algoId == id
  {
    if cs != [] {
      var front := cs[..|cs| - 1];
      RegisteredIff(front, id);
      assert forall i | 0 <= i < |front| :: front[i] == cs[i];
    }
  }

  /** The registry object: `register` inserts into its map in place. */
  class CipherRegistry {
    var ciphers: Ciphers
    const defaultAlgoId: byte
    /** Everything registered so far, the three shipped ciphers first. */
    ghost var registered: seq<Cipher>

    ghost predicate Valid()
      reads this
    {
      && ciphers == RegisterAll(map[], registered)
      && |registered| >= 3 && registered[0].algoId == 0x01 && registered[1].algoId == 0x02 && registered[2].algoId == 0x03
    }

    /** `for_test` and `with_v0_1_defaults`: the three shipped ciphers, and
        whatever default the caller names. */
    constructor (gcmSiv: Cipher, chacha: Cipher, gcm: Cipher, defaultAlgoId: byte)
      requires gcmSiv.algoId == 0x01 && chacha.algoId == 0x02 && gcm.algoId == 0x03
      ensures Valid() && this.defaultAlgoId == defaultAlgoId && registered == [gcmSiv, chacha, gcm]
      ensures ciphers == map[0x01 := gcmSiv, 0x02 := chacha, 0x03 := gcm]
      ensures Carriable(gcmSiv) && Carriable(chacha) && Carriable(gcm) && Sound(gcmSiv) && Sound(chacha) && Sound(gcm) ==> ValidCiphers(ciphers)
    {
      this.ciphers := map[];
      this.defaultAlgoId := defaultAlgoId;
      this.registered := [];
      new;
      assert RegisterAll(map[], []) == map[];
      Register(gcmSiv);
      Register(chacha);
      Register(gcm);
    }

    method Register(cipher: Cipher)
      requires ciphers == RegisterAll(map[], registered)
      modifies this`ciphers, this`registered
      ensures ciphers == old(ciphers)[cipher.algoId := cipher] && registered == old(registered) + [cipher]
      ensures old(Valid()) ==> Valid()
      ensures ciphers == RegisterAll(map[], registered)
      ensures Carriable(cipher) && Sound(cipher) && old(ValidCiphers(ciphers)) ==> ValidCiphers(ciphers)
    {
      ciphers := ciphers[cipher.algoId := cipher];
      registered := registered + [cipher];
      assert registered[..|registered| - 1] == old(registered);
    }

    /** Resolving the default; `None` is the panic of its `expect`. It resolves
        if and only if the default is one of the three shipped ids or some cipher
        was registered under it since. */
    function DefaultCipher(): (c: Option<Cipher>)
      requires Valid()
      reads this
      ensures c.Some? <==> 0x01 <= defaultAlgoId <= 0x03 || exists i :: 3 <= i < |registered| && registered[i].algoId == defaultAlgoId
      ensures c.Some? && ValidCiphers(ciphers) ==> c.value.algoId == defaultAlgoId && Carriable(c.value) && Sound(c.value)
    {
      RegisteredIff(registered, defaultAlgoId);
      if defaultAlgoId in ciphers then Some(ciphers[defaultAlgoId]) else None
    }
  }

  /** A registry whose default is registered nowhere: resolving it panics, until
      somebody registers a cipher under it. */
  method DefaultAt7F(gcmSiv: Cipher, chacha: Cipher, gcm: Cipher, other: Cipher) returns (r: CipherRegistry, before: Option<Cipher>)
    requires gcmSiv.algoId == 0x01 && chacha.algoId == 0x02 && gcm.algoId == 0x03 && other.algoId == 0x7F
    ensures fresh(r) && r.Valid() && before.None? && r.DefaultCipher() == Some(other)
  {
    r := new CipherRegistry(gcmSiv, chacha, gcm, 0x7F);
    before := r.DefaultCipher();
    r.Register(other);
    assert r.registered[3] == other;
  }

  function Get(ciphers: Ciphers, id: byte): (r: Result<Cipher, StoreError>)
    ensures r.Ok? <==> id in ciphers
  {
    if id in ciphers then Ok(ciphers[id]) else Err(UnknownAlgorithm(id))
  }

  /** `compose_aad`: the header bytes folded in front of the record identity. */
  function ComposeAad(algoId: byte, dekVersion: u32, nonceLen: byte, aadRecord: Bytes): Bytes {
    [ENVELOPE_VERSION] + [algoId] + ToBigEndian(dekVersion) + [nonceLen] + aadRecord
  }

  /** `Envelope::encrypt`; the nonce drawn from the operating system is an
      argument. The precondition is the function's own `assert!`. */
  function Encrypt(cipher: Cipher, key: Bytes, dekVersion: u32, plaintext: Bytes, aadRecord: Bytes, nonce: Bytes): Result<Bytes, StoreError>
    requires MIN_NONCE_LEN <= cipher.nonceSize <= MAX_NONCE_LEN
    requires |nonce| == cipher.nonceSize
  {
    var aad := ComposeAad(cipher.algoId, dekVersion, cipher.nonceSize, aadRecord);
    match cipher.seal(key, nonce, aad, plaintext)
    case None => Err(StoreError.Encrypt)
    case Some(ct) => Ok(Print(Frame(cipher.algoId, dekVersion, nonce, ct)))
  }

  /** What the header and body of an envelope say. */
  datatype Frame = Frame(algoId: byte, dekVersion: u32, nonce: Bytes, ciphertext: Bytes)

  predicate ValidFrame(f: Frame) {
    && f.algoId != ALGO_ID_SENTINEL_ZERO && f.algoId != ALGO_ID_SENTINEL_NEVER
    && MIN_NONCE_LEN <= |f.nonce| <= MAX_NONCE_LEN
  }

  /** The writer's byte layout. */
  function Print(f: Frame): Bytes
    requires |f.nonce| < 0x100
  {
    [ENVELOPE_VERSION] + [f.algoId] + ToBigEndian(f.dekVersion) + [|f.nonce|] + f.nonce + f.ciphertext
  }

  /** The reader's checks, in its order, up to the registry lookup. */
  function Parse(envelope: Bytes): (r: Result<Frame, StoreError>)
    ensures r.Ok? ==> ValidFrame(r.value)
  {
    if |envelope| < HEADER_LEN then Err(StoreError.Envelope(ShorterThanHeader))
    else
      var version, algoId, nonceLen := envelope[0], envelope[1], envelope[6];
      var dekVersion := FromBigEndian(envelope[2..6]);
      if version == 0x01 then Err(StoreError.Envelope(LegacyFormat))
      else if version != ENVELOPE_VERSION then Err(StoreError.Envelope(UnsupportedVersion))
      else if algoId == ALGO_ID_SENTINEL_ZERO || algoId == ALGO_ID_SENTINEL_NEVER then
        Err(StoreError.Envelope(SentinelAlgoId))
      else if !(MIN_NONCE_LEN <= nonceLen <= MAX_NONCE_LEN) then Err(StoreError.Envelope(NonceLenOutOfRange))
      else if |envelope| < HEADER_LEN + nonceLen then Err(StoreError.Envelope(TruncatedNonce))
      else Ok(Frame(algoId, dekVersion, envelope[HEADER_LEN..HEADER_LEN + nonceLen], envelope[HEADER_LEN + nonceLen..]))
  }

  /** `Envelope::decrypt`. */
  function Decrypt(ciphers: Ciphers, keyFor: KeyLookup, envelope: Bytes, aadRecord: Bytes): Result<Bytes, StoreError> {
    match Parse(envelope)
    case Err(e) => Err(e)
    case Ok(f) =>
      match Get(ciphers, f.algoId)
      case Err(e) => Err(e)
      case Ok(cipher) =>
        if cipher.nonceSize != |f.nonce| then Err(StoreError.Envelope(NonceLenMismatch))
        else
          match keyFor(f.algoId, f.dekVersion)
          case Err(e) => Err(e)
          case Ok(key) =>
            match cipher.open(key, f.nonce, ComposeAad(f.algoId, f.dekVersion, |f.nonce|, aadRecord), f.ciphertext)
            case None => Err(StoreError.Decrypt)
            case Some(p) => Ok(p)
  }

  /** `Envelope::peek_dek_version`. */
  function Peek(envelope: Bytes): Result<u32, StoreError> {
    if |envelope| < HEADER_LEN then Err(StoreError.Envelope(ShorterThanHeader))
    else if envelope[0] == 0x01 then Err(StoreError.Envelope(LegacyFormat))
    else if envelope[0] != ENVELOPE_VERSION then Err(StoreError.Envelope(UnsupportedVersion))
    else Ok(FromBigEndian(envelope[2..6]))
  }

  // ---- The parser and the printer undo each other.

  lemma ParsePrint(f: Frame)
    requires |f.nonce| < 0x100
    ensures Parse(Print(f)) == Ok(f) <==> ValidFrame(f)
    ensures Peek(Print(f)) == Ok(f.dekVersion)
  {
    var e := Print(f);
    assert e[2..6] == ToBigEndian(f.dekVersion);
    BigEndianRoundTrip(f.dekVersion);
    assert e[HEADER_LEN..HEADER_LEN + |f.nonce|] == f.nonce;
    assert e[HEADER_LEN + |f.nonce|..] == f.ciphertext;
  }

  lemma PrintParse(envelope: Bytes)
    requires Parse(envelope).Ok?
    ensures Print(Parse(envelope).value) == envelope
    ensures Peek(envelope) == Ok(Parse(envelope).value.dekVersion)
  {
    var f := Parse(envelope).value;
    BigEndianRoundTripBack(envelope[2..6]);
    assert ToBigEndian(f.dekVersion) == envelope[2..6];
    assert envelope == envelope[..1] + envelope[1..2] + envelope[2..6] + envelope[6..7]
                       + envelope[HEADER_LEN..HEADER_LEN + |f.nonce|] + envelope[HEADER_LEN + |f.nonce|..];
  }

  /** Reading back gives the plaintext, whatever else is registered. */
  lemma DecryptEncrypt(ciphers: Ciphers, keyFor: KeyLookup, id: byte, key: Bytes, dekVersion: u32,
                       plaintext: Bytes, aadRecord: Bytes, nonce: Bytes)
    requires id in ciphers && ciphers[id].algoId == id && Carriable(ciphers[id]) && Sound(ciphers[id])
    requires |nonce| == ciphers[id].nonceSize
    requires keyFor(id, dekVersion) == Ok(key)
    requires Encrypt(ciphers[id], key, dekVersion, plaintext, aadRecord, nonce).Ok?
    ensures var e := Encrypt(ciphers[id], key, dekVersion, plaintext, aadRecord, nonce).value;
            Peek(e) == Ok(dekVersion) && Decrypt(ciphers, keyFor, e, aadRecord) == Ok(plaintext)
  {
    var aad := ComposeAad(id, dekVersion, ciphers[id].nonceSize, aadRecord);
    var ct := ciphers[id].seal(key, nonce, aad, plaintext).value;
    ParsePrint(Frame(id, dekVersion, nonce, ct));
  }

  /** Reading accepts exactly what writing produces: an envelope opens to a
      plaintext if and only if it is the encryption of that plaintext, under
      the key looked up for its own header and the same record identity. */
  lemma DecryptAcceptsExactlyEncryptions(ciphers: Ciphers, keyFor: KeyLookup, envelope: Bytes, aadRecord: Bytes, plaintext: Bytes)
    requires ValidCiphers(ciphers)
    ensures Decrypt(ciphers, keyFor, envelope, aadRecord) == Ok(plaintext) <==>
            exists id, dekVersion: u32, nonce: Bytes ::
              && id in ciphers && |nonce| == ciphers[id].nonceSize && keyFor(id, dekVersion).Ok?
              && Encrypt(ciphers[id], keyFor(id, dekVersion).value, dekVersion, plaintext, aadRecord, nonce) == Ok(envelope)
  {
    if Decrypt(ciphers, keyFor, envelope, aadRecord) == Ok(plaintext) {
      PrintParse(envelope);
      var f := Parse(envelope).value;
      assert Encrypt(ciphers[f.algoId], keyFor(f.algoId, f.dekVersion).value, f.dekVersion, plaintext, aadRecord, f.nonce) == Ok(envelope);
    }
    forall id, dekVersion: u32, nonce: Bytes |
      && id in ciphers && |nonce| == ciphers[id].nonceSize && keyFor(id, dekVersion).Ok?
      && Encrypt(ciphers[id], keyFor(id, dekVersion).value, dekVersion, plaintext, aadRecord, nonce) == Ok(envelope)
      ensures Decrypt(ciphers, keyFor, envelope, aadRecord) == Ok(plaintext)
    {
      DecryptEncrypt(ciphers, keyFor, id, keyFor(id, dekVersion).value, dekVersion, plaintext, aadRecord, nonce);
    }
  }

  /** Resolving the key ahead of time is enough: the only key `decrypt` asks
      for is the one at the version `peek_dek_version` reports, and where
      peeking fails `decrypt` fails the same way without asking. */
  lemma PeekDecidesTheKey(ciphers: Ciphers, keyFor: KeyLookup, other: KeyLookup, envelope: Bytes, aadRecord: Bytes)
    requires Peek(envelope).Ok? ==> forall id: byte :: keyFor(id, Peek(envelope).value) == other(id, Peek(envelope).value)
    ensures Decrypt(ciphers, keyFor, envelope, aadRecord) == Decrypt(ciphers, other, envelope, aadRecord)
    ensures Peek(envelope).Err? ==> Decrypt(ciphers, keyFor, envelope, aadRecord) == Err(Peek(envelope).error)
  {
    if Parse(envelope).Ok? {
      PrintParse(envelope);
    }
  }

  lemma ComposeAadInjective(a: byte, v: u32, n: byte, r: Bytes, a': byte, v': u32, n': byte, r': Bytes)
    requires ComposeAad(a, v, n, r) == ComposeAad(a', v', n', r')
    ensures a == a' && v == v' && n == n' && r == r'
  {
    var x, y := ComposeAad(a, v, n, r), ComposeAad(a', v', n', r');
    assert x[1] == a && y[1] == a' && x[6] == n && y[6] == n';
    assert x[2..6] == ToBigEndian(v) && y[2..6] == ToBigEndian(v');
    BigEndianInjective(v, v');
    assert x[7..] == r && y[7..] == r';
  }

  // ---- The bytes and the answers, place by place.

  /** Seven bytes: 0x02, the cipher's id, the key's version with its most
      significant byte first, the length of the nonce. */
  predicate IsHeader(h: Bytes, algoId: byte, dekVersion: u32, nonceLen: int) {
    |h| == 7 && h[0] == 0x02 && h[1] == algoId && Unsigned(h[2..6]) == dekVersion && h[6] as int == nonceLen
  }

  lemma ComposeAadIs(algoId: byte, dekVersion: u32, nonceLen: byte, aadRecord: Bytes) returns (h: Bytes)
    ensures IsHeader(h, algoId, dekVersion, nonceLen as int) && ComposeAad(algoId, dekVersion, nonceLen, aadRecord) == h + aadRecord
    ensures h == [ENVELOPE_VERSION] + [algoId] + ToBigEndian(dekVersion) + [nonceLen]
  {
    h := [ENVELOPE_VERSION] + [algoId] + ToBigEndian(dekVersion) + [nonceLen];
    assert h[2..6] == ToBigEndian(dekVersion);
    BigEndianValue(dekVersion, []);
  }

  /** An envelope is its header, the nonce and what the cipher made of the
      plaintext; what the cipher authenticates is that header and then the
      record. */
  lemma EncryptIs(cipher: Cipher, key: Bytes, dekVersion: u32, plaintext: Bytes, aadRecord: Bytes, nonce: Bytes) returns (h: Bytes)
    requires 12 <= cipher.nonceSize <= 32 && |nonce| == cipher.nonceSize
    ensures IsHeader(h, cipher.algoId, dekVersion, |nonce|)
    ensures Encrypt(cipher, key, dekVersion, plaintext, aadRecord, nonce) ==
            match cipher.seal(key, nonce, h + aadRecord, plaintext)
            case None => Err(StoreError.Encrypt)
            case Some(ct) => Ok(h + nonce + ct)
  {
    h := ComposeAadIs(cipher.algoId, dekVersion, |nonce|, aadRecord);
  }

  /** Reading, on every byte string: what is refused and in which order, which
      key is asked for, and what is handed to the cipher. */
  lemma DecryptIs(ciphers: Ciphers, keyFor: KeyLookup, envelope: Bytes, aadRecord: Bytes)
    ensures var r, len := Decrypt(ciphers, keyFor, envelope, aadRecord), |envelope|;
            if len < 7 then r == Err(StoreError.Envelope(ShorterThanHeader))
            else if envelope[0] == 0x01 then r == Err(StoreError.Envelope(LegacyFormat))
            else if envelope[0] != 0x02 then r == Err(StoreError.Envelope(UnsupportedVersion))
            else if envelope[1] == 0x00 || envelope[1] == 0xFF then r == Err(StoreError.Envelope(SentinelAlgoId))
            else if envelope[6] < 12 || envelope[6] > 32 then r == Err(StoreError.Envelope(NonceLenOutOfRange))
            else if len < 7 + envelope[6] as int then r == Err(StoreError.Envelope(TruncatedNonce))
            else if envelope[1] !in ciphers then r == Err(UnknownAlgorithm(envelope[1]))
            else if ciphers[envelope[1]].nonceSize != envelope[6] as int then r == Err(StoreError.Envelope(NonceLenMismatch))
            else
              var i := 7 + envelope[6] as int;
              match keyFor(envelope[1], Version(envelope))
              case Err(e) => r == Err(e)
              case Ok(key) => r == match ciphers[envelope[1]].open(key, envelope[7..i], envelope[..7] + aadRecord, envelope[i..])
                                   case None => Err(StoreError.Decrypt)
                                   case Some(p) => Ok(p)
  {
    if |envelope| >= 7 {
      BigEndianValue(0, envelope[2..6]);
      if Parse(envelope).Ok? { HeaderStays(envelope, aadRecord); }
    }
  }

  /** The version an envelope was written with. */
  function Version(envelope: Bytes): u32
    requires |envelope| >= 7
  {
    BigEndianValue(0, envelope[2..6]);
    Unsigned(envelope[2..6])
  }

  lemma HeaderStays(envelope: Bytes, aadRecord: Bytes)
    requires |envelope| >= 7 && envelope[0] == ENVELOPE_VERSION
    ensures ComposeAad(envelope[1], FromBigEndian(envelope[2..6]), envelope[6], aadRecord) == envelope[..7] + aadRecord
  {
    var h := ComposeAadIs(envelope[1], FromBigEndian(envelope[2..6]), envelope[6], aadRecord);
    BigEndianRoundTripBack(envelope[2..6]);
    assert envelope[..7] == [envelope[0]] + [envelope[1]] + envelope[2..6] + [envelope[6]];
  }

  /** Peeking looks at the length, the first byte and the version only. */
  lemma PeekIs(envelope: Bytes)
    ensures Peek(envelope) ==
            if |envelope| < 7 then Err(StoreError.Envelope(ShorterThanHeader))
            else if envelope[0] == 0x01 then Err(StoreError.Envelope(LegacyFormat))
            else if envelope[0] != 0x02 then Err(StoreError.Envelope(UnsupportedVersion))
            else Ok(Version(envelope))
  {
    if |envelope| >= 7 { BigEndianValue(0, envelope[2..6]); }
  }
}
