/** Everything the theorems about keys assume can be had at once: an environment
    with a toy cipher, and a run in it in which a value is sealed, rotated past,
    read, shredded and refused. */
module DekExample {
  import opened Wrappers
  import opened Bytes
  import opened StoreErrors
  import opened Aead
  import opened MasterKek
  import opened KeyStore
  import opened Encrypted
  import opened DekRuns
  import DekSqlExamples

  const NONCE: Bytes := [1, 2, 3, 4, 5, 6, 7, 8, 9, 10, 11, 12]
  const KEY: Bytes := NONCE + NONCE + [1, 2, 3, 4, 5, 6, 7, 8]

  function ToyMaster(): Master {
    Master(KEY, Toy(0x01, 12))
  }

  function ToyEnv(): Env {
    Env(ToyMaster(), map[0x01 := Toy(0x01, 12)], 0x01)
  }

  lemma ToyEnvIsValid()
    ensures ToyEnv().Valid()
  {
    ToyIsSound(0x01, 12);
  }

  lemma ToyWraps(c: ControllerId, k: Bytes, v: u32, dek: Bytes, nonce: Bytes)
    requires |dek| == DEK_LEN && |nonce| == 12
    ensures ToyMaster().Wrap(c, k, v, dek, nonce).Ok?
  {
    ToyIsSound(0x01, 12);
  }

  /** What `DekSqlExamples` assumes of its runs holds for every pair of a tenant
      whose record kind fits the column. */
  lemma ToyIsFresh(c: ControllerId, k: Bytes, dek: Bytes, nonce: Bytes)
    requires c.Tenant? && 1 <= CharCount(k) <= 64 && |dek| == DEK_LEN && |nonce| == 12
    ensures DekSqlExamples.Fresh(ToyMaster(), c, k, dek, nonce)
  {
    ToyEnvIsValid();
    forall v: u32 ensures ToyMaster().Wrap(c, k, v, dek, nonce).Ok? {
      ToyWraps(c, k, v, dek, nonce);
    }
  }

  /** A pair's first version. */
  lemma FirstVersion(c: ControllerId, k: Bytes) returns (s: World)
    requires ToyEnv().Valid()
    ensures s == Apply(ToyEnv(), START, Generate(c, k, KEY, NONCE))
    ensures KeyStore.Valid(s.wrappings) && IsTop(s.wrappings, c, k, 1) && s.erased == {} && s.sealed == []
    ensures ActiveDekFor(ToyMaster(), s.wrappings, c, k) == Ok((KEY, 1))
  {
    ToyWraps(c, k, 1, KEY, NONCE);
    StartInv(ToyEnv());
    NextIsActivePlusOne(START.wrappings, c, k);
    GenerateKeepsValid(ToyMaster(), START.wrappings, c, k, KEY, NONCE);
    s := Apply(ToyEnv(), START, Generate(c, k, KEY, NONCE));
    ToyMaster().UnwrapWrap(c, k, 1, KEY, NONCE);
    NextIsActivePlusOne(s.wrappings, c, k);
  }

  /** A value sealed under it. */
  lemma SealedFirst(c: ControllerId, k: Bytes, plaintext: Bytes, aad: AadRecord, g: World) returns (s: World)
    requires IsUtf8(plaintext) && ToyEnv().Valid() && ActiveDekFor(ToyMaster(), g.wrappings, c, k) == Ok((KEY, 1)) && g.sealed == []
    ensures s == Apply(ToyEnv(), g, SealValue(c, k, plaintext, aad, NONCE)) && s.wrappings == g.wrappings
    ensures |s.sealed| == 1 && s.sealed[0].Key() == WrappingKey(c, k, 1) && s.sealed[0].plaintext == plaintext
  {
    s := Apply(ToyEnv(), g, SealValue(c, k, plaintext, aad, NONCE));
  }

  lemma RotatedAndShredded(c: ControllerId, k: Bytes, s: World) returns (r: World, d: World)
    requires ToyEnv().Valid() && KeyStore.Valid(s.wrappings) && IsTop(s.wrappings, c, k, 1)
    ensures r == Apply(ToyEnv(), s, Rotate(c, k, KEY, NONCE)) && d == Apply(ToyEnv(), r, Shred(c, k, 1))
    ensures IsTop(r.wrappings, c, k, 2) && WrappingKey(c, k, 1) in r.wrappings && r.sealed == s.sealed
    ensures WrappingKey(c, k, 1) !in d.wrappings && d.sealed == s.sealed
  {
    ToyWraps(c, k, 2, KEY, NONCE);
    NextIsActivePlusOne(s.wrappings, c, k);
    RotateKeepsValid(ToyMaster(), s.wrappings, c, k, KEY, NONCE);
    r := Apply(ToyEnv(), s, Rotate(c, k, KEY, NONCE));
    assert Of(WrappingKey(c, k, 1), c, k);
    d := Apply(ToyEnv(), r, Shred(c, k, 1));
  }

  function UpToRotate(c: ControllerId, k: Bytes, plaintext: Bytes, aad: AadRecord): seq<Event> {
    [Generate(c, k, KEY, NONCE)] + [SealValue(c, k, plaintext, aad, NONCE)] + [Rotate(c, k, KEY, NONCE)]
  }

  function Life(c: ControllerId, k: Bytes, plaintext: Bytes, aad: AadRecord): seq<Event> {
    UpToRotate(c, k, plaintext, aad) + [Shred(c, k, 1)]
  }

  lemma OneMore(env: Env, s: World, es: seq<Event>, e: Event)
    requires env.Valid() && ValidRun(env, es) && ValidEvent(env, e)
    ensures ValidRun(env, es + [e]) && Run(env, s, es + [e]) == Apply(env, Run(env, s, es), e)
  {
    RunConcat(env, s, es, [e]);
    assert [e][1..] == [];
  }

  /** A value's life: sealed under version 1, still read after a rotate to
      version 2, and refused once version 1 is shredded. */
  lemma SealedReadShreddedRefused(c: ControllerId, k: Bytes, plaintext: Bytes, aad: AadRecord)
    requires IsUtf8(plaintext)
    ensures ToyEnv().Valid() && ValidRun(ToyEnv(), UpToRotate(c, k, plaintext, aad)) && ValidRun(ToyEnv(), Life(c, k, plaintext, aad))
    ensures var rotated, shredded := Run(ToyEnv(), START, UpToRotate(c, k, plaintext, aad)), Run(ToyEnv(), START, Life(c, k, plaintext, aad));
            && |rotated.sealed| == 1 && rotated.sealed == shredded.sealed
            && rotated.sealed[0].plaintext == plaintext && IsTop(rotated.wrappings, c, k, 2)
            && ReadBack(ToyEnv(), rotated.wrappings, rotated.sealed[0]) == Ok(plaintext)
            && ReadBack(ToyEnv(), shredded.wrappings, rotated.sealed[0]) == Err(NoSuchDekVersion(1))
  {
    ToyEnvIsValid();
    var env := ToyEnv();
    var e0, e1, e2, e3 := Generate(c, k, KEY, NONCE), SealValue(c, k, plaintext, aad, NONCE), Rotate(c, k, KEY, NONCE), Shred(c, k, 1);
    assert [] + [e0] == [e0];
    OneMore(env, START, [], e0);
    OneMore(env, START, [e0], e1);
    OneMore(env, START, [e0] + [e1], e2);
    OneMore(env, START, UpToRotate(c, k, plaintext, aad), e3);
    var g := FirstVersion(c, k);
    var s := SealedFirst(c, k, plaintext, aad, g);
    var r, d := RotatedAndShredded(c, k, s);
    SealedValuesOpen(env, UpToRotate(c, k, plaintext, aad), s.sealed[0]);
    SealedValuesOpen(env, Life(c, k, plaintext, aad), s.sealed[0]);
  }
}
