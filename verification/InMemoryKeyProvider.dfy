/** The in-memory provider (key_provider.rs, second half): a mutable map under
    one lock, so each method is one step. Random bytes are arguments. */
module InMemoryKeyProvider {
  import opened Wrappers
  import opened Bytes
  import opened StoreErrors
  import opened MasterKek
  import opened KeyStore
  import opened KeyAnswers

  /** `next_version_for` walks the map in whatever order it iterates. */
  method NextVersionFor(w: Wrappings, c: ControllerId, k: Bytes) returns (max: Option<u32>)
    ensures max.None? ==> PairEmpty(w, c, k) && NextVersion(w, c, k) == 1
    ensures max.Some? ==> NextVersion(w, c, k) == max.value + 1
  {
    max := None;
    var todo := w.Keys;
    while todo != {}
      invariant todo <= w.Keys
      invariant max.None? ==> forall key | key in w && Of(key, c, k) :: key in todo
      invariant max.Some? ==> WrappingKey(c, k, max.value) in w
      invariant max.Some? ==> forall key | key in w && Of(key, c, k) :: key in todo || key.version <= max.value
    {
      var key :| key in todo;
      todo := todo - {key};
      if Of(key, c, k) && (max.None? || key.version > max.value) {
        assert key == WrappingKey(c, k, key.version);
        max := Some(key.version);
      }
    }
    if max.Some? {
      assert max.value in Versions(w, c, k);
    }
  }

  /** `find_active_version` stops at the first active row its iteration meets. */
  method FindActiveVersion(w: Wrappings, c: ControllerId, k: Bytes) returns (r: Option<u32>)
    ensures r.None? ==> ActiveVersion(w, c, k).None?
    ensures r.Some? ==> IsActive(w, c, k, r.value)
    ensures Valid(w) ==> r == ActiveVersion(w, c, k)  // the same answer for every iteration order
  {
    r := None;
    var todo := w.Keys;
    while todo != {}
      invariant forall v: u32 | IsActive(w, c, k, v) :: WrappingKey(c, k, v) in todo
    {
      var key :| key in todo;
      todo := todo - {key};
      if key in w && Of(key, c, k) && w[key].state == Active {
        assert key == WrappingKey(c, k, key.version);
        r := Some(key.version);
        if Valid(w) { NextIsActivePlusOne(w, c, k); }
        return;
      }
    }
  }

  class Provider {
    const master: Master
    var wrappings: Wrappings

    ghost predicate Valid()
      reads this
    {
      master.Valid() && KeyStore.Valid(wrappings)
    }

    constructor (master: Master)
      requires master.Valid()
      ensures Valid() && this.master == master && wrappings == map[]
    {
      this.master := master;
      wrappings := map[];
      new;
      assert forall c: ControllerId, k: Bytes :: PairEmpty(wrappings, c, k) && PairValid(wrappings, c, k);
    }

    method GenerateDek(c: ControllerId, k: Bytes, dek: Bytes, nonce: Bytes) returns (r: Result<u32, StoreError>)
      requires Valid() && |dek| == DEK_LEN && |nonce| == master.cipher.nonceSize
      modifies this`wrappings
      ensures Valid()
      ensures (wrappings, r) == KeyStore.GenerateDek(master, old(wrappings), c, k, dek, nonce)
      // It succeeds on a pair without rows only, and then writes get this key.
      ensures r.Ok? ==> r.value == 1 && PairEmpty(old(wrappings), c, k)
      ensures r.Ok? ==> KeyStore.ActiveDekFor(master, wrappings, c, k) == Ok((dek, r.value)) && SameBut(old(wrappings), wrappings, c, k, {r.value})
    {
      GenerateKeepsValid(master, wrappings, c, k, dek, nonce);
      GenerateAnswers(master, wrappings, c, k, dek, nonce);
      var active := FindActiveVersion(wrappings, c, k);
      if active.Some? {
        return Err(AlreadyActiveDek);
      }
      var max := NextVersionFor(wrappings, c, k);
      if max.Some? && max.value + 1 >= TWO_32 {
        return Err(VersionOverflowPanic);
      }
      var version: u32 := if max.None? then 1 else max.value + 1;
      var wrapped := master.Wrap(c, k, version, dek, nonce);
      if wrapped.Err? {
        return Err(wrapped.error);
      }
      wrappings := wrappings[WrappingKey(c, k, version) := WrappingRow(wrapped.value, Active)];
      return Ok(version);
    }

    method ActiveDekFor(c: ControllerId, k: Bytes) returns (r: Result<(Bytes, u32), StoreError>)
      requires Valid()
      ensures r == KeyStore.ActiveDekFor(master, wrappings, c, k)
      // The greatest version, which is the active one, and the key in its row.
      ensures r.Ok? ==> IsTop(wrappings, c, k, r.value.1) && KeyStore.DekAtVersion(master, wrappings, c, k, r.value.1) == Ok(r.value.0)
      ensures r == Err(NoActiveDek) <==> PairEmpty(wrappings, c, k)
    {
      ActiveIff(master, wrappings, c, k);
      var version := FindActiveVersion(wrappings, c, k);
      if version.None? {
        return Err(NoActiveDek);
      }
      var dek := master.Unwrap(c, k, version.value, wrappings[WrappingKey(c, k, version.value)].wrapped);
      return if dek.Err? then Err(dek.error) else Ok((dek.value, version.value));
    }

    method DekAtVersion(c: ControllerId, k: Bytes, version: u32) returns (r: Result<Bytes, StoreError>)
      ensures r == KeyStore.DekAtVersion(master, wrappings, c, k, version)
      ensures master.Valid() ==> (r == Err(NoSuchDekVersion(version)) <==> WrappingKey(c, k, version) !in wrappings)
    {
      if master.Valid() { DekAtVersionIff(master, wrappings, c, k, version); }
      var key := WrappingKey(c, k, version);
      if key !in wrappings {
        return Err(NoSuchDekVersion(version));
      }
      return master.Unwrap(c, k, version, wrappings[key].wrapped);
    }

    method RotateDek(c: ControllerId, k: Bytes, dek: Bytes, nonce: Bytes) returns (r: Result<(u32, u32), StoreError>)
      requires Valid() && |dek| == DEK_LEN && |nonce| == master.cipher.nonceSize
      modifies this`wrappings
      ensures Valid()
      ensures (wrappings, r) == KeyStore.RotateDek(master, old(wrappings), c, k, dek, nonce)
      // From now on writes get this key, under the successor of what was on top.
      ensures HasRotated(master, old(wrappings), wrappings, r, c, k, dek)
    {
      RotateMeans(master, wrappings, c, k, dek, nonce);
      ghost var w := wrappings;
      var retired := FindActiveVersion(wrappings, c, k);
      if retired.None? {
        return Err(NoActiveDek);
      }
      var max := NextVersionFor(wrappings, c, k);
      assert max.Some? by { NextIsActivePlusOne(wrappings, c, k); }
      if max.value + 1 >= TWO_32 {
        return Err(VersionOverflowPanic);
      }
      var version: u32 := max.value + 1;
      var wrapped := master.Wrap(c, k, version, dek, nonce);
      if wrapped.Err? {
        return Err(wrapped.error);
      }
      var retiredKey := WrappingKey(c, k, retired.value);
      wrappings := wrappings[retiredKey := wrappings[retiredKey].(state := Retired)];
      wrappings := wrappings[WrappingKey(c, k, version) := WrappingRow(wrapped.value, Active)];
      assert KeyStore.RotateDek(master, w, c, k, dek, nonce) == (wrappings, Ok((version, retired.value)));
      return Ok((version, retired.value));
    }

    method ShredDek(c: ControllerId, k: Bytes, version: u32) returns (r: Result<(), StoreError>)
      requires Valid()
      modifies this`wrappings
      ensures Valid()
      ensures (wrappings, r) == KeyStore.ShredDek(old(wrappings), c, k, version)
      // Whatever the controller and the version, the row decides.
      ensures r == Err(NoSuchDekVersion(version)) <==> WrappingKey(c, k, version) !in old(wrappings)
      ensures r == Err(CannotShredActiveDek) <==> IsActive(old(wrappings), c, k, version)
      ensures r.Ok? <==> WrappingKey(c, k, version) in old(wrappings) && old(wrappings)[WrappingKey(c, k, version)].state == Retired
      ensures r.Ok? ==> wrappings == old(wrappings) - {WrappingKey(c, k, version)}
    {
      ShredKeepsValid(wrappings, c, k, version);
      ShredIff(wrappings, c, k, version);
      var key := WrappingKey(c, k, version);
      if key !in wrappings {
        return Err(NoSuchDekVersion(version));
      }
      if wrappings[key].state == Active {
        return Err(CannotShredActiveDek);
      }
      wrappings := wrappings - {key};
      return Ok(());
    }
  }
}
