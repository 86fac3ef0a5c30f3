/** The DEK lifecycle on a table of wrappings, as values: what each operation
    of the `KeyProvider` trait does to the table and answers, and the
    invariant every one of them keeps. */
module KeyStore {
  import opened Wrappers
  import opened Bytes
  import opened StoreErrors
  import opened MasterKek

  datatype WrappingState = Active | Retired
  datatype WrappingRow = WrappingRow(wrapped: Bytes, state: WrappingState)
  datatype WrappingKey = WrappingKey(controller: ControllerId, recordKind: Bytes, version: u32)
  type Wrappings = map<WrappingKey, WrappingRow>

  // ---- The invariant.

  ghost predicate IsActive(w: Wrappings, c: ControllerId, k: Bytes, v: u32) {
    WrappingKey(c, k, v) in w && w[WrappingKey(c, k, v)].state == Active
  }

  predicate Of(key: WrappingKey, c: ControllerId, k: Bytes) {
    key.controller == c && key.recordKind == k
  }

  /** `v` is the pair's one active version and its greatest. */
  ghost predicate IsTop(w: Wrappings, c: ControllerId, k: Bytes, v: u32) {
    && IsActive(w, c, k, v)
    && forall key | key in w && Of(key, c, k) && key.version != v :: key.version < v && w[key].state == Retired
  }

  ghost predicate PairEmpty(w: Wrappings, c: ControllerId, k: Bytes) {
    forall key | key in w :: !Of(key, c, k)
  }

  ghost predicate PairValid(w: Wrappings, c: ControllerId, k: Bytes) {
    PairEmpty(w, c, k) || exists v: u32 :: IsTop(w, c, k, v)
  }

  /** A pair with any row has exactly one active row, and it carries the
      greatest version. Versions start at 1. */
  ghost predicate Valid(w: Wrappings) {
    && (forall key | key in w :: key.version >= 1)
    && (forall c: ControllerId, k: Bytes :: PairValid(w, c, k))
  }

  // ---- Looking up a pair's versions.

  function Versions(w: Wrappings, c: ControllerId, k: Bytes): (s: set<u32>)
    ensures forall v: u32 :: v in s <==> WrappingKey(c, k, v) in w
    ensures s == {} <==> PairEmpty(w, c, k)
  {
    var s := set key | key in w && Of(key, c, k) :: key.version;
    assert forall v: u32 | WrappingKey(c, k, v) in w :: WrappingKey(c, k, v).version in s;
    assert forall key | key in w && Of(key, c, k) :: key.version in s;
    s
  }

  /** The greatest element, as `Iterator::max` gives it. */
  ghost function Max(s: set<u32>): (m: u32)
    requires s != {}
    ensures m in s && forall x | x in s :: x <= m
  {
    var x :| x in s;
    if s == {x} then x
    else
      var m := Max(s - {x});
      assert forall y | y in s :: y == x || y in s - {x};
      if x > m then x else m
  }

  /** `next_version_for`, before the `u32` addition is checked. */
  ghost function NextVersion(w: Wrappings, c: ControllerId, k: Bytes): (n: nat)
    ensures PairEmpty(w, c, k) ==> n == 1
    ensures forall v: u32 :: IsTop(w, c, k, v) ==> n == v + 1
  {
    var s := Versions(w, c, k);
    if s == {} then 1
    else
      assert WrappingKey(c, k, Max(s)) in w;
      assert forall v: u32 :: IsTop(w, c, k, v) ==> v in s;
      Max(s) + 1
  }

  ghost function ActiveVersion(w: Wrappings, c: ControllerId, k: Bytes): (r: Option<u32>)
    ensures r.None? <==> forall v: u32 :: !IsActive(w, c, k, v)
    ensures r.Some? ==> IsActive(w, c, k, r.value)
  {
    if exists v: u32 :: IsActive(w, c, k, v) then
      var v: u32 :| IsActive(w, c, k, v); Some(v)
    else None
  }

  /** Under the invariant a pair has an active version exactly when it has any
      row, and the next version is the active one plus one: the SQL provider's
      `retired + 1` and the in-memory `max + 1` are the same number. */
  lemma NextIsActivePlusOne(w: Wrappings, c: ControllerId, k: Bytes)
    requires Valid(w)
    ensures ActiveVersion(w, c, k).None? <==> PairEmpty(w, c, k)
    ensures forall v: u32 :: IsActive(w, c, k, v) ==>
              IsTop(w, c, k, v) && ActiveVersion(w, c, k) == Some(v) && NextVersion(w, c, k) == v + 1
  {
    assert PairValid(w, c, k);
  }

  // ---- The operations.

  ghost function GenerateDek(m: Master, w: Wrappings, c: ControllerId, k: Bytes, dek: Bytes, nonce: Bytes)
    : (r: (Wrappings, Result<u32, StoreError>))
    requires |dek| == DEK_LEN && |nonce| == m.cipher.nonceSize
  {
    if ActiveVersion(w, c, k).Some? then (w, Err(AlreadyActiveDek))
    else
      var v := NextVersion(w, c, k);
      if v >= TWO_32 then (w, Err(VersionOverflowPanic))
      else
        match m.Wrap(c, k, v, dek, nonce)
        case Err(e) => (w, Err(e))
        case Ok(wrapped) => (w[WrappingKey(c, k, v) := WrappingRow(wrapped, Active)], Ok(v))
  }

  /** Retire one version and make another the active one. */
  function Replace(w: Wrappings, c: ControllerId, k: Bytes, retired: u32, v: u32, wrapped: Bytes): Wrappings
    requires WrappingKey(c, k, retired) in w
  {
    w[WrappingKey(c, k, retired) := w[WrappingKey(c, k, retired)].(state := Retired)]
     [WrappingKey(c, k, v) := WrappingRow(wrapped, Active)]
  }

  ghost function RotateDek(m: Master, w: Wrappings, c: ControllerId, k: Bytes, dek: Bytes, nonce: Bytes)
    : (r: (Wrappings, Result<(u32, u32), StoreError>))
    requires |dek| == DEK_LEN && |nonce| == m.cipher.nonceSize
  {
    match ActiveVersion(w, c, k)
    case None => (w, Err(NoActiveDek))
    case Some(retired) =>
      var v := NextVersion(w, c, k);
      if v >= TWO_32 then (w, Err(VersionOverflowPanic))
      else
        match m.Wrap(c, k, v, dek, nonce)
        case Err(e) => (w, Err(e))
        case Ok(wrapped) => (Replace(w, c, k, retired, v, wrapped), Ok((v, retired)))
  }

  function ShredDek(w: Wrappings, c: ControllerId, k: Bytes, v: u32): (r: (Wrappings, Result<(), StoreError>)) {
    var key := WrappingKey(c, k, v);
    if key !in w then (w, Err(NoSuchDekVersion(v)))
    else if w[key].state == Active then (w, Err(CannotShredActiveDek))
    else (w - {key}, Ok(()))
  }

  function DekAtVersion(m: Master, w: Wrappings, c: ControllerId, k: Bytes, v: u32): (r: Result<Bytes, StoreError>) {
    var key := WrappingKey(c, k, v);
    if key !in w then Err(NoSuchDekVersion(v)) else m.Unwrap(c, k, v, w[key].wrapped)
  }

  ghost function ActiveDekFor(m: Master, w: Wrappings, c: ControllerId, k: Bytes): Result<(Bytes, u32), StoreError> {
    match ActiveVersion(w, c, k)
    case None => Err(NoActiveDek)
    case Some(v) =>
      match m.Unwrap(c, k, v, w[WrappingKey(c, k, v)].wrapped)
      case Err(e) => Err(e)
      case Ok(dek) => Ok((dek, v))
  }

  /** `DELETE FROM tenants` cascades to all and only the tenant's wrappings. */
  function EraseTenant(w: Wrappings, id: Uuid): (w': Wrappings)
    ensures forall key | key in w :: key.controller != Tenant(id) ==> key in w' && w'[key] == w[key]
    ensures forall key | key in w' :: key in w && key.controller != Tenant(id)
  {
    map key | key in w && key.controller != Tenant(id) :: w[key]
  }

  // ---- What every operation keeps.

  /** Pairs other than `(c, k)` see the same rows. */
  ghost predicate SameElsewhere(w: Wrappings, w': Wrappings, c: ControllerId, k: Bytes) {
    && (forall key | key in w && !Of(key, c, k) :: key in w' && w'[key] == w[key])
    && (forall key | key in w' && !Of(key, c, k) :: key in w)
  }

  /** Rows that stay keep their wrapped bytes. */
  ghost predicate SameWrapped(w: Wrappings, w': Wrappings) {
    forall key | key in w && key in w' :: w'[key].wrapped == w[key].wrapped
  }

  /** Changing one pair only, and leaving that pair empty or topped, keeps the
      invariant of the whole table. */
  lemma ValidFromPair(w: Wrappings, w': Wrappings, c: ControllerId, k: Bytes)
    requires Valid(w) && SameElsewhere(w, w', c, k)
    requires PairValid(w', c, k)
    requires forall key | key in w' :: key.version >= 1
    ensures Valid(w')
  {
    forall c': ControllerId, k': Bytes ensures PairValid(w', c', k') {
      if c' != c || k' != k {
        assert PairValid(w, c', k');
        if v: u32 :| IsTop(w, c', k', v) {
          assert IsTop(w', c', k', v);
        }
      }
    }
  }

  lemma GenerateKeepsValid(m: Master, w: Wrappings, c: ControllerId, k: Bytes, dek: Bytes, nonce: Bytes)
    requires Valid(w) && |dek| == DEK_LEN && |nonce| == m.cipher.nonceSize
    ensures var (w', r) := GenerateDek(m, w, c, k, dek, nonce);
            && Valid(w') && SameElsewhere(w, w', c, k) && SameWrapped(w, w')
            && (r.Err? ==> w' == w)
            && (r.Ok? ==> && PairEmpty(w, c, k) && r.value == 1 && IsTop(w', c, k, 1)
                          && w'.Keys == w.Keys + {WrappingKey(c, k, 1)})
  {
    var (w', r) := GenerateDek(m, w, c, k, dek, nonce);
    if r.Ok? {
      NextIsActivePlusOne(w, c, k);
      assert IsTop(w', c, k, 1);
      ValidFromPair(w, w', c, k);
    }
  }

  lemma ReplaceKeepsValid(w: Wrappings, c: ControllerId, k: Bytes, retired: u32, v: u32, wrapped: Bytes)
    requires Valid(w) && IsTop(w, c, k, retired) && v == retired + 1
    ensures var w' := Replace(w, c, k, retired, v, wrapped);
            && Valid(w') && SameElsewhere(w, w', c, k) && SameWrapped(w, w') && IsTop(w', c, k, v)
            && WrappingKey(c, k, v) !in w && w'.Keys == w.Keys + {WrappingKey(c, k, v)}
  {
    var w' := Replace(w, c, k, retired, v, wrapped);
    assert IsTop(w', c, k, v);
    ValidFromPair(w, w', c, k);
  }

  lemma RotateKeepsValid(m: Master, w: Wrappings, c: ControllerId, k: Bytes, dek: Bytes, nonce: Bytes)
    requires Valid(w) && |dek| == DEK_LEN && |nonce| == m.cipher.nonceSize
    ensures var (w', r) := RotateDek(m, w, c, k, dek, nonce);
            && Valid(w') && SameElsewhere(w, w', c, k) && SameWrapped(w, w')
            && (r.Err? ==> w' == w)
            && (r.Ok? ==> && r.value.0 == r.value.1 + 1
                          && IsTop(w, c, k, r.value.1) && IsTop(w', c, k, r.value.0)
                          && w'.Keys == w.Keys + {WrappingKey(c, k, r.value.0)})
  {
    var (w', r) := RotateDek(m, w, c, k, dek, nonce);
    if r.Ok? {
      NextIsActivePlusOne(w, c, k);
      var (v, retired) := r.value;
      assert IsActive(w, c, k, retired);
      ReplaceKeepsValid(w, c, k, retired, v, m.Wrap(c, k, v, dek, nonce).value);
    }
  }

  /** A shred takes away exactly one retired version; the active version stays
      the greatest. */
  lemma ShredKeepsValid(w: Wrappings, c: ControllerId, k: Bytes, v: u32)
    requires Valid(w)
    ensures var (w', r) := ShredDek(w, c, k, v);
            && Valid(w') && SameElsewhere(w, w', c, k) && SameWrapped(w, w')
            && (r.Err? ==> w' == w)
            && (r.Ok? ==> && WrappingKey(c, k, v) in w && w'.Keys == w.Keys - {WrappingKey(c, k, v)}
                          && exists t: u32 :: t != v && IsTop(w, c, k, t) && IsTop(w', c, k, t))
  {
    var (w', r) := ShredDek(w, c, k, v);
    if r.Ok? {
      assert PairValid(w, c, k) && Of(WrappingKey(c, k, v), c, k);
      var t: u32 :| IsTop(w, c, k, t);
      assert IsTop(w', c, k, t);
      ValidFromPair(w, w', c, k);
    }
  }

  lemma EraseKeepsValid(w: Wrappings, id: Uuid)
    requires Valid(w)
    ensures Valid(EraseTenant(w, id))
  {
    var w' := EraseTenant(w, id);
    forall c: ControllerId, k: Bytes ensures PairValid(w', c, k) {
      assert PairValid(w, c, k);
      if v: u32 :| IsTop(w, c, k, v) {
        assert c == Tenant(id) || IsTop(w', c, k, v);
      }
    }
  }
}
