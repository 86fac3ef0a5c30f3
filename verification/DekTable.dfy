/** The table `tenant_dek_wrappings`: its columns' constraints and the queries
    run against it. A row's primary key `(tenant_id, record_kind, dek_version)`
    is the in-memory map's key, with an `integer` for the version. */
module DekTable {
  import opened Wrappers
  import opened Bytes
  import opened StoreErrors
  import opened MasterKek
  import opened KeyStore
  import opened KeyAnswers

  /** The `dek_version` column: an `integer` the table checks to be at least 1. */
  type Version = n: i32 | n >= 1 witness 1

  type Table = Wrappings

  /** Every stored row passed the table's CHECK constraint and belongs to a
      tenant. */
  ghost predicate Stored(t: Table) {
    forall key | key in t :: key.controller.Tenant? && 1 <= key.version < TWO_31
  }

  /** The CHECK constraints an inserted row has to pass. */
  predicate ChecksPass(recordKind: Bytes, dekVersion: i32, wrapped: Bytes) {
    && dekVersion >= 1
    && 1 <= CharCount(recordKind) <= 64
    && 32 <= |wrapped| <= 1024
  }

  /** The row a query for version `n` names, when the column can hold it. */
  function RowKey(c: ControllerId, k: Bytes, n: i32): Option<WrappingKey> {
    if n >= 1 then Some(WrappingKey(c, k, n)) else None
  }

  /** `SELECT dek_version ... WHERE state = 'active'`, at most one row fetched. */
  ghost function ActiveRow(t: Table, c: ControllerId, k: Bytes): (r: Option<Version>)
    ensures r.Some? ==> IsActive(t, c, k, r.value)
    ensures r.None? ==> forall v: Version :: !IsActive(t, c, k, v)
  {
    if exists v: Version :: IsActive(t, c, k, v) then
      var v: Version :| IsActive(t, c, k, v); Some(v)
    else None
  }

  ghost predicate Greatest(t: Table, c: ControllerId, k: Bytes, v: Version) {
    && WrappingKey(c, k, v) in t
    && forall key | key in t && Of(key, c, k) :: key.version <= v
  }

  /** `SELECT MAX(dek_version)`, NULL when the pair has no row. */
  ghost function MaxVersion(t: Table, c: ControllerId, k: Bytes): (r: Option<Version>)
    ensures r.Some? ==> Greatest(t, c, k, r.value)
    ensures r.None? ==> forall v: Version :: !Greatest(t, c, k, v)
  {
    if exists v: Version :: Greatest(t, c, k, v) then
      var v: Version :| Greatest(t, c, k, v); Some(v)
    else None
  }

  /** Under the invariant the two queries agree with each other and with the
      in-memory lookups: `MAX + 1`, `retired + 1` and the map's next version
      are one number, whatever gaps shredding has left. */
  lemma QueriesAgree(t: Table, c: ControllerId, k: Bytes)
    requires KeyStore.Valid(t) && Stored(t)
    ensures var a := ActiveRow(t, c, k);
            && ActiveVersion(t, c, k) == (if a.None? then None else Some(a.value))
            && MaxVersion(t, c, k) == a
            && (a.None? <==> PairEmpty(t, c, k))
            && (a.Some? ==> IsTop(t, c, k, a.value))
            && NextVersion(t, c, k) == (if a.None? then 1 else AsU32(a.value) + 1)
  {
    assert PairValid(t, c, k);
    NextIsActivePlusOne(t, c, k);
    if v: u32 :| IsTop(t, c, k, v) {
      assert Of(WrappingKey(c, k, v), c, k) && Greatest(t, c, k, v);
    }
    var m := MaxVersion(t, c, k);
    assert m.Some? ==> Of(WrappingKey(c, k, m.value), c, k);
  }

  /** `dek_at_version` on the table: the lookup casts the requested version. */
  function SqlDekAtVersion(m: Master, t: Table, c: ControllerId, k: Bytes, v: u32): Result<Bytes, StoreError> {
    if c.User? then Err(UnsupportedController)
    else
      match RowKey(c, k, AsI32(v))
      case None => Err(NoSuchDekVersion(v))
      case Some(key) => if key in t then m.Unwrap(c, k, v, t[key].wrapped) else Err(NoSuchDekVersion(v))
  }

  /** The two providers answer alike for every `u32`, including the versions
      from 2^31 up, whose cast goes negative. */
  lemma DekAtVersionAgrees(m: Master, t: Table, c: ControllerId, k: Bytes, v: u32)
    requires Stored(t) && c.Tenant?
    ensures SqlDekAtVersion(m, t, c, k, v) == DekAtVersion(m, t, c, k, v)
    ensures v >= TWO_31 ==> DekAtVersion(m, t, c, k, v) == Err(NoSuchDekVersion(v))
  {
    assert WrappingKey(c, k, v) in t ==> v < TWO_31;
  }

  /** `active_dek_for` on the table. */
  ghost function SqlActiveDekFor(m: Master, t: Table, c: ControllerId, k: Bytes): Result<(Bytes, u32), StoreError> {
    if c.User? then Err(UnsupportedController)
    else
      match ActiveRow(t, c, k)
      case None => Err(NoActiveDek)
      case Some(n) =>
        match m.Unwrap(c, k, AsU32(n), t[WrappingKey(c, k, n)].wrapped)
        case Err(e) => Err(e)
        case Ok(dek) => Ok((dek, AsU32(n)))
  }

  lemma ActiveDekForAgrees(m: Master, t: Table, c: ControllerId, k: Bytes)
    requires KeyStore.Valid(t) && Stored(t) && c.Tenant?
    ensures SqlActiveDekFor(m, t, c, k) == ActiveDekFor(m, t, c, k)
  {
    QueriesAgree(t, c, k);
  }

  /** What a write gets from the table: the pair's active version, which is its
      greatest, and the key in its row. */
  lemma SqlActiveIff(m: Master, t: Table, c: ControllerId, k: Bytes)
    requires KeyStore.Valid(t) && Stored(t)
    ensures forall dek: Bytes, v: u32 ::
              SqlActiveDekFor(m, t, c, k) == Ok((dek, v)) <==> c.Tenant? && IsTop(t, c, k, v) && SqlDekAtVersion(m, t, c, k, v) == Ok(dek)
    ensures SqlActiveDekFor(m, t, c, k) == Err(NoActiveDek) <==> c.Tenant? && PairEmpty(t, c, k)
    ensures c.User? ==> SqlActiveDekFor(m, t, c, k) == Err(UnsupportedController)
  {
    if c.Tenant? {
      ActiveDekForAgrees(m, t, c, k);
      ActiveIff(m, t, c, k);
      forall v: u32 { DekAtVersionAgrees(m, t, c, k, v); }
    }
  }
}
