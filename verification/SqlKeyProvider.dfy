/** `SqlxKeyProvider` (dek_wrappings.rs) as a program: each method runs its
    statements on the transaction's own view of the table and then commits or
    drops it, with nobody else about. `DekTransactions` has the interleavings,
    and `DekSqlCalls` shows that a call comes to the same `Outcome` among them. */
module SqlKeyProvider {
  import opened Wrappers
  import opened Bytes
  import opened StoreErrors
  import opened MasterKek
  import opened KeyStore
  import opened KeyAnswers
  import opened DekTable
  import opened DekTransactions
  import opened DekRefinement
  import opened DekSqlCalls
  import opened InMemoryKeyProvider

  /** A method's result as the reply of a transaction. */
  function Answer<T>(r: Result<T, StoreError>, reply: T -> Reply): Pc {
    Done(if r.Ok? then Ok(reply(r.value)) else Err(r.error))
  }

  /** INSERT of an active row: CHECK constraints, primary key, the index on
      active rows, foreign key. */
  method InsertActive(t: Table, tenants: set<Uuid>, c: ControllerId, k: Bytes, dekVersion: i32, wrapped: Bytes)
    returns (r: Result<Table, StoreError>)
    requires c.Tenant? && Stored(t)
    ensures r.Ok? <==>
              && ChecksPass(k, dekVersion, wrapped)
              && WrappingKey(c, k, dekVersion) !in t
              && (forall v: u32 :: !IsActive(t, c, k, v))
              && c.id in tenants
    ensures r.Ok? ==> dekVersion >= 1 && r.value == t[WrappingKey(c, k, dekVersion) := WrappingRow(wrapped, Active)]
    ensures r.Err? ==> r.error == Storage
  {
    if !ChecksPass(k, dekVersion, wrapped) {
      return Err(Storage);
    }
    var key := WrappingKey(c, k, dekVersion);
    var active := FindActiveVersion(t, c, k);
    if key in t || active.Some? || c.id !in tenants {
      return Err(Storage);
    }
    return Ok(t[key := WrappingRow(wrapped, Active)]);
  }

  /** UPDATE ... SET state = 'retired' WHERE state = 'active' RETURNING
      dek_version, as the transaction sees it. */
  method RetireActive(t: Table, c: ControllerId, k: Bytes) returns (tx: Table, retired: Option<u32>)
    requires KeyStore.Valid(t)
    ensures retired == ActiveVersion(t, c, k)
    ensures retired.None? ==> tx == t
    ensures retired.Some? ==>
              && WrappingKey(c, k, retired.value) in t
              && tx == t[WrappingKey(c, k, retired.value) := t[WrappingKey(c, k, retired.value)].(state := Retired)]
    ensures forall v: u32 :: !IsActive(tx, c, k, v)
  {
    tx := t;
    retired := FindActiveVersion(t, c, k);
    if retired.Some? {
      NextIsActivePlusOne(t, c, k);
      var key := WrappingKey(c, k, retired.value);
      tx := t[key := t[key].(state := Retired)];
      forall v: u32 ensures !IsActive(tx, c, k, v) {
        assert v != retired.value ==> !IsActive(t, c, k, v);
      }
    }
  }

  /** What a rotate comes to once its UPDATE has found the active row. */
  lemma RotateOutcome(m: Master, db: Db, op: Op, retired: u32)
    requires m.Valid() && TableOk(db, db.table) && op.Rotate? && ValidOp(m, op) && IsActive(db.table, op.c, op.k, retired)
    ensures var version := retired + 1;
            var wrapped := m.Wrap(op.c, op.k, version, op.dek, op.nonce);
            && version < TWO_32 && WrappingKey(op.c, op.k, version) !in db.table
            && (forall v: u32 :: IsActive(db.table, op.c, op.k, v) ==> v == retired)
            && (RowFits(db, op) <==> 1 <= CharCount(op.k) <= 64 && op.c.id in db.tenants && version < TWO_31)
            && Outcome(m, db, op) ==
               (if wrapped.Err? then (db.table, Done(Err(wrapped.error)))
                else if RowFits(db, op) then (Replace(db.table, op.c, op.k, retired, version, wrapped.value), Done(Ok(Rotated(version, retired))))
                else (db.table, Done(Err(Storage))))
  {
    NextIsActivePlusOne(db.table, op.c, op.k);
    assert forall key | key in db.table && Of(key, op.c, op.k) :: key.version <= retired;
  }

  lemma ReplaceActiveKeepsTable(db: Db, c: ControllerId, k: Bytes, retired: u32, wrapped: Bytes)
    requires TableOk(db, db.table) && IsActive(db.table, c, k, retired) && retired + 1 < TWO_31
    ensures TableOk(db, Replace(db.table, c, k, retired, retired + 1, wrapped))
  {
    NextIsActivePlusOne(db.table, c, k);
    ReplaceKeepsTable(db, c, k, retired, wrapped);
  }

  /** Writes get the key whose row was added last. */
  lemma NewestIsActive(m: Master, db: Db, c: ControllerId, k: Bytes, v: u32, dek: Bytes, nonce: Bytes)
    requires m.Valid() && TableOk(db, db.table) && c.Tenant? && |dek| == DEK_LEN && |nonce| == m.cipher.nonceSize
    requires m.Wrap(c, k, v, dek, nonce).Ok? && HasRow(db.table, c, k, v, Active, m.Wrap(c, k, v, dek, nonce).value)
    ensures SqlActiveDekFor(m, db.table, c, k) == Ok((dek, v))
  {
    NextIsActivePlusOne(db.table, c, k);
    ActiveIsNewest(m, db.table, c, k, v, dek, nonce);
    ActiveDekForAgrees(m, db.table, c, k);
  }

  /** After a rotate the table is in order and writes get the new key. */
  lemma RotatedAnswers(m: Master, db: Db, c: ControllerId, k: Bytes, retired: u32, dek: Bytes, nonce: Bytes)
    requires m.Valid() && TableOk(db, db.table) && c.Tenant? && |dek| == DEK_LEN && |nonce| == m.cipher.nonceSize
    requires IsActive(db.table, c, k, retired) && retired + 1 < TWO_31 && m.Wrap(c, k, retired + 1, dek, nonce).Ok?
    ensures var t := Replace(db.table, c, k, retired, retired + 1, m.Wrap(c, k, retired + 1, dek, nonce).value);
            TableOk(db, t) && SqlActiveDekFor(m, t, c, k) == Ok((dek, retired + 1))
  {
    var t := Replace(db.table, c, k, retired, retired + 1, m.Wrap(c, k, retired + 1, dek, nonce).value);
    ReplaceActiveKeepsTable(db, c, k, retired, m.Wrap(c, k, retired + 1, dek, nonce).value);
    NewestIsActive(m, db.(table := t), c, k, retired + 1, dek, nonce);
  }

  class Provider {
    const master: Master
    var rows: Table
    var tenants: set<Uuid>

    ghost function State(): Db
      reads this
    {
      Db(rows, tenants, {}, map[])
    }

    ghost predicate Valid()
      reads this
    {
      master.Valid() && TableOk(State(), rows)
    }

    constructor (master: Master)
      requires master.Valid()
      ensures Valid() && this.master == master && State() == EMPTY
    {
      this.master := master;
      rows, tenants := map[], {};
      new;
      StartInv(master);
    }

    method GenerateDek(c: ControllerId, k: Bytes, dek: Bytes, nonce: Bytes) returns (r: Result<u32, StoreError>)
      requires Valid() && |dek| == DEK_LEN && |nonce| == master.cipher.nonceSize
      modifies this`rows
      ensures Valid()
      ensures c.User? ==> r == Err(UnsupportedController) && rows == old(rows)
      ensures c.Tenant? ==>
                (rows, Answer(r, v => Generated(v))) == Outcome(master, old(State()), Generate(c, k, dek, nonce))
      ensures r.Ok? ==> c.Tenant? && SqlActiveDekFor(master, rows, c, k) == Ok((dek, r.value))
    {
      if c.User? {
        return Err(UnsupportedController);
      }
      GenerateKeepsValid(master, rows, c, k, dek, nonce);
      QueriesAgree(rows, c, k);
      var active := FindActiveVersion(rows, c, k);
      if active.Some? {
        return Err(AlreadyActiveDek);
      }
      var max := NextVersionFor(rows, c, k);
      var version: u32 := if max.None? then 1 else AsU32(AsI32(max.value)) + 1;
      var wrapped := master.Wrap(c, k, version, dek, nonce);
      if wrapped.Err? {
        return Err(wrapped.error);
      }
      master.UnwrapWrap(c, k, version, dek, nonce);
      var inserted := InsertActive(rows, tenants, c, k, AsI32(version), wrapped.value);
      if inserted.Err? {
        return Err(inserted.error);
      }
      rows := inserted.value;
      NewestIsActive(master, State(), c, k, version, dek, nonce);
      return Ok(version);
    }

    method RotateDek(c: ControllerId, k: Bytes, dek: Bytes, nonce: Bytes) returns (r: Result<(u32, u32), StoreError>)
      requires Valid() && |dek| == DEK_LEN && |nonce| == master.cipher.nonceSize
      modifies this`rows
      ensures Valid()
      ensures c.User? ==> r == Err(UnsupportedController) && rows == old(rows)
      ensures c.Tenant? ==>
                (rows, Answer(r, (p: (u32, u32)) => Rotated(p.0, p.1))) == Outcome(master, old(State()), Rotate(c, k, dek, nonce))
      ensures r.Ok? ==> c.Tenant? && SqlActiveDekFor(master, rows, c, k) == Ok((dek, r.value.0))
    {
      if c.User? {
        return Err(UnsupportedController);
      }
      var tx, active := RetireActive(rows, c, k);
      if active.None? {
        return Err(NoActiveDek);
      }
      var retired := active.value;
      RotateOutcome(master, State(), Rotate(c, k, dek, nonce), retired);
      // retired + 1, which is MAX + 1
      var version: u32 := retired + 1;
      var wrapped := master.Wrap(c, k, version, dek, nonce);
      if wrapped.Err? {
        return Err(wrapped.error);
      }
      master.UnwrapWrap(c, k, version, dek, nonce);
      assert ChecksPass(k, AsI32(version), wrapped.value) <==> 1 <= CharCount(k) <= 64 && version < TWO_31;
      var inserted := InsertActive(tx, tenants, c, k, AsI32(version), wrapped.value);
      if inserted.Err? {
        return Err(inserted.error);
      }
      assert inserted.value == Replace(rows, c, k, retired, version, wrapped.value);
      RotatedAnswers(master, State(), c, k, retired, dek, nonce);
      rows := inserted.value;
      return Ok((version, retired));
    }

    method ShredDek(c: ControllerId, k: Bytes, version: u32) returns (r: Result<(), StoreError>)
      requires Valid()
      modifies this`rows
      ensures Valid()
      ensures c.User? ==> r == Err(UnsupportedController) && rows == old(rows)
      ensures c.Tenant? ==>
                (rows, Answer(r, _ => Shredded)) == Outcome(master, old(State()), Shred(c, k, version))
      // The row decides.
      ensures c.Tenant? ==> (r == Err(NoSuchDekVersion(version)) <==> WrappingKey(c, k, version) !in old(rows))
      ensures c.Tenant? ==> (r == Err(CannotShredActiveDek) <==> IsActive(old(rows), c, k, version))
      ensures r.Ok? <==> c.Tenant? && WrappingKey(c, k, version) in old(rows) && old(rows)[WrappingKey(c, k, version)].state == Retired
      ensures r.Ok? ==> rows == old(rows) - {WrappingKey(c, k, version)}
    {
      if c.User? {
        return Err(UnsupportedController);
      }
      ShredKeepsValid(rows, c, k, version);
      ShredIff(rows, c, k, version);
      // SELECT ... FOR UPDATE, through the cast of the requested version
      var key := RowKey(c, k, AsI32(version));
      if key.None? || key.value !in rows {
        return Err(NoSuchDekVersion(version));
      }
      if rows[key.value].state == Active {
        return Err(CannotShredActiveDek);
      }
      rows := rows - {key.value};
      return Ok(());
    }

    /** The two lookups answer what the in-memory provider answers on the same
        rows. */
    method ActiveDekFor(c: ControllerId, k: Bytes) returns (r: Result<(Bytes, u32), StoreError>)
      requires Valid()
      ensures r == if c.User? then Err(UnsupportedController) else KeyStore.ActiveDekFor(master, rows, c, k)
      ensures r.Ok? ==> IsTop(rows, c, k, r.value.1) && KeyStore.DekAtVersion(master, rows, c, k, r.value.1) == Ok(r.value.0)
    {
      ActiveIff(master, rows, c, k);
      if c.User? {
        return Err(UnsupportedController);
      }
      var active := FindActiveVersion(rows, c, k);
      if active.None? {
        return Err(NoActiveDek);
      }
      var version := AsU32(AsI32(active.value));
      var dek := master.Unwrap(c, k, version, rows[WrappingKey(c, k, version)].wrapped);
      return if dek.Err? then Err(dek.error) else Ok((dek.value, version));
    }

    method DekAtVersion(c: ControllerId, k: Bytes, version: u32) returns (r: Result<Bytes, StoreError>)
      requires Valid()
      ensures r == if c.User? then Err(UnsupportedController) else KeyStore.DekAtVersion(master, rows, c, k, version)
    {
      if c.User? {
        return Err(UnsupportedController);
      }
      DekAtVersionAgrees(master, rows, c, k, version);
      var key := RowKey(c, k, AsI32(version));
      if key.None? || key.value !in rows {
        return Err(NoSuchDekVersion(version));
      }
      return master.Unwrap(c, k, version, rows[key.value].wrapped);
    }

    method CreateTenant(id: Uuid)
      requires Valid()
      modifies this`tenants
      ensures Valid() && tenants == old(tenants) + {id}
    {
      tenants := tenants + {id};
    }

    /** `DELETE FROM tenants`, with the cascade of the foreign key. */
    method DeleteTenant(id: Uuid)
      requires Valid()
      modifies this
      ensures Valid() && rows == EraseTenant(old(rows), id) && tenants == old(tenants) - {id}
    {
      EraseKeepsValid(rows, id);
      rows := EraseTenant(rows, id);
      tenants := tenants - {id};
    }
  }
}
