/** `SqlxKeyProvider`'s mutating methods as transactions of single SQL
    statements over one shared table, any number of them interleaved
    (dek_wrappings.rs). Isolation is READ COMMITTED: every statement sees the
    rows committed when it runs, plus its own transaction's changes.

    A transaction's row locks and uncommitted changes follow from how far it
    has got, so they are functions of its program counter. A statement that
    would have to wait for another transaction is not enabled. */
module DekTransactions {
  import opened Wrappers
  import opened Bytes
  import opened StoreErrors
  import opened MasterKek
  import opened KeyStore
  import opened DekTable

  datatype Op =
    | Generate(c: ControllerId, k: Bytes, dek: Bytes, nonce: Bytes)
    | Rotate(c: ControllerId, k: Bytes, dek: Bytes, nonce: Bytes)
    | Shred(c: ControllerId, k: Bytes, version: u32)

  datatype Reply = Generated(version: u32) | Rotated(version: u32, retired: u32) | Shredded

  /** The statement a transaction runs next. */
  datatype Pc =
    // generate_dek
    | CheckExists                       // SELECT EXISTS (... state = 'active')
    | ReadMax                           // SELECT MAX(dek_version)
    | InsertFirst(version: u32)         // INSERT ... 'active'
    | CommitGenerate(version: u32)      // COMMIT
    // rotate_dek
    | FindActive                        // UPDATE: take its snapshot, pick the row
    | LockActive(candidate: Version)    // UPDATE: lock the row, look again, retire it
    | InsertNext(retired: Version)      // INSERT ... 'active'
    | CommitRotate(retired: Version)    // COMMIT
    // shred_dek
    | FindRow                           // SELECT ... FOR UPDATE: take its snapshot
    | LockRow                           // SELECT ... FOR UPDATE: lock the row, look again
    | DeleteRow                         // DELETE
    | CommitShred                       // COMMIT
    // returned to the caller; an error has rolled the transaction back
    | Done(result: Result<Reply, StoreError>)

  datatype Txn = Txn(op: Op, pc: Pc)
  {
    function Key(v: Version): WrappingKey { WrappingKey(op.c, op.k, v) }

    /** The row a shred aims at, through the cast of its `u32` argument. */
    function Target(): Option<WrappingKey>
      requires op.Shred?
    {
      RowKey(op.c, op.k, AsI32(op.version))
    }

    /** Each program counter belongs to one method. */
    predicate Typed() {
      match pc
      case CheckExists | ReadMax | InsertFirst(_) | CommitGenerate(_) => op.Generate? && op.c.Tenant?
      case FindActive | LockActive(_) | InsertNext(_) | CommitRotate(_) => op.Rotate? && op.c.Tenant?
      case FindRow => op.Shred? && op.c.Tenant?
      case LockRow | DeleteRow | CommitShred => op.Shred? && op.c.Tenant? && Target().Some?
      case Done(_) => true
    }

    /** The committed row this transaction holds a lock on. */
    function Locked(): Option<WrappingKey>
      requires Typed()
    {
      match pc
      case InsertNext(r) => Some(Key(r))
      case CommitRotate(r) => Some(Key(r))
      case DeleteRow => Target()
      case CommitShred => Target()
      case _ => None
    }

    /** The committed row it has updated or deleted, uncommitted. */
    function Changed(): Option<WrappingKey>
      requires Typed()
    {
      if pc.DeleteRow? then None else Locked()
    }

    /** Whether it has inserted an active row for its pair, uncommitted. */
    predicate Inserted() {
      pc.CommitGenerate? || pc.CommitRotate?
    }
  }

  type TypedTxn = t: Txn | t.Typed() witness Txn(Shred(Tenant(seq(16, _ => 0)), [], 1), Done(Ok(Shredded)))

  /** `tenants` are the ids in the `tenants` table; ids are random, so an
      erased one is never handed out again. */
  datatype Db = Db(table: Table, tenants: set<Uuid>, erased: set<Uuid>, txns: map<nat, TypedTxn>)

  const EMPTY := Db(map[], {}, {}, map[])

  datatype Event =
    | Begin(id: nat, op: Op)
    | Step(id: nat)
    | Abort(id: nat)             // any failure the server raises, deadlock included
    | CreateTenant(tenant: Uuid)
    | DeleteTenant(tenant: Uuid) // DELETE FROM tenants, with its cascade

  predicate ValidOp(m: Master, op: Op) {
    op.Shred? || (|op.dek| == DEK_LEN && |op.nonce| == m.cipher.nonceSize)
  }

  // ---- Conflicts.

  predicate SamePair(a: Txn, b: Txn) {
    a.op.c == b.op.c && a.op.k == b.op.k
  }

  ghost predicate LockedByOther(db: Db, id: nat, key: WrappingKey) {
    exists j | j in db.txns && j != id :: db.txns[j].Locked() == Some(key)
  }

  ghost predicate ChangedByOther(db: Db, id: nat, key: WrappingKey) {
    exists j | j in db.txns && j != id :: db.txns[j].Changed() == Some(key)
  }

  ghost predicate InsertedByOther(db: Db, id: nat) {
    exists j | id in db.txns && j in db.txns && j != id :: db.txns[j].Inserted() && SamePair(db.txns[j], db.txns[id])
  }

  /** The committed row `key` stands in the way of inserting an active row with
      version `v`: through the primary key, or through the index that allows
      one active row per pair, unless this transaction itself retired it. */
  ghost predicate InTheWay(db: Db, id: nat, v: Version, key: WrappingKey)
    requires id in db.txns
  {
    var x := db.txns[id];
    && key in db.table && Of(key, x.op.c, x.op.k)
    && (key.version == v || (db.table[key].state == Active && x.Changed() != Some(key)))
  }

  datatype Verdict = Waits | Violates | Inserts

  /** How a unique check ends. A conflict with a change that another transaction
      has yet to commit waits for it; a conflict with a settled row is a
      violation. */
  ghost function TryInsert(db: Db, id: nat, v: Version): Verdict
    requires id in db.txns
  {
    if InsertedByOther(db, id) then Waits
    else if exists key :: InTheWay(db, id, v, key) && ChangedByOther(db, id, key) then Waits
    else if exists key :: InTheWay(db, id, v, key) then Violates
    else Inserts
  }

  /** An INSERT of an active row: wrap, CHECK constraints, unique indexes,
      foreign key. `None` means it waits; otherwise the next counter. */
  ghost function Insert(m: Master, db: Db, id: nat, version: u32, next: Pc): Option<Pc>
    requires id in db.txns && !db.txns[id].op.Shred? && ValidOp(m, db.txns[id].op)
  {
    var op := db.txns[id].op;
    match m.Wrap(op.c, op.k, version, op.dek, op.nonce)
    case Err(e) => Some(Done(Err(e)))
    case Ok(wrapped) =>
      var n := AsI32(version);
      if !ChecksPass(op.k, n, wrapped) then Some(Done(Err(Storage)))
      else
        match TryInsert(db, id, n)
        case Waits => None
        case Violates => Some(Done(Err(Storage)))
        case Inserts => if op.c.id in db.tenants then Some(next) else Some(Done(Err(Storage)))
  }

  /** The row a committing INSERT leaves in the table. */
  function NewRow(m: Master, op: Op, version: u32): WrappingRow
    requires !op.Shred? && ValidOp(m, op)
  {
    var wrapped := m.Wrap(op.c, op.k, version, op.dek, op.nonce);
    WrappingRow(if wrapped.Ok? then wrapped.value else [], Active)
  }

  // ---- Steps.

  /** What running its next statement does to transaction `id`'s counter;
      `None` when the statement waits. */
  ghost function NextPc(m: Master, db: Db, id: nat): Option<Pc>
    requires id in db.txns && ValidOp(m, db.txns[id].op)
  {
    var x := db.txns[id];
    match x.pc
    case CheckExists =>
      Some(if ActiveRow(db.table, x.op.c, x.op.k).Some? then Done(Err(AlreadyActiveDek)) else ReadMax)
    case ReadMax =>
      var max := MaxVersion(db.table, x.op.c, x.op.k);
      Some(InsertFirst(if max.None? then 1 else AsU32(max.value) + 1))
    case InsertFirst(v) => Insert(m, db, id, v, CommitGenerate(v))
    case CommitGenerate(v) => Some(Done(Ok(Generated(v))))
    case FindActive =>
      var active := ActiveRow(db.table, x.op.c, x.op.k);
      Some(if active.None? then Done(Err(NoActiveDek)) else LockActive(active.value))
    case LockActive(r) =>
      if LockedByOther(db, id, x.Key(r)) then None
      else Some(if IsActive(db.table, x.op.c, x.op.k, r) then InsertNext(r) else Done(Err(NoActiveDek)))
    case InsertNext(r) => Insert(m, db, id, AsU32(r) + 1, CommitRotate(r))
    case CommitRotate(r) => Some(Done(Ok(Rotated(AsU32(r) + 1, AsU32(r)))))
    case FindRow =>
      Some(if x.Target().Some? && x.Target().value in db.table then LockRow else Done(Err(NoSuchDekVersion(x.op.version))))
    case LockRow =>
      var key := x.Target().value;
      if LockedByOther(db, id, key) then None
      else Some(if key !in db.table then Done(Err(NoSuchDekVersion(x.op.version)))
                else if db.table[key].state == Active then Done(Err(CannotShredActiveDek))
                else DeleteRow)
    case DeleteRow => Some(CommitShred)
    case CommitShred => Some(Done(Ok(Shredded)))
    case Done(_) => None
  }

  /** The committed table after `id`'s next statement: only a COMMIT changes it. */
  function NextTable(m: Master, db: Db, id: nat): Table
    requires id in db.txns && ValidOp(m, db.txns[id].op)
  {
    var x := db.txns[id];
    match x.pc
    case CommitGenerate(v) =>
      if AsI32(v) >= 1 then db.table[x.Key(AsI32(v)) := NewRow(m, x.op, v)] else db.table
    case CommitRotate(r) =>
      if x.Key(r) in db.table && r + 1 < TWO_31
      then db.table[x.Key(r) := db.table[x.Key(r)].(state := Retired)][x.Key(r + 1) := NewRow(m, x.op, AsU32(r) + 1)]
      else db.table
    case CommitShred => db.table - {x.Target().value}
    case _ => db.table
  }

  /** The counter a call starts from; `tenant_id` refuses user controllers
      before any transaction begins. */
  function FirstPc(op: Op): Pc {
    if op.c.User? then Done(Err(UnsupportedController))
    else match op
      case Generate(_, _, _, _) => CheckExists
      case Rotate(_, _, _, _) => FindActive
      case Shred(_, _, _) => FindRow
  }

  ghost predicate Quiet(db: Db, tenant: Uuid) {
    forall j | j in db.txns && db.txns[j].op.c == Tenant(tenant) :: db.txns[j].Locked().None? && !db.txns[j].Inserted()
  }

  /** One event of a run; `None` when it cannot happen in this state. */
  ghost function Next(m: Master, db: Db, e: Event): (r: Option<Db>) {
    match e
    case Begin(id, op) =>
      if id in db.txns || !ValidOp(m, op) then None else Some(db.(txns := db.txns[id := Txn(op, FirstPc(op))]))
    case Step(id) =>
      if id !in db.txns || !ValidOp(m, db.txns[id].op) then None
      else
        var pc := NextPc(m, db, id);
        if pc.None? then None
        else Some(db.(table := NextTable(m, db, id), txns := db.txns[id := db.txns[id].(pc := pc.value)]))
    case Abort(id) =>
      if id !in db.txns || db.txns[id].pc.Done? then None
      else Some(db.(txns := db.txns[id := db.txns[id].(pc := Done(Err(Storage)))]))
    case CreateTenant(t) =>
      if t in db.tenants || t in db.erased then None else Some(db.(tenants := db.tenants + {t}))
    case DeleteTenant(t) =>
      // Waits for every transaction that holds a row, or a share of the
      // tenant's own row, through the foreign key.
      if t !in db.tenants || !Quiet(db, t) then None
      else Some(db.(table := EraseTenant(db.table, t), tenants := db.tenants - {t}, erased := db.erased + {t}))
  }
}
