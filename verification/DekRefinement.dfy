/** Every interleaving of the SQL transactions keeps the lifecycle invariant,
    and has exactly the effect of the in-memory operations in commit order. */
module DekRefinement {
  import opened Wrappers
  import opened Bytes
  import opened MasterKek
  import opened KeyStore
  import opened DekTable
  import opened DekTransactions

  // ---- The invariant.

  predicate WrapOk(m: Master, op: Op, v: u32)
    requires !op.Shred? && ValidOp(m, op)
  {
    m.Wrap(op.c, op.k, v, op.dek, op.nonce).Ok?
  }

  /** What a transaction that has got this far may rely on. */
  ghost predicate TxnOk(m: Master, db: Db, x: TypedTxn) {
    && ValidOp(m, x.op)
    && match x.pc
       case InsertFirst(v) => v == 1 || (v > 1 && (!PairEmpty(db.table, x.op.c, x.op.k) || x.op.c.id in db.erased))
       case LockActive(_) => !PairEmpty(db.table, x.op.c, x.op.k) || x.op.c.id in db.erased
       case CommitGenerate(v) => v == 1 && PairEmpty(db.table, x.op.c, x.op.k) && x.op.c.id in db.tenants && WrapOk(m, x.op, 1)
       case InsertNext(r) => IsActive(db.table, x.op.c, x.op.k, r)
       case CommitRotate(r) => IsActive(db.table, x.op.c, x.op.k, r) && r + 1 < TWO_31 && WrapOk(m, x.op, r + 1)
       case DeleteRow => x.Target().value in db.table && db.table[x.Target().value].state == Retired
       case CommitShred => x.Target().value in db.table && db.table[x.Target().value].state == Retired
       case _ => true
  }

  /** Row locks are exclusive, and so is an uncommitted active row. */
  ghost predicate Apart(x: TypedTxn, y: TypedTxn) {
    && (x.Locked().Some? ==> x.Locked() != y.Locked())
    && !(x.Inserted() && y.Inserted() && SamePair(x, y))
  }

  /** The lifecycle invariant, the CHECK constraints and the foreign key. */
  ghost predicate TableOk(db: Db, t: Table) {
    && KeyStore.Valid(t)
    && (forall key | key in t :: key.controller.id in db.tenants)
    && Stored(t)
  }

  ghost predicate Inv(m: Master, db: Db) {
    && TableOk(db, db.table)
    && db.tenants !! db.erased
    && (forall i | i in db.txns :: TxnOk(m, db, db.txns[i]))
    && (forall i, j | i in db.txns && j in db.txns && i != j :: Apart(db.txns[i], db.txns[j]))
  }

  lemma StartInv(m: Master)
    ensures Inv(m, EMPTY)
  {
    assert forall c: ControllerId, k: Bytes :: PairEmpty(EMPTY.table, c, k) && PairValid(EMPTY.table, c, k);
  }

  /** A transaction is untouched by another one's commit if the row it locks
      stays as it is and its pair does not turn from empty to nonempty under
      its insert, or back. */
  lemma TxnOkFrame(m: Master, db: Db, db': Db, y: TypedTxn)
    requires TxnOk(m, db, y)
    requires y.Locked().Some? && y.Locked().value in db.table ==>
               var key := y.Locked().value; key in db'.table && db'.table[key].state == db.table[key].state
    requires y.pc.CommitGenerate? && PairEmpty(db.table, y.op.c, y.op.k) && y.op.c.id in db.tenants ==>
               PairEmpty(db'.table, y.op.c, y.op.k) && y.op.c.id in db'.tenants
    requires (y.pc.InsertFirst? || y.pc.LockActive?) && !PairEmpty(db.table, y.op.c, y.op.k) ==>
               !PairEmpty(db'.table, y.op.c, y.op.k) || y.op.c.id in db'.erased
    requires db.erased <= db'.erased
    ensures TxnOk(m, db', y)
  {
  }

  /** The same, for an event that leaves the table alone. */
  lemma QuietStepKeepsInv(m: Master, db: Db, db': Db, id: nat)
    requires Inv(m, db) && id in db'.txns
    requires db' == db.(txns := db.txns[id := db'.txns[id]])
    requires TxnOk(m, db', db'.txns[id])
    requires forall j | j in db.txns && j != id :: Apart(db'.txns[id], db.txns[j])
    ensures Inv(m, db')
  {
    forall i | i in db'.txns ensures TxnOk(m, db', db'.txns[i]) {
      if i != id { TxnOkFrame(m, db, db', db.txns[i]); }
    }
    forall i, j | i in db'.txns && j in db'.txns && i != j ensures Apart(db'.txns[i], db'.txns[j]) {
      if i != id && j != id { assert Apart(db.txns[i], db.txns[j]); }
      else if i == id { assert Apart(db'.txns[id], db.txns[j]); }
      else { assert Apart(db'.txns[id], db.txns[i]); }
    }
  }

  // ---- Inserts.

  /** An INSERT that goes through found its pair without any row but the one
      this transaction retired itself. */
  lemma InsertMeans(m: Master, db: Db, id: nat, v: u32, next: Pc)
    requires Inv(m, db) && id in db.txns && !db.txns[id].op.Shred? && !db.txns[id].pc.Done? && !next.Done?
    requires Insert(m, db, id, v, next) == Some(next)
    ensures var x := db.txns[id];
            && 1 <= v < TWO_31 && WrapOk(m, x.op, v) && x.op.c.id in db.tenants
            && !InsertedByOther(db, id)
            && (x.Changed().None? ==> PairEmpty(db.table, x.op.c, x.op.k))
  {
    var x := db.txns[id];
    assert TryInsert(db, id, AsI32(v)) == Inserts;
    QueriesAgree(db.table, x.op.c, x.op.k);
    var a := ActiveRow(db.table, x.op.c, x.op.k);
    assert a.Some? && x.Changed().None? ==> InTheWay(db, id, AsI32(v), x.Key(a.value));
  }

  /** The ordering of rotate's two statements is what it needs: after the
      UPDATE, its INSERT meets no conflict, whoever else is running. */
  lemma RotateInsertNeverConflicts(m: Master, db: Db, id: nat)
    requires Inv(m, db) && id in db.txns && db.txns[id].pc.InsertNext?
    ensures db.txns[id].pc.retired + 1 < TWO_31 ==> TryInsert(db, id, db.txns[id].pc.retired + 1) == Inserts
  {
    var x := db.txns[id];
    var r := x.pc.retired;
    NextIsActivePlusOne(db.table, x.op.c, x.op.k);
    assert TxnOk(m, db, x) && Of(x.Key(r), x.op.c, x.op.k);
    forall j | j in db.txns && j != id && SamePair(db.txns[j], x) ensures !db.txns[j].Inserted() {
      assert Apart(db.txns[j], x) && TxnOk(m, db, db.txns[j]);
    }
  }

  lemma InsertStepKeepsInv(m: Master, db: Db, id: nat)
    requires Inv(m, db) && id in db.txns && (db.txns[id].pc.InsertFirst? || db.txns[id].pc.InsertNext?)
    requires Next(m, db, Step(id)).Some?
    ensures Inv(m, Next(m, db, Step(id)).value)
  {
    var x, db' := db.txns[id], Next(m, db, Step(id)).value;
    var y := db'.txns[id];
    if y.pc.CommitGenerate? || y.pc.CommitRotate? {
      InsertMeans(m, db, id, if x.pc.InsertFirst? then x.pc.version else AsU32(x.pc.retired) + 1, y.pc);
      assert x.op.c.id !in db.erased;
    }
    forall j | j in db.txns && j != id ensures Apart(y, db.txns[j]) {
      assert Apart(x, db.txns[j]);
    }
    QuietStepKeepsInv(m, db, db', id);
  }

  // ---- Commits.

  /** A committed generate is the in-memory generate on the table of that
      moment. */
  lemma CommitGenerateRefines(m: Master, db: Db, id: nat)
    requires Inv(m, db) && id in db.txns && db.txns[id].pc.CommitGenerate?
    ensures var op, v := db.txns[id].op, db.txns[id].pc.version;
            GenerateDek(m, db.table, op.c, op.k, op.dek, op.nonce) == (NextTable(m, db, id), Ok(v))
  {
    var x := db.txns[id];
    assert TxnOk(m, db, x);
    NextIsActivePlusOne(db.table, x.op.c, x.op.k);
  }

  /** A commit keeps the invariant if it does so for the table and for every
      other transaction; the committing one is done. */
  lemma CommitKeepsInv(m: Master, db: Db, db': Db, id: nat)
    requires Inv(m, db) && id in db.txns && id in db'.txns && db'.txns[id].pc.Done? && ValidOp(m, db'.txns[id].op)
    requires db' == db.(table := db'.table, txns := db.txns[id := db'.txns[id]])
    requires TableOk(db, db'.table)
    requires forall i | i in db.txns && i != id :: TxnOk(m, db', db.txns[i])
    ensures Inv(m, db')
  {
    forall i, j | i in db'.txns && j in db'.txns && i != j ensures Apart(db'.txns[i], db'.txns[j]) {
      if i != id && j != id { assert Apart(db.txns[i], db.txns[j]); }
    }
  }

  lemma CommitGenerateFrame(m: Master, db: Db, db': Db, x: TypedTxn, y: TypedTxn)
    requires x.pc.CommitGenerate? && TxnOk(m, db, x) && TxnOk(m, db, y) && Apart(x, y)
    requires db'.tenants == db.tenants && db'.erased == db.erased
    requires db'.table == db.table[x.Key(1) := NewRow(m, x.op, 1)]
    ensures TxnOk(m, db', y)
  {
    assert Of(x.Key(1), x.op.c, x.op.k);
    TxnOkFrame(m, db, db', y);
  }

  lemma CommitGenerateKeepsInv(m: Master, db: Db, id: nat)
    requires Inv(m, db) && id in db.txns && db.txns[id].pc.CommitGenerate?
    ensures Inv(m, Next(m, db, Step(id)).value)
  {
    var x, db' := db.txns[id], Next(m, db, Step(id)).value;
    assert TxnOk(m, db, x);
    CommitGenerateRefines(m, db, id);
    GenerateKeepsValid(m, db.table, x.op.c, x.op.k, x.op.dek, x.op.nonce);
    forall i | i in db.txns && i != id ensures TxnOk(m, db', db.txns[i]) {
      CommitGenerateFrame(m, db, db', x, db.txns[i]);
    }
    CommitKeepsInv(m, db, db', id);
  }

  /** A committed rotate is the in-memory rotate on the table of that moment:
      its `retired + 1` is the map's `max + 1`. */
  lemma CommitRotateRefines(m: Master, db: Db, id: nat)
    requires Inv(m, db) && id in db.txns && db.txns[id].pc.CommitRotate?
    ensures var op, r := db.txns[id].op, AsU32(db.txns[id].pc.retired);
            && IsTop(db.table, op.c, op.k, r)
            && NextTable(m, db, id) == Replace(db.table, op.c, op.k, r, r + 1, NewRow(m, op, r + 1).wrapped)
            && RotateDek(m, db.table, op.c, op.k, op.dek, op.nonce) == (NextTable(m, db, id), Ok((r + 1, r)))
  {
    var x := db.txns[id];
    assert TxnOk(m, db, x);
    NextIsActivePlusOne(db.table, x.op.c, x.op.k);
  }

  lemma CommitRotateFrame(m: Master, db: Db, db': Db, x: TypedTxn, y: TypedTxn)
    requires KeyStore.Valid(db.table)
    requires x.pc.CommitRotate? && TxnOk(m, db, x) && TxnOk(m, db, y) && Apart(x, y)
    requires db'.tenants == db.tenants && db'.erased == db.erased
    requires var r := x.pc.retired; db'.table == Replace(db.table, x.op.c, x.op.k, r, r + 1, NewRow(m, x.op, r + 1).wrapped)
    ensures TxnOk(m, db', y)
  {
    var r := x.pc.retired;
    NextIsActivePlusOne(db.table, x.op.c, x.op.k);
    assert Of(x.Key(r), x.op.c, x.op.k) && Of(x.Key(r + 1), x.op.c, x.op.k);
    TxnOkFrame(m, db, db', y);
  }

  lemma ReplaceKeepsTable(db: Db, c: ControllerId, k: Bytes, r: u32, wrapped: Bytes)
    requires TableOk(db, db.table) && IsTop(db.table, c, k, r) && r + 1 < TWO_31
    ensures TableOk(db, Replace(db.table, c, k, r, r + 1, wrapped))
  {
    ReplaceKeepsValid(db.table, c, k, r, r + 1, wrapped);
    assert WrappingKey(c, k, r) in db.table;
  }

  lemma ReplaceKeepsInv(m: Master, db: Db, db': Db, id: nat, x: TypedTxn, r: Version)
    requires Inv(m, db) && id in db.txns && id in db'.txns && x == db.txns[id] && x.pc == CommitRotate(r)
    requires TxnOk(m, db, x) && IsTop(db.table, x.op.c, x.op.k, r)
    requires db' == db.(table := db'.table, txns := db.txns[id := db'.txns[id]])
    requires db'.table == Replace(db.table, x.op.c, x.op.k, r, r + 1, NewRow(m, x.op, r + 1).wrapped)
    requires db'.txns[id].pc.Done? && ValidOp(m, db'.txns[id].op)
    ensures Inv(m, db')
  {
    ReplaceKeepsTable(db, x.op.c, x.op.k, r, NewRow(m, x.op, r + 1).wrapped);
    forall i | i in db.txns && i != id ensures TxnOk(m, db', db.txns[i]) {
      CommitRotateFrame(m, db, db', x, db.txns[i]);
    }
    CommitKeepsInv(m, db, db', id);
  }

  lemma CommitRotateKeepsInv(m: Master, db: Db, id: nat)
    requires Inv(m, db) && id in db.txns && db.txns[id].pc.CommitRotate?
    ensures Inv(m, Next(m, db, Step(id)).value)
  {
    CommitRotateRefines(m, db, id);
    ReplaceKeepsInv(m, db, Next(m, db, Step(id)).value, id, db.txns[id], db.txns[id].pc.retired);
  }

  lemma CommitShredRefines(m: Master, db: Db, id: nat)
    requires Inv(m, db) && id in db.txns && db.txns[id].pc.CommitShred?
    ensures var op := db.txns[id].op;
            ShredDek(db.table, op.c, op.k, op.version) == (NextTable(m, db, id), Ok(()))
  {
    var x := db.txns[id];
    assert TxnOk(m, db, x);
  }

  lemma CommitShredFrame(m: Master, db: Db, db': Db, x: TypedTxn, y: TypedTxn)
    requires KeyStore.Valid(db.table)
    requires x.pc.CommitShred? && TxnOk(m, db, x) && TxnOk(m, db, y) && Apart(x, y)
    requires db'.tenants == db.tenants && db'.erased == db.erased
    requires db'.table == db.table - {x.Target().value}
    ensures TxnOk(m, db', y)
  {
    ShredKeepsNonempty(db.table, x.op.c, x.op.k, x.op.version, y.op.c, y.op.k);
    TxnOkFrame(m, db, db', y);
  }

  /** Shredding never empties a pair. */
  lemma ShredKeepsNonempty(w: Wrappings, c: ControllerId, k: Bytes, v: u32, c': ControllerId, k': Bytes)
    requires KeyStore.Valid(w) && ShredDek(w, c, k, v).1.Ok?
    ensures PairEmpty(ShredDek(w, c, k, v).0, c', k') <==> PairEmpty(w, c', k')
  {
    var w' := ShredDek(w, c, k, v).0;
    ShredKeepsValid(w, c, k, v);
    var t: u32 :| t != v && IsTop(w, c, k, t) && IsTop(w', c, k, t);
    assert Of(WrappingKey(c, k, t), c, k);
    if key :| key in w && Of(key, c', k') {
      assert key in w' || Of(key, c, k);
    }
  }

  lemma CommitShredKeepsInv(m: Master, db: Db, id: nat)
    requires Inv(m, db) && id in db.txns && db.txns[id].pc.CommitShred?
    ensures Inv(m, Next(m, db, Step(id)).value)
  {
    var x, db' := db.txns[id], Next(m, db, Step(id)).value;
    assert TxnOk(m, db, x);
    CommitShredRefines(m, db, id);
    ShredKeepsValid(db.table, x.op.c, x.op.k, x.op.version);
    forall i | i in db.txns && i != id ensures TxnOk(m, db', db.txns[i]) {
      CommitShredFrame(m, db, db', x, db.txns[i]);
    }
    CommitKeepsInv(m, db, db', id);
  }

  // ---- The remaining events.

  lemma DeleteTenantFrame(m: Master, db: Db, db': Db, t: Uuid, y: TypedTxn)
    requires TxnOk(m, db, y) && (y.op.c == Tenant(t) ==> y.Locked().None? && !y.Inserted())
    requires y.Locked().Some? || y.Inserted() ==> y.op.c.Tenant?
    requires db'.table == EraseTenant(db.table, t) && db'.tenants == db.tenants - {t} && db'.erased == db.erased + {t}
    ensures TxnOk(m, db', y)
  {
    if y.op.c != Tenant(t) && !PairEmpty(db.table, y.op.c, y.op.k) {
      var key :| key in db.table && Of(key, y.op.c, y.op.k);
      assert key in db'.table;
    }
    TxnOkFrame(m, db, db', y);
  }

  lemma DeleteTenantKeepsInv(m: Master, db: Db, t: Uuid)
    requires Inv(m, db) && Next(m, db, DeleteTenant(t)).Some?
    ensures Inv(m, Next(m, db, DeleteTenant(t)).value)
  {
    var db' := Next(m, db, DeleteTenant(t)).value;
    EraseKeepsValid(db.table, t);
    forall i | i in db'.txns ensures TxnOk(m, db', db.txns[i]) {
      DeleteTenantFrame(m, db, db', t, db.txns[i]);
    }
  }

  /** Statements that only look. */
  lemma ReadStepKeepsInv(m: Master, db: Db, id: nat)
    requires Inv(m, db) && id in db.txns && Next(m, db, Step(id)).Some?
    requires db.txns[id].pc.CheckExists? || db.txns[id].pc.ReadMax? || db.txns[id].pc.FindActive? || db.txns[id].pc.FindRow?
    ensures Inv(m, Next(m, db, Step(id)).value)
  {
    var x, db' := db.txns[id], Next(m, db, Step(id)).value;
    var y := db'.txns[id];
    assert TxnOk(m, db, x) && y.Locked().None? && !y.Inserted();
    QueriesAgree(db.table, x.op.c, x.op.k);
    QuietStepKeepsInv(m, db, db', id);
  }

  /** Statements that take or use a row lock. */
  lemma LockStepKeepsInv(m: Master, db: Db, id: nat)
    requires Inv(m, db) && id in db.txns && Next(m, db, Step(id)).Some?
    requires db.txns[id].pc.LockActive? || db.txns[id].pc.LockRow? || db.txns[id].pc.DeleteRow?
    ensures Inv(m, Next(m, db, Step(id)).value)
  {
    var x, db' := db.txns[id], Next(m, db, Step(id)).value;
    var y := db'.txns[id];
    assert TxnOk(m, db, x) && !y.Inserted();
    forall j | j in db.txns && j != id ensures Apart(y, db.txns[j]) {
      assert Apart(x, db.txns[j]);
    }
    QuietStepKeepsInv(m, db, db', id);
  }

  lemma NextKeepsInv(m: Master, db: Db, e: Event)
    requires Inv(m, db) && Next(m, db, e).Some?
    ensures Inv(m, Next(m, db, e).value)
  {
    match e
    case Begin(id, op) => QuietStepKeepsInv(m, db, Next(m, db, e).value, id);
    case Abort(id) => QuietStepKeepsInv(m, db, Next(m, db, e).value, id);
    case Step(id) =>
      match db.txns[id].pc {
        case InsertFirst(_) => InsertStepKeepsInv(m, db, id);
        case InsertNext(_) => InsertStepKeepsInv(m, db, id);
        case CommitGenerate(_) => CommitGenerateKeepsInv(m, db, id);
        case CommitRotate(_) => CommitRotateKeepsInv(m, db, id);
        case CommitShred => CommitShredKeepsInv(m, db, id);
        case LockActive(_) => LockStepKeepsInv(m, db, id);
        case LockRow => LockStepKeepsInv(m, db, id);
        case DeleteRow => LockStepKeepsInv(m, db, id);
        case _ => ReadStepKeepsInv(m, db, id);
      }
    case CreateTenant(t) =>
      var db' := Next(m, db, e).value;
      forall i | i in db'.txns ensures TxnOk(m, db', db.txns[i]) { TxnOkFrame(m, db, db', db.txns[i]); }
    case DeleteTenant(t) => DeleteTenantKeepsInv(m, db, t);
  }

  // ---- Nobody waits for ever.

  ghost predicate Holds(db: Db, j: nat) {
    j in db.txns && (db.txns[j].Locked().Some? || db.txns[j].Inserted())
  }

  /** A transaction with a row lock or an uncommitted row can always run its next
      statement: its locks are all it needs. */
  lemma HolderSteps(m: Master, db: Db, id: nat)
    requires Inv(m, db) && Holds(db, id)
    ensures Next(m, db, Step(id)).Some?
  {
    assert TxnOk(m, db, db.txns[id]);
    if db.txns[id].pc.InsertNext? { RotateInsertNeverConflicts(m, db, id); }
  }

  /** Whatever a statement waits for, some such transaction has it. */
  lemma InsertWaitsForHolder(m: Master, db: Db, id: nat, v: u32, next: Pc) returns (j: nat)
    requires id in db.txns && !db.txns[id].op.Shred? && ValidOp(m, db.txns[id].op) && Insert(m, db, id, v, next).None?
    ensures Holds(db, j)
  {
    var n := AsI32(v);
    assert TryInsert(db, id, n) == Waits;
    if InsertedByOther(db, id) {
      j :| j in db.txns && db.txns[j].Inserted();
    } else {
      var key :| InTheWay(db, id, n, key) && ChangedByOther(db, id, key);
      j :| j in db.txns && j != id && db.txns[j].Changed() == Some(key);
      assert db.txns[j].Locked() == Some(key);
    }
  }

  lemma WaitsForHolder(m: Master, db: Db, id: nat) returns (j: nat)
    requires Inv(m, db) && id in db.txns && !db.txns[id].pc.Done? && Next(m, db, Step(id)).None?
    ensures Holds(db, j)
  {
    var x := db.txns[id];
    assert TxnOk(m, db, x);
    match x.pc
    case LockActive(r) => j :| j in db.txns && db.txns[j].Locked() == Some(x.Key(r));
    case LockRow => j :| j in db.txns && db.txns[j].Locked() == Some(x.Target().value);
    case InsertFirst(v) => j := InsertWaitsForHolder(m, db, id, v, CommitGenerate(v));
    case InsertNext(r) => j := InsertWaitsForHolder(m, db, id, AsU32(r) + 1, CommitRotate(r));
    case _ => assert false;
  }

  /** The provider's calls never deadlock among themselves: in every state that
      can be reached, as long as one of them is unfinished some transaction can
      run its next statement. The deletion of a tenant holds nothing while it
      waits, since it is one event here. */
  lemma NeverDeadlocks(m: Master, db: Db, id: nat) returns (j: nat)
    requires Inv(m, db) && id in db.txns && !db.txns[id].pc.Done?
    ensures j in db.txns && Next(m, db, Step(j)).Some?
  {
    j := id;
    if Next(m, db, Step(id)).None? {
      j := WaitsForHolder(m, db, id);
      HolderSteps(m, db, j);
    }
  }
}
