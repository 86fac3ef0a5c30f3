/** One call of the SQL provider among others: as long as no other transaction
    gets to its pair, it answers as the in-memory provider does, whatever goes
    on elsewhere. */
module DekSqlCalls {
  import opened Wrappers
  import opened Bytes
  import opened StoreErrors
  import opened MasterKek
  import opened KeyStore
  import opened DekTable
  import opened DekTransactions
  import opened DekRefinement
  import opened DekSqlRuns

  function Begun(db: Db, id: nat, op: Op): Db {
    db.(txns := db.txns[id := Txn(op, FirstPc(op))])
  }

  /** No other transaction has locked or inserted a row of the pair. */
  ghost predicate Alone(db: Db, id: nat, op: Op) {
    forall j | j in db.txns && j != id && db.txns[j].op.c == op.c && db.txns[j].op.k == op.k ::
      db.txns[j].Locked().None? && !db.txns[j].Inserted()
  }

  /** Whether the new row fits the columns and the foreign key. */
  ghost predicate RowFits(db: Db, op: Op) {
    && 1 <= CharCount(op.k) <= 64
    && op.c.id in db.tenants
    && NextVersion(db.table, op.c, op.k) < TWO_31
  }

  lemma TryInsertAlone(m: Master, db: Db, id: nat, v: Version)
    requires Inv(m, db) && id in db.txns && Alone(db, id, db.txns[id].op)
    requires var x := db.txns[id];
             || (x.pc.InsertFirst? && PairEmpty(db.table, x.op.c, x.op.k))
             || (x.pc.InsertNext? && v == x.pc.retired + 1)
    ensures TryInsert(db, id, v) == Inserts
  {
    if db.txns[id].pc.InsertNext? { RotateInsertNeverConflicts(m, db, id); }
  }

  /** An INSERT nobody is in the way of fails only for the row itself. */
  lemma InsertAlone(m: Master, db: Db, id: nat, v: u32, next: Pc)
    requires m.Valid() && Inv(m, db) && id in db.txns && Alone(db, id, db.txns[id].op)
    requires var x := db.txns[id];
             && !x.op.Shred? && ValidOp(m, x.op) && v == NextVersion(db.table, x.op.c, x.op.k)
             && ((x.pc.InsertFirst? && PairEmpty(db.table, x.op.c, x.op.k))
                 || (x.pc.InsertNext? && v == x.pc.retired + 1))
    ensures var x := db.txns[id];
            var wrapped := m.Wrap(x.op.c, x.op.k, v, x.op.dek, x.op.nonce);
            Insert(m, db, id, v, next) ==
              if wrapped.Err? then Some(Done(Err(wrapped.error)))
              else if RowFits(db, x.op) then Some(next) else Some(Done(Err(Storage)))
  {
    var x := db.txns[id];
    if m.Wrap(x.op.c, x.op.k, v, x.op.dek, x.op.nonce).Ok? {
      m.UnwrapWrap(x.op.c, x.op.k, v, x.op.dek, x.op.nonce);
    }
    if AsI32(v) >= 1 { TryInsertAlone(m, db, id, AsI32(v)); }
  }

  /** The answer of a call nobody interferes with: the in-memory one, unless
      the new row does not fit. */
  ghost function Outcome(m: Master, db: Db, op: Op): (Table, Pc)
    requires ValidOp(m, op)
  {
    var (t, r) := MemOp(m, db.table, op);
    if r.Err? || op.Shred? || RowFits(db, op) then (t, Done(r)) else (db.table, Done(Err(Storage)))
  }

  /** When the row of an INSERT does not come about, that is the answer. */
  lemma OutcomeWithoutRow(m: Master, db: Db, op: Op, v: u32)
    requires !op.Shred? && ValidOp(m, op) && v == NextVersion(db.table, op.c, op.k)
    requires ActiveVersion(db.table, op.c, op.k).Some? <==> op.Rotate?
    ensures var wrapped := m.Wrap(op.c, op.k, v, op.dek, op.nonce);
            && (wrapped.Err? ==> Outcome(m, db, op) == (db.table, Done(Err(wrapped.error))))
            && (wrapped.Ok? && !RowFits(db, op) ==> Outcome(m, db, op) == (db.table, Done(Err(Storage))))
  {
  }

  lemma NobodyElseLocks(m: Master, db: Db, id: nat, key: WrappingKey)
    requires id in db.txns && Alone(db, id, db.txns[id].op) && Of(key, db.txns[id].op.c, db.txns[id].op.k)
    ensures !LockedByOther(db, id, key)
  {
  }

  // ---- A call depends on its own pair only.

  /** The two tables have the same rows of the pair. */
  ghost predicate SamePairRows(w: Wrappings, w': Wrappings, c: ControllerId, k: Bytes) {
    && (forall key | key in w && Of(key, c, k) :: key in w' && w'[key] == w[key])
    && (forall key | key in w' && Of(key, c, k) :: key in w)
  }

  lemma PairDecides(w: Wrappings, w': Wrappings, c: ControllerId, k: Bytes)
    requires KeyStore.Valid(w) && KeyStore.Valid(w') && SamePairRows(w, w', c, k)
    ensures ActiveVersion(w, c, k) == ActiveVersion(w', c, k) && NextVersion(w, c, k) == NextVersion(w', c, k)
    ensures PairEmpty(w, c, k) <==> PairEmpty(w', c, k)
  {
    NextIsActivePlusOne(w, c, k);
    NextIsActivePlusOne(w', c, k);
    assert forall v: u32 :: Of(WrappingKey(c, k, v), c, k);
    assert forall v: u32 :: IsActive(w, c, k, v) <==> IsActive(w', c, k, v);
  }

  lemma PutIsLocal(w: Table, w': Table, c: ControllerId, k: Bytes, key: WrappingKey, row: WrappingRow)
    requires SamePairRows(w, w', c, k)
    ensures SamePairRows(w[key := row], w'[key := row], c, k)
  {
  }

  lemma GenerateIsLocal(m: Master, w: Table, w': Table, op: Op)
    requires KeyStore.Valid(w) && KeyStore.Valid(w') && op.Generate? && ValidOp(m, op) && SamePairRows(w, w', op.c, op.k)
    ensures MemOp(m, w, op).1 == MemOp(m, w', op).1
    ensures SamePairRows(MemOp(m, w, op).0, MemOp(m, w', op).0, op.c, op.k)
  {
    PairDecides(w, w', op.c, op.k);
    var v := NextVersion(w, op.c, op.k);
    if v < TWO_32 && m.Wrap(op.c, op.k, v, op.dek, op.nonce).Ok? {
      var wrapped := m.Wrap(op.c, op.k, v, op.dek, op.nonce).value;
      PutIsLocal(w, w', op.c, op.k, WrappingKey(op.c, op.k, v), WrappingRow(wrapped, Active));
    }
  }

  lemma ReplaceIsLocal(w: Table, w': Table, c: ControllerId, k: Bytes, retired: u32, v: u32, wrapped: Bytes)
    requires SamePairRows(w, w', c, k) && WrappingKey(c, k, retired) in w
    ensures WrappingKey(c, k, retired) in w'
    ensures SamePairRows(Replace(w, c, k, retired, v, wrapped), Replace(w', c, k, retired, v, wrapped), c, k)
  {
    var key := WrappingKey(c, k, retired);
    assert Of(key, c, k);
    PutIsLocal(w, w', c, k, key, w[key].(state := Retired));
    PutIsLocal(w[key := w[key].(state := Retired)], w'[key := w[key].(state := Retired)], c, k,
               WrappingKey(c, k, v), WrappingRow(wrapped, Active));
  }

  lemma RotateIsLocal(m: Master, w: Table, w': Table, op: Op)
    requires KeyStore.Valid(w) && KeyStore.Valid(w') && op.Rotate? && ValidOp(m, op) && SamePairRows(w, w', op.c, op.k)
    ensures MemOp(m, w, op).1 == MemOp(m, w', op).1
    ensures SamePairRows(MemOp(m, w, op).0, MemOp(m, w', op).0, op.c, op.k)
  {
    PairDecides(w, w', op.c, op.k);
    var a, v := ActiveVersion(w, op.c, op.k), NextVersion(w, op.c, op.k);
    if a.Some? && v < TWO_32 && m.Wrap(op.c, op.k, v, op.dek, op.nonce).Ok? {
      ReplaceIsLocal(w, w', op.c, op.k, a.value, v, m.Wrap(op.c, op.k, v, op.dek, op.nonce).value);
    }
  }

  /** The in-memory operation answers alike, and does alike to the pair, on
      tables with the same rows of it. */
  lemma MemOpIsLocal(m: Master, w: Table, w': Table, op: Op)
    requires KeyStore.Valid(w) && KeyStore.Valid(w') && ValidOp(m, op) && SamePairRows(w, w', op.c, op.k)
    ensures MemOp(m, w, op).1 == MemOp(m, w', op).1
    ensures SamePairRows(MemOp(m, w, op).0, MemOp(m, w', op).0, op.c, op.k)
  {
    match op
    case Generate(_, _, _, _) => GenerateIsLocal(m, w, w', op);
    case Rotate(_, _, _, _) => RotateIsLocal(m, w, w', op);
    case Shred(c, k, v) => assert Of(WrappingKey(c, k, v), c, k);
  }

  /** The call has come to what the in-memory operation comes to on `db0`, with
      these tenants, as far as its pair goes. */
  ghost predicate Ends(m: Master, db0: Db, op: Op, tenants: set<Uuid>, t: Table, pc: Pc)
    requires ValidOp(m, op)
  {
    var (t', pc') := Outcome(m, db0.(tenants := tenants), op);
    pc == pc' && SamePairRows(t', t, op.c, op.k)
  }

  lemma FitsAlike(db0: Db, db: Db, op: Op)
    requires KeyStore.Valid(db0.table) && KeyStore.Valid(db.table) && op.c.Tenant? && db0.tenants == db.tenants
    requires SamePairRows(db0.table, db.table, op.c, op.k)
    ensures RowFits(db0, op) <==> RowFits(db, op)
  {
    PairDecides(db0.table, db.table, op.c, op.k);
  }

  lemma EndsFrom(m: Master, db0: Db, db: Db, op: Op, t: Table, pc: Pc)
    requires KeyStore.Valid(db0.table) && KeyStore.Valid(db.table) && ValidOp(m, op) && op.c.Tenant?
    requires SamePairRows(db0.table, db.table, op.c, op.k) && Outcome(m, db, op) == (t, pc)
    ensures Ends(m, db0, op, db.tenants, t, pc)
  {
    var db1 := db0.(tenants := db.tenants);
    MemOpIsLocal(m, db1.table, db.table, op);
    FitsAlike(db1, db, op);
    assert Outcome(m, db1, op).1 == pc;
  }

  // ---- On course.

  /** How far the call has got, in terms of the pair's rows at its BEGIN. */
  ghost predicate Underway(w: Table, op: Op, pc: Pc) {
    match pc
    case CheckExists => op.Generate?
    case ReadMax => op.Generate? && PairEmpty(w, op.c, op.k)
    case InsertFirst(v) => op.Generate? && v == 1 && PairEmpty(w, op.c, op.k)
    case CommitGenerate(v) => op.Generate? && v == 1 && PairEmpty(w, op.c, op.k) && 1 <= CharCount(op.k) <= 64
    case FindActive => op.Rotate?
    case LockActive(r) => op.Rotate? && IsActive(w, op.c, op.k, r)
    case InsertNext(r) => op.Rotate? && IsActive(w, op.c, op.k, r)
    case CommitRotate(r) => op.Rotate? && IsActive(w, op.c, op.k, r) && 1 <= CharCount(op.k) <= 64
    case FindRow => op.Shred?
    case LockRow => op.Shred? && WrappingKey(op.c, op.k, op.version) in w
    case DeleteRow => op.Shred? && WrappingKey(op.c, op.k, op.version) in w && w[WrappingKey(op.c, op.k, op.version)].state == Retired
    case CommitShred => op.Shred? && WrappingKey(op.c, op.k, op.version) in w && w[WrappingKey(op.c, op.k, op.version)].state == Retired
    case Done(_) => true
  }

  function StepsLeft(pc: Pc): nat {
    match pc
    case CheckExists => 4
    case ReadMax => 3
    case FindActive => 4
    case LockActive(_) => 3
    case FindRow => 4
    case LockRow => 3
    case InsertFirst(_) => 2
    case InsertNext(_) => 2
    case DeleteRow => 2
    case CommitGenerate(_) => 1
    case CommitRotate(_) => 1
    case CommitShred => 1
    case Done(_) => 0
  }

  /** The call is on its way to its in-memory answer, or has given it: the pair
      is as at BEGIN until the call changes it, and no other transaction holds
      any of it. Its tenant may have been created meanwhile. */
  ghost predicate OnCourse(m: Master, db0: Db, id: nat, op: Op, db: Db) {
    && Inv(m, db) && ValidOp(m, op) && op.c.Tenant?
    && id in db.txns && db.txns[id].op == op && Alone(db, id, op)
    && (op.c.id in db0.tenants ==> op.c.id in db.tenants)
    && var pc := db.txns[id].pc;
       if pc.Done? then Ends(m, db0, op, db0.tenants, db.table, pc) || Ends(m, db0, op, db.tenants, db.table, pc)
       else SamePairRows(db0.table, db.table, op.c, op.k) && Underway(db0.table, op, pc)
  }

  /** One statement that is not a COMMIT takes the call on, or gives the answer. */
  ghost predicate TakesOn(m: Master, db0: Db, id: nat, op: Op, db: Db)
    requires ValidOp(m, op) && id in db.txns && db.txns[id].op == op
  {
    var pc := db.txns[id].pc;
    && NextPc(m, db, id).Some?
    && var pc' := NextPc(m, db, id).value;
       if pc'.Done? then Outcome(m, db, op) == (db.table, pc')
       else Underway(db0.table, op, pc') && StepsLeft(pc') < StepsLeft(pc)
  }

  lemma AlreadyActiveOutcome(m: Master, db: Db, op: Op)
    requires op.Generate? && ValidOp(m, op) && ActiveVersion(db.table, op.c, op.k).Some?
    ensures Outcome(m, db, op) == (db.table, Done(Err(AlreadyActiveDek)))
  {
  }

  lemma CheckExistsStep(m: Master, db0: Db, id: nat, op: Op, db: Db)
    requires m.Valid() && Inv(m, db0) && OnCourse(m, db0, id, op, db) && db.txns[id].pc.CheckExists?
    ensures TakesOn(m, db0, id, op, db)
  {
    QueriesAgree(db.table, op.c, op.k);
    if ActiveRow(db.table, op.c, op.k).Some? {
      AlreadyActiveOutcome(m, db, op);
    } else {
      PairDecides(db0.table, db.table, op.c, op.k);
    }
  }

  lemma ReadMaxStep(m: Master, db0: Db, id: nat, op: Op, db: Db)
    requires m.Valid() && Inv(m, db0) && OnCourse(m, db0, id, op, db) && db.txns[id].pc.ReadMax?
    ensures TakesOn(m, db0, id, op, db)
  {
    PairDecides(db0.table, db.table, op.c, op.k);
    QueriesAgree(db.table, op.c, op.k);
  }

  lemma FindActiveStep(m: Master, db0: Db, id: nat, op: Op, db: Db)
    requires m.Valid() && Inv(m, db0) && OnCourse(m, db0, id, op, db) && db.txns[id].pc.FindActive?
    ensures TakesOn(m, db0, id, op, db)
  {
    QueriesAgree(db.table, op.c, op.k);
    if ActiveRow(db.table, op.c, op.k).Some? {
      assert Of(WrappingKey(op.c, op.k, ActiveRow(db.table, op.c, op.k).value), op.c, op.k);
    }
  }

  lemma FindRowStep(m: Master, db0: Db, id: nat, op: Op, db: Db)
    requires m.Valid() && Inv(m, db0) && OnCourse(m, db0, id, op, db) && db.txns[id].pc.FindRow?
    ensures TakesOn(m, db0, id, op, db)
  {
    assert Of(WrappingKey(op.c, op.k, op.version), op.c, op.k);
    assert WrappingKey(op.c, op.k, op.version) in db.table ==> op.version < TWO_31;
  }

  lemma LockStep(m: Master, db0: Db, id: nat, op: Op, db: Db)
    requires m.Valid() && Inv(m, db0) && OnCourse(m, db0, id, op, db)
    requires var pc := db.txns[id].pc; pc.LockActive? || pc.LockRow? || pc.DeleteRow?
    ensures TakesOn(m, db0, id, op, db)
  {
    assert TxnOk(m, db, db.txns[id]);
    if op.Shred? {
      var key := WrappingKey(op.c, op.k, op.version);
      assert Of(key, op.c, op.k) && key in db.table && op.version < TWO_31;
      NobodyElseLocks(m, db, id, key);
    } else {
      var key := WrappingKey(op.c, op.k, db.txns[id].pc.candidate);
      assert Of(key, op.c, op.k);
      NobodyElseLocks(m, db, id, key);
    }
  }

  /** An INSERT nobody is in the way of, against the in-memory outcome. */
  lemma InsertOutcome(m: Master, db: Db, id: nat, v: u32, next: Pc)
    requires m.Valid() && Inv(m, db) && id in db.txns && Alone(db, id, db.txns[id].op)
    requires var x := db.txns[id];
             || (x.pc == InsertFirst(1) && PairEmpty(db.table, x.op.c, x.op.k) && v == 1 && next == CommitGenerate(1))
             || (x.pc.InsertNext? && v == x.pc.retired + 1 && next == CommitRotate(x.pc.retired))
    ensures ValidOp(m, db.txns[id].op) && NextPc(m, db, id).Some?
    ensures var pc := NextPc(m, db, id).value;
            (pc == next && RowFits(db, db.txns[id].op)) || (pc.Done? && Outcome(m, db, db.txns[id].op) == (db.table, pc))
  {
    InsertVersion(m, db, id, v);
    AloneOrOutcome(m, db, id, v, next);
    assert NextPc(m, db, id) == Insert(m, db, id, v, next);
  }

  lemma AloneOrOutcome(m: Master, db: Db, id: nat, v: u32, next: Pc)
    requires m.Valid() && Inv(m, db) && id in db.txns && Alone(db, id, db.txns[id].op)
    requires var x := db.txns[id];
             && !x.op.Shred? && ValidOp(m, x.op) && v == NextVersion(db.table, x.op.c, x.op.k)
             && (ActiveVersion(db.table, x.op.c, x.op.k).Some? <==> x.op.Rotate?)
             && ((x.pc.InsertFirst? && PairEmpty(db.table, x.op.c, x.op.k))
                 || (x.pc.InsertNext? && v == x.pc.retired + 1))
    ensures var op, pc := db.txns[id].op, Insert(m, db, id, v, next);
            && pc.Some?
            && ((pc.value == next && RowFits(db, op)) || (pc.value.Done? && Outcome(m, db, op) == (db.table, pc.value)))
  {
    InsertAlone(m, db, id, v, next);
    OutcomeWithoutRow(m, db, db.txns[id].op, v);
  }

  /** What is known of the version at an INSERT. */
  lemma InsertVersion(m: Master, db: Db, id: nat, v: u32)
    requires Inv(m, db) && id in db.txns
    requires var x := db.txns[id];
             || (x.pc == InsertFirst(1) && PairEmpty(db.table, x.op.c, x.op.k) && v == 1)
             || (x.pc.InsertNext? && v == x.pc.retired + 1)
    ensures var op := db.txns[id].op;
            && !op.Shred? && ValidOp(m, op) && v == NextVersion(db.table, op.c, op.k)
            && (ActiveVersion(db.table, op.c, op.k).Some? <==> op.Rotate?)
  {
    assert TxnOk(m, db, db.txns[id]);
    NextIsActivePlusOne(db.table, db.txns[id].op.c, db.txns[id].op.k);
  }

  lemma InsertFirstStep(m: Master, db0: Db, id: nat, op: Op, db: Db)
    requires m.Valid() && Inv(m, db0) && OnCourse(m, db0, id, op, db) && db.txns[id].pc.InsertFirst?
    ensures TakesOn(m, db0, id, op, db)
  {
    PairDecides(db0.table, db.table, op.c, op.k);
    InsertOutcome(m, db, id, 1, CommitGenerate(1));
  }

  lemma InsertNextStep(m: Master, db0: Db, id: nat, op: Op, db: Db)
    requires m.Valid() && Inv(m, db0) && OnCourse(m, db0, id, op, db) && db.txns[id].pc.InsertNext?
    ensures TakesOn(m, db0, id, op, db)
  {
    var r := db.txns[id].pc.retired;
    InsertOutcome(m, db, id, AsU32(r) + 1, CommitRotate(r));
  }

  lemma CommitStep(m: Master, db0: Db, id: nat, op: Op, db: Db)
    requires m.Valid() && Inv(m, db0) && OnCourse(m, db0, id, op, db) && Commits(db.txns[id].pc)
    ensures Next(m, db, Step(id)).Some?
    ensures var db' := Next(m, db, Step(id)).value; db'.txns[id].pc.Done? && Outcome(m, db, op) == (db'.table, db'.txns[id].pc)
  {
    assert TxnOk(m, db, db.txns[id]);
    assert Next(m, db, Step(id)).Some?;
    StatementRefines(m, db, id);
    OnlyCommitsWrite(m, db, id);
    if !op.Shred? { NextIsActivePlusOne(db.table, op.c, op.k); }
    assert !op.Shred? ==> RowFits(db, op);
  }

  lemma OwnStatement(m: Master, db0: Db, id: nat, op: Op, db: Db)
    requires m.Valid() && Inv(m, db0) && OnCourse(m, db0, id, op, db)
    requires !db.txns[id].pc.Done? && !Commits(db.txns[id].pc)
    ensures TakesOn(m, db0, id, op, db)
  {
    match db.txns[id].pc
    case CheckExists => CheckExistsStep(m, db0, id, op, db);
    case ReadMax => ReadMaxStep(m, db0, id, op, db);
    case FindActive => FindActiveStep(m, db0, id, op, db);
    case FindRow => FindRowStep(m, db0, id, op, db);
    case LockActive(_) => LockStep(m, db0, id, op, db);
    case LockRow => LockStep(m, db0, id, op, db);
    case DeleteRow => LockStep(m, db0, id, op, db);
    case InsertFirst(_) => InsertFirstStep(m, db0, id, op, db);
    case InsertNext(_) => InsertNextStep(m, db0, id, op, db);
  }

  lemma StillAlone(db: Db, db': Db, id: nat, op: Op)
    requires Alone(db, id, op) && id in db'.txns && db'.txns == db.txns[id := db'.txns[id]]
    ensures Alone(db', id, op)
  {
  }

  /** The call's own COMMIT answers it. */
  lemma OwnCommit(m: Master, db0: Db, id: nat, op: Op, db: Db)
    requires m.Valid() && Inv(m, db0) && OnCourse(m, db0, id, op, db) && Commits(db.txns[id].pc)
    ensures Next(m, db, Step(id)).Some?
    ensures OnCourse(m, db0, id, op, Next(m, db, Step(id)).value) && Next(m, db, Step(id)).value.txns[id].pc.Done?
  {
    CommitStep(m, db0, id, op, db);
    var db' := Next(m, db, Step(id)).value;
    OnlyCommitsWrite(m, db, id);
    NextKeepsInv(m, db, Step(id));
    StillAlone(db, db', id, op);
    EndsFrom(m, db0, db, op, db'.table, db'.txns[id].pc);
  }

  /** The call's own next statement: it never waits, and takes at most four. */
  lemma OwnStep(m: Master, db0: Db, id: nat, op: Op, db: Db)
    requires m.Valid() && Inv(m, db0) && OnCourse(m, db0, id, op, db) && !db.txns[id].pc.Done?
    ensures Next(m, db, Step(id)).Some?
    ensures var db' := Next(m, db, Step(id)).value;
            OnCourse(m, db0, id, op, db') && StepsLeft(db'.txns[id].pc) < StepsLeft(db.txns[id].pc)
  {
    if Commits(db.txns[id].pc) {
      OwnCommit(m, db0, id, op, db);
    } else {
      OwnStatement(m, db0, id, op, db);
      assert Next(m, db, Step(id)).Some?;
      var db' := Next(m, db, Step(id)).value;
      OnlyCommitsWrite(m, db, id);
      NextKeepsInv(m, db, Step(id));
      StillAlone(db, db', id, op);
      if db'.txns[id].pc.Done? { EndsFrom(m, db0, db, op, db'.table, db'.txns[id].pc); }
    }
  }

  // ---- The others.

  /** The event is another transaction's statement on the pair, the deletion of
      its tenant, or the end of this transaction from outside. */
  predicate Disturbs(db: Db, e: Event, id: nat, op: Op) {
    match e
    case Step(j) => j != id && j in db.txns && db.txns[j].op.c == op.c && db.txns[j].op.k == op.k
    case Abort(j) => j == id
    case DeleteTenant(t) => op.c == Tenant(t)
    case _ => false
  }

  /** What a COMMIT does outside its own pair: nothing. */
  lemma CommitStaysInPair(m: Master, db: Db, id: nat)
    requires Inv(m, db) && id in db.txns && Commits(db.txns[id].pc)
    ensures SameElsewhere(db.table, NextTable(m, db, id), db.txns[id].op.c, db.txns[id].op.k)
  {
    var op := db.txns[id].op;
    match db.txns[id].pc
    case CommitGenerate(_) =>
      CommitGenerateRefines(m, db, id);
      GenerateKeepsValid(m, db.table, op.c, op.k, op.dek, op.nonce);
    case CommitRotate(_) =>
      CommitRotateRefines(m, db, id);
      RotateKeepsValid(m, db.table, op.c, op.k, op.dek, op.nonce);
    case CommitShred =>
      CommitShredRefines(m, db, id);
      ShredKeepsValid(db.table, op.c, op.k, op.version);
  }

  lemma PairRowsStay(m: Master, db: Db, id: nat, op: Op, e: Event)
    requires Inv(m, db) && id in db.txns && Next(m, db, e).Some? && e != Step(id) && !Disturbs(db, e, id, op)
    ensures SamePairRows(db.table, Next(m, db, e).value.table, op.c, op.k)
  {
    if e.Step? {
      OnlyCommitsWrite(m, db, e.id);
      if Commits(db.txns[e.id].pc) { CommitStaysInPair(m, db, e.id); }
    }
  }

  lemma OthersStayAway(m: Master, db: Db, id: nat, op: Op, e: Event)
    requires Alone(db, id, op) && id in db.txns && Next(m, db, e).Some? && e != Step(id) && !Disturbs(db, e, id, op)
    ensures var db' := Next(m, db, e).value; Alone(db', id, op) && id in db'.txns && db'.txns[id] == db.txns[id]
  {
    var db' := Next(m, db, e).value;
    match e
    case Step(j) =>
      OnlyCommitsWrite(m, db, j);
      OneMovesAway(db, db', id, op, j);
    case Begin(j, _) => OneMovesAway(db, db', id, op, j);
    case Abort(j) => OneMovesAway(db, db', id, op, j);
    case _ =>
  }

  lemma OneMovesAway(db: Db, db': Db, id: nat, op: Op, j: nat)
    requires Alone(db, id, op) && id in db.txns && j != id && j in db'.txns && db'.txns == db.txns[j := db'.txns[j]]
    requires var y := db'.txns[j]; (y.op.c == op.c && y.op.k == op.k ==> y.Locked().None? && !y.Inserted())
    ensures Alone(db', id, op) && id in db'.txns && db'.txns[id] == db.txns[id]
  {
  }

  lemma SamePairTransitive(a: Table, b: Table, d: Table, c: ControllerId, k: Bytes)
    requires SamePairRows(a, b, c, k) && SamePairRows(b, d, c, k)
    ensures SamePairRows(a, d, c, k)
  {
  }

  /** Tenants come and go, this one only comes. */
  lemma TenantsDuring(m: Master, db: Db, id: nat, op: Op, e: Event)
    requires Next(m, db, e).Some? && op.c.Tenant? && !Disturbs(db, e, id, op)
    ensures var db' := Next(m, db, e).value;
            op.c.id in db'.tenants <==> op.c.id in db.tenants || e == CreateTenant(op.c.id)
  {
  }

  /** An ending depends on the tenants through the call's own tenant only. */
  lemma EndsByTenant(m: Master, db0: Db, op: Op, s: set<Uuid>, s': set<Uuid>, t: Table, pc: Pc)
    requires ValidOp(m, op) && (op.c.id in s <==> op.c.id in s')
    ensures Ends(m, db0, op, s, t, pc) <==> Ends(m, db0, op, s', t, pc)
  {
  }

  lemma ForeignStep(m: Master, db0: Db, id: nat, op: Op, db: Db, e: Event)
    requires m.Valid() && Inv(m, db0) && OnCourse(m, db0, id, op, db)
    requires Next(m, db, e).Some? && e != Step(id) && !Disturbs(db, e, id, op)
    ensures OnCourse(m, db0, id, op, Next(m, db, e).value) && Next(m, db, e).value.txns[id] == db.txns[id]
  {
    var db' := Next(m, db, e).value;
    var pc := db.txns[id].pc;
    NextKeepsInv(m, db, e);
    OthersStayAway(m, db, id, op, e);
    PairRowsStay(m, db, id, op, e);
    TenantsDuring(m, db, id, op, e);
    if pc.Done? {
      EndsSettles(m, db0, op, db.tenants, db'.tenants, db.table, db'.table, pc);
    } else {
      SamePairTransitive(db0.table, db.table, db'.table, op.c, op.k);
    }
  }

  lemma EndsStays(m: Master, db0: Db, op: Op, s: set<Uuid>, t: Table, t': Table, pc: Pc)
    requires ValidOp(m, op) && SamePairRows(t, t', op.c, op.k) && Ends(m, db0, op, s, t, pc)
    ensures Ends(m, db0, op, s, t', pc)
  {
    SamePairTransitive(Outcome(m, db0.(tenants := s), op).0, t, t', op.c, op.k);
  }

  /** An answer stays the right one while the others go on. */
  lemma EndsSettles(m: Master, db0: Db, op: Op, s: set<Uuid>, s': set<Uuid>, t: Table, t': Table, pc: Pc)
    requires ValidOp(m, op) && SamePairRows(t, t', op.c, op.k)
    requires (op.c.id in db0.tenants ==> op.c.id in s) && (op.c.id in s ==> op.c.id in s')
    requires Ends(m, db0, op, db0.tenants, t, pc) || Ends(m, db0, op, s, t, pc)
    ensures Ends(m, db0, op, db0.tenants, t', pc) || Ends(m, db0, op, s', t', pc)
  {
    if Ends(m, db0, op, db0.tenants, t, pc) {
      EndsStays(m, db0, op, db0.tenants, t, t', pc);
    } else {
      EndsStays(m, db0, op, s, t, t', pc);
      EndsByTenant(m, db0, op, s, if op.c.id in s then s' else db0.tenants, t', pc);
    }
  }

  // ---- The call.

  /** No event of the run disturbs the call. */
  ghost predicate Undisturbed(m: Master, db: Db, es: seq<Event>, id: nat, op: Op)
    requires Run(m, db, es).Some?
    decreases es
  {
    es == [] || (!Disturbs(db, es[0], id, op) && Undisturbed(m, Next(m, db, es[0]).value, es[1..], id, op))
  }

  function OwnSteps(es: seq<Event>, id: nat): nat {
    if es == [] then 0 else (if es[0] == Step(id) then 1 else 0) + OwnSteps(es[1..], id)
  }

  lemma {:induction false} StaysOnCourse(m: Master, db0: Db, id: nat, op: Op, db: Db, es: seq<Event>)
    requires m.Valid() && Inv(m, db0) && OnCourse(m, db0, id, op, db)
    requires Run(m, db, es).Some? && Undisturbed(m, db, es, id, op)
    ensures OnCourse(m, db0, id, op, Run(m, db, es).value)
    ensures OwnSteps(es, id) + StepsLeft(Run(m, db, es).value.txns[id].pc) <= StepsLeft(db.txns[id].pc)
    decreases es
  {
    if es != [] {
      if es[0] == Step(id) {
        OwnStep(m, db0, id, op, db);
      } else {
        ForeignStep(m, db0, id, op, db, es[0]);
      }
      StaysOnCourse(m, db0, id, op, Next(m, db, es[0]).value, es[1..]);
    }
  }

  lemma BegunOnCourse(m: Master, db: Db, id: nat, op: Op)
    requires m.Valid() && Inv(m, db) && id !in db.txns && op.c.Tenant? && ValidOp(m, op) && Alone(db, id, op)
    ensures OnCourse(m, db, id, op, Begun(db, id, op)) && StepsLeft(FirstPc(op)) == 4
  {
    NextKeepsInv(m, db, Begin(id, op));
  }

  /** The two providers agree on calls among others. Let a call begin while no
      other transaction holds a row of its pair, and let everybody else do
      anything, on all other pairs and tenants, begin transactions on this pair
      and even create its tenant, but run no statement on this pair. Then the
      call never waits, is answered within four statements of its own, and comes
      to what the in-memory operation comes to on the pair as it was at BEGIN,
      with the tenants known then or, if its tenant was created meanwhile, known
      since. */
  lemma CallAmongOthers(m: Master, db: Db, id: nat, op: Op, es: seq<Event>)
    requires m.Valid() && Inv(m, db) && id !in db.txns && op.c.Tenant? && ValidOp(m, op) && Alone(db, id, op)
    requires Run(m, Begun(db, id, op), es).Some? && Undisturbed(m, Begun(db, id, op), es, id, op)
    ensures var db' := Run(m, Begun(db, id, op), es).value;
            && id in db'.txns
            && OwnSteps(es, id) + StepsLeft(db'.txns[id].pc) <= 4
            && (!db'.txns[id].pc.Done? ==> Next(m, db', Step(id)).Some? && SamePairRows(db.table, db'.table, op.c, op.k))
            && (db'.txns[id].pc.Done? ==>
                  Ends(m, db, op, db.tenants, db'.table, db'.txns[id].pc) || Ends(m, db, op, db'.tenants, db'.table, db'.txns[id].pc))
  {
    BegunOnCourse(m, db, id, op);
    StaysOnCourse(m, db, id, op, Begun(db, id, op), es);
    var db' := Run(m, Begun(db, id, op), es).value;
    if !db'.txns[id].pc.Done? { OwnStep(m, db, id, op, db'); }
  }

  lemma {:induction false} TenantKnown(m: Master, db: Db, es: seq<Event>, id: nat, op: Op)
    requires Run(m, db, es).Some? && Undisturbed(m, db, es, id, op) && op.c.Tenant? && CreateTenant(op.c.id) !in es
    ensures op.c.id in Run(m, db, es).value.tenants <==> op.c.id in db.tenants
    decreases es
  {
    if es != [] {
      TenantsDuring(m, db, id, op, es[0]);
      TenantKnown(m, Next(m, db, es[0]).value, es[1..], id, op);
    }
  }

  /** So, where its tenant is not created meanwhile, an answered call agrees with
      the in-memory provider, in its answer and in what it does to the pair, if
      and only if the new row, when there is one, fits the table: its version
      within an `i32`, its record kind 1 to 64 characters long, its tenant
      known. Otherwise it fails and the pair is as it was. */
  lemma CallAgreesIff(m: Master, db: Db, id: nat, op: Op, es: seq<Event>)
    requires m.Valid() && Inv(m, db) && id !in db.txns && op.c.Tenant? && ValidOp(m, op) && Alone(db, id, op)
    requires Run(m, Begun(db, id, op), es).Some? && Undisturbed(m, Begun(db, id, op), es, id, op)
    requires CreateTenant(op.c.id) !in es
    requires var db' := Run(m, Begun(db, id, op), es).value; id in db'.txns && db'.txns[id].pc.Done?
    ensures var db', (t, r) := Run(m, Begun(db, id, op), es).value, MemOp(m, db.table, op);
            var agrees := db'.txns[id].pc == Done(r) && SamePairRows(t, db'.table, op.c, op.k);
            && (agrees <==> r.Err? || op.Shred? || RowFits(db, op))
            && (!agrees ==> db'.txns[id].pc == Done(Err(Storage)) && SamePairRows(db.table, db'.table, op.c, op.k))
  {
    CallAmongOthers(m, db, id, op, es);
    TenantKnown(m, Begun(db, id, op), es, id, op);
    var db' := Run(m, Begun(db, id, op), es).value;
    EndsByTenant(m, db, op, db.tenants, db'.tenants, db'.table, db'.txns[id].pc);
    assert db.(tenants := db.tenants) == db;
  }

  // ---- Nobody else at all.

  lemma WholeTable(w: Table, t: Table, t': Table, c: ControllerId, k: Bytes)
    requires SameElsewhere(w, t, c, k) && SameElsewhere(w, t', c, k) && SamePairRows(t, t', c, k)
    ensures t == t'
  {
    assert t.Keys == t'.Keys;
  }

  lemma MemOpStaysInPair(m: Master, w: Table, op: Op)
    requires KeyStore.Valid(w) && ValidOp(m, op)
    ensures SameElsewhere(w, MemOp(m, w, op).0, op.c, op.k)
  {
    match op
    case Generate(c, k, dek, nonce) => GenerateKeepsValid(m, w, c, k, dek, nonce);
    case Rotate(c, k, dek, nonce) => RotateKeepsValid(m, w, c, k, dek, nonce);
    case Shred(c, k, v) => ShredKeepsValid(w, c, k, v);
  }

  lemma EndsWhole(m: Master, db: Db, op: Op, t: Table, pc: Pc)
    requires KeyStore.Valid(db.table) && ValidOp(m, op)
    requires Ends(m, db, op, db.tenants, t, pc) && SameElsewhere(db.table, t, op.c, op.k)
    ensures (t, pc) == Outcome(m, db, op)
  {
    assert db.(tenants := db.tenants) == db;
    MemOpStaysInPair(m, db.table, op);
    WholeTable(db.table, Outcome(m, db, op).0, t, op.c, op.k);
  }

  /** Only this transaction and its pair have changed. */
  ghost predicate OnlyOwn(db: Db, db': Db, id: nat, c: ControllerId, k: Bytes) {
    && SameElsewhere(db.table, db'.table, c, k) && db'.tenants == db.tenants
    && id in db'.txns && db'.txns == db.txns[id := db'.txns[id]]
  }

  lemma OwnStepIsOwn(m: Master, db: Db, id: nat)
    requires Inv(m, db) && Next(m, db, Step(id)).Some?
    ensures OnlyOwn(db, Next(m, db, Step(id)).value, id, db.txns[id].op.c, db.txns[id].op.k)
  {
    OnlyCommitsWrite(m, db, id);
    if Commits(db.txns[id].pc) { CommitStaysInPair(m, db, id); }
  }

  lemma OnlyOwnTransitive(a: Db, b: Db, d: Db, id: nat, c: ControllerId, k: Bytes)
    requires OnlyOwn(a, b, id, c, k) && OnlyOwn(b, d, id, c, k)
    ensures OnlyOwn(a, d, id, c, k)
  {
  }

  /** The call's remaining statements, one after the other. */
  lemma {:induction false} Finish(m: Master, db0: Db, id: nat, op: Op, db: Db) returns (es: seq<Event>, db': Db)
    requires m.Valid() && Inv(m, db0) && OnCourse(m, db0, id, op, db)
    ensures Run(m, db, es) == Some(db') && forall i | 0 <= i < |es| :: es[i] == Step(id)
    ensures OnCourse(m, db0, id, op, db') && db'.txns[id].pc.Done? && OnlyOwn(db, db', id, op.c, op.k)
    decreases StepsLeft(db.txns[id].pc)
  {
    if db.txns[id].pc.Done? {
      es, db' := [], db;
      assert db.txns[id := db.txns[id]] == db.txns;
    } else {
      OwnStep(m, db0, id, op, db);
      OwnStepIsOwn(m, db, id);
      var next := Next(m, db, Step(id)).value;
      var fs;
      fs, db' := Finish(m, db0, id, op, next);
      es := [Step(id)] + fs;
      assert es[1..] == fs;
      OnlyOwnTransitive(db, next, db', id, op.c, op.k);
    }
  }

  /** A call with nobody else about: the run of its statements comes to exactly
      `Outcome`, on the whole table. */
  lemma SoloCall(m: Master, db: Db, id: nat, op: Op) returns (es: seq<Event>, db': Db)
    requires m.Valid() && Inv(m, db) && id !in db.txns && op.c.Tenant? && ValidOp(m, op) && Alone(db, id, op)
    ensures |es| > 0 && es[0] == Begin(id, op) && forall i | 1 <= i < |es| :: es[i] == Step(id)
    ensures Run(m, db, es) == Some(db')
    ensures id in db'.txns && (db'.table, db'.txns[id].pc) == Outcome(m, db, op)
    ensures db'.txns == db.txns[id := db'.txns[id]] && db'.tenants == db.tenants
  {
    BegunOnCourse(m, db, id, op);
    var fs;
    fs, db' := Finish(m, db, id, op, Begun(db, id, op));
    es := [Begin(id, op)] + fs;
    BeginFirst(m, db, id, op, fs);
    EndsWhole(m, db, op, db'.table, db'.txns[id].pc);
  }

  lemma BeginFirst(m: Master, db: Db, id: nat, op: Op, fs: seq<Event>)
    requires id !in db.txns && ValidOp(m, op)
    ensures Run(m, db, [Begin(id, op)] + fs) == Run(m, Begun(db, id, op), fs)
  {
    assert ([Begin(id, op)] + fs)[1..] == fs;
  }
}
