/** Two runs of the SQL provider worth knowing, and an instance of everything
    they assume. */
module DekSqlExamples {
  import opened Wrappers
  import opened Bytes
  import opened StoreErrors
  import opened MasterKek
  import opened KeyStore
  import opened DekTable
  import opened DekTransactions
  import opened DekRefinement
  import opened DekSqlRuns
  import opened DekSqlPairs
  import opened DekSqlCalls

  ghost predicate Reachable(m: Master, db: Db) {
    exists es :: Run(m, EMPTY, es) == Some(db)
  }

  lemma {:induction false} RunConcat(m: Master, db: Db, es: seq<Event>, fs: seq<Event>)
    requires Run(m, db, es).Some?
    ensures Run(m, db, es + fs) == Run(m, Run(m, db, es).value, fs)
    decreases es
  {
    if es == [] {
      assert [] + fs == fs;
    } else {
      assert (es + fs)[1..] == es[1..] + fs;
      RunConcat(m, Next(m, db, es[0]).value, es[1..], fs);
    }
  }

  lemma ReachRun(m: Master, db: Db, es: seq<Event>)
    requires Reachable(m, db) && Run(m, db, es).Some?
    ensures Reachable(m, Run(m, db, es).value)
  {
    var start :| Run(m, EMPTY, start) == Some(db);
    RunConcat(m, EMPTY, start, es);
  }

  lemma ReachNext(m: Master, db: Db, e: Event)
    requires Reachable(m, db) && Next(m, db, e).Some?
    ensures Reachable(m, Next(m, db, e).value)
    ensures Run(m, db, [e]) == Next(m, db, e)
  {
    OneEvent(m, db, e);
    ReachRun(m, db, [e]);
  }

  lemma OneEvent(m: Master, db: Db, e: Event)
    ensures Run(m, db, [e]) == Next(m, db, e)
  {
    if Next(m, db, e).Some? { assert [e][1..] == [] && Run(m, Next(m, db, e).value, []) == Next(m, db, e); }
  }

  lemma ReachableInv(m: Master, db: Db)
    requires Reachable(m, db)
    ensures Inv(m, db)
  {
    var es :| Run(m, EMPTY, es) == Some(db);
    StartInv(m);
    RunKeepsInv(m, EMPTY, es);
  }

  lemma ReachBegun(m: Master, db: Db, id: nat, op: Op)
    requires Reachable(m, db) && id !in db.txns && ValidOp(m, op)
    ensures Reachable(m, Begun(db, id, op)) && Next(m, db, Begin(id, op)) == Some(Begun(db, id, op))
  {
    ReachNext(m, db, Begin(id, op));
  }

  /** Nobody holds a lock or an uncommitted row. */
  ghost predicate Quiescent(db: Db) {
    forall j | j in db.txns :: db.txns[j].Locked().None? && !db.txns[j].Inserted()
  }

  /** Calls begin and go on; no tenant is created or deleted and nothing aborts. */
  predicate OnlyCalls(es: seq<Event>) {
    forall i | 0 <= i < |es| :: es[i].Begin? || es[i].Step?
  }

  /** A lone call as one move of a run. */
  lemma ReachCall(m: Master, db: Db, id: nat, op: Op) returns (db': Db, es: seq<Event>)
    requires m.Valid() && Reachable(m, db) && Quiescent(db) && id !in db.txns && op.c.Tenant? && ValidOp(m, op)
    requires MemOp(m, db.table, op).1.Ok? && (op.Shred? || RowFits(db, op))
    ensures Reachable(m, db') && Quiescent(db') && db'.table == MemOp(m, db.table, op).0 && db'.tenants == db.tenants
    ensures db'.txns.Keys == db.txns.Keys + {id} && db'.txns[id].pc.Done?
    ensures forall j | j in db.txns :: db'.txns[j] == db.txns[j]
    ensures Run(m, db, es) == Some(db') && OnlyCalls(es)
  {
    ReachableInv(m, db);
    QuietIsAlone(db, id, op);
    es, db' := SoloCall(m, db, id, op);
    ReachRun(m, db, es);
    StaysQuiet(db, db', id);
    OutcomeOfFit(m, db, op);
  }

  lemma StaysQuiet(db: Db, db': Db, id: nat)
    requires Quiescent(db) && id in db'.txns && db'.txns == db.txns[id := db'.txns[id]] && db'.txns[id].pc.Done?
    ensures Quiescent(db')
  {
  }

  lemma OutcomeOfFit(m: Master, db: Db, op: Op)
    requires ValidOp(m, op) && MemOp(m, db.table, op).1.Ok? && (op.Shred? || RowFits(db, op))
    ensures Outcome(m, db, op) == (MemOp(m, db.table, op).0, Done(MemOp(m, db.table, op).1))
  {
  }

  lemma QuietIsAlone(db: Db, id: nat, op: Op)
    requires Quiescent(db) && id !in db.txns
    ensures Alone(db, id, op)
  {
  }

  /** What the runs below assume: the pair is new, its tenant known, its record
      kind of a fitting length, and wrapping never fails. */
  ghost predicate Fresh(m: Master, c: ControllerId, k: Bytes, dek: Bytes, nonce: Bytes) {
    && m.Valid() && c.Tenant? && 1 <= CharCount(k) <= 64
    && |dek| == DEK_LEN && |nonce| == m.cipher.nonceSize
    && forall v: u32 :: m.Wrap(c, k, v, dek, nonce).Ok?
  }

  lemma ReachGenerated(m: Master, c: ControllerId, k: Bytes, dek: Bytes, nonce: Bytes, db: Db, id: nat) returns (db': Db, es: seq<Event>)
    requires Fresh(m, c, k, dek, nonce) && Reachable(m, db) && PairEmpty(db.table, c, k) && c.id in db.tenants
    requires id !in db.txns && Quiescent(db)
    ensures Reachable(m, db') && Quiescent(db') && db'.tenants == db.tenants && IsTop(db'.table, c, k, 1)
    ensures db'.txns.Keys == db.txns.Keys + {id} && db'.txns[id].pc.Done?
    ensures forall j | j in db.txns :: db'.txns[j] == db.txns[j]
    ensures Run(m, db, es) == Some(db') && OnlyCalls(es)
  {
    ReachableInv(m, db);
    NextIsActivePlusOne(db.table, c, k);
    GenerateKeepsValid(m, db.table, c, k, dek, nonce);
    db', es := ReachCall(m, db, id, Generate(c, k, dek, nonce));
  }

  lemma ReachRotated(m: Master, c: ControllerId, k: Bytes, dek: Bytes, nonce: Bytes, db: Db, id: nat) returns (db': Db, es: seq<Event>)
    requires Fresh(m, c, k, dek, nonce) && Reachable(m, db) && IsTop(db.table, c, k, 1) && c.id in db.tenants
    requires id !in db.txns && Quiescent(db)
    ensures Reachable(m, db') && Quiescent(db') && db'.tenants == db.tenants && IsTop(db'.table, c, k, 2) && WrappingKey(c, k, 1) in db'.table
    ensures db'.txns.Keys == db.txns.Keys + {id} && db'.txns[id].pc.Done?
    ensures forall j | j in db.txns :: db'.txns[j] == db.txns[j]
    ensures Run(m, db, es) == Some(db') && OnlyCalls(es)
  {
    ReachableInv(m, db);
    NextIsActivePlusOne(db.table, c, k);
    RotateKeepsValid(m, db.table, c, k, dek, nonce);
    db', es := ReachCall(m, db, id, Rotate(c, k, dek, nonce));
  }

  lemma ReachTenant(m: Master, id: Uuid) returns (db: Db)
    ensures Reachable(m, db) && Quiescent(db) && db == EMPTY.(tenants := {id})
  {
    assert Run(m, EMPTY, []) == Some(EMPTY);
    ReachNext(m, EMPTY, CreateTenant(id));
    assert EMPTY.tenants + {id} == {id};
    db := Next(m, EMPTY, CreateTenant(id)).value;
  }

  /** The state after a statement that only moves the counter. */
  function Moved(db: Db, id: nat, pc: Pc): Db
    requires id in db.txns && db.txns[id].(pc := pc).Typed()
  {
    db.(txns := db.txns[id := db.txns[id].(pc := pc)])
  }

  lemma MoveIsNext(m: Master, db: Db, id: nat, pc: Pc)
    requires id in db.txns && ValidOp(m, db.txns[id].op) && !Commits(db.txns[id].pc) && NextPc(m, db, id) == Some(pc)
    ensures db.txns[id].(pc := pc).Typed() && Next(m, db, Step(id)) == Some(Moved(db, id, pc))
  {
    OnlyCommitsWrite(m, db, id);
  }

  lemma ReachMoved(m: Master, db: Db, id: nat, pc: Pc)
    requires Reachable(m, db) && id in db.txns && ValidOp(m, db.txns[id].op) && !Commits(db.txns[id].pc)
    requires NextPc(m, db, id) == Some(pc)
    ensures db.txns[id].(pc := pc).Typed() && Reachable(m, Moved(db, id, pc))
    ensures Next(m, db, Step(id)) == Some(Moved(db, id, pc))
  {
    MoveIsNext(m, db, id, pc);
    ReachNext(m, db, Step(id));
  }

  /** A generate that has read an empty pair and not inserted yet. */
  lemma ReachStaleGenerate(m: Master, c: ControllerId, k: Bytes, dek: Bytes, nonce: Bytes) returns (db: Db)
    requires Fresh(m, c, k, dek, nonce)
    ensures Reachable(m, db) && Quiescent(db) && db == EMPTY.(tenants := {c.id}, txns := map[0 := Txn(Generate(c, k, dek, nonce), InsertFirst(1))])
  {
    var db0 := ReachTenant(m, c.id);
    ReachBegun(m, db0, 0, Generate(c, k, dek, nonce));
    db := Begun(db0, 0, Generate(c, k, dek, nonce));
    ReachMoved(m, db, 0, ReadMax);
    db := Moved(db, 0, ReadMax);
    ReachMoved(m, db, 0, InsertFirst(1));
    db := Moved(db, 0, InsertFirst(1));
  }

  /** A pair whose only version is 1. */
  lemma ReachFirst(m: Master, c: ControllerId, k: Bytes, dek: Bytes, nonce: Bytes) returns (db: Db)
    requires Fresh(m, c, k, dek, nonce)
    ensures Reachable(m, db) && Quiescent(db) && db.tenants == {c.id} && IsTop(db.table, c, k, 1)
    ensures db.txns.Keys == {0} && db.txns[0].pc.Done?
  {
    var db0 := ReachTenant(m, c.id);
    var es;
    db, es := ReachGenerated(m, c, k, dek, nonce, db0, 0);
  }

  /** A rotate that has picked the only row there is and not locked it yet. */
  lemma SlowRotate(m: Master, c: ControllerId, k: Bytes, dek: Bytes, nonce: Bytes, start: Db) returns (db: Db, es: seq<Event>)
    requires Fresh(m, c, k, dek, nonce) && Reachable(m, start) && Quiescent(start) && IsTop(start.table, c, k, 1) && start.txns.Keys == {0}
    ensures es == [Begin(1, Rotate(c, k, dek, nonce)), Step(1)] && Run(m, start, es) == Some(db) && Reachable(m, db) && Quiescent(db)
    ensures db == start.(txns := start.txns[1 := Txn(Rotate(c, k, dek, nonce), LockActive(1))])
  {
    var op := Rotate(c, k, dek, nonce);
    ReachBegun(m, start, 1, op);
    var begun := Begun(start, 1, op);
    ReachableInv(m, begun);
    QueriesAgree(begun.table, c, k);
    NextIsActivePlusOne(begun.table, c, k);
    ReachMoved(m, begun, 1, LockActive(1));
    db := Moved(begun, 1, LockActive(1));
    es := [Begin(1, op)] + [Step(1)];
    OneEvent(m, start, Begin(1, op));
    OneEvent(m, begun, Step(1));
    RunConcat(m, start, [Begin(1, op)], [Step(1)]);
  }

  /** A run of one rotate that waits for another of the same pair, from its BEGIN
      to its answer. It is told that there is no active DEK, although there is an
      active row in every state of the run. */
  lemma RotateMissesTheNewActive(m: Master, c: ControllerId, k: Bytes, dek: Bytes, nonce: Bytes) returns (start: Db, es: seq<Event>)
    requires Fresh(m, c, k, dek, nonce)
    ensures Reachable(m, start) && 1 !in start.txns && Run(m, start, es).Some?
    ensures |es| > 0 && es[0] == Begin(1, Rotate(c, k, dek, nonce)) && es[|es| - 1] == Step(1)
    ensures ActiveThroughout(m, start, es, c, k)
    ensures var end := Run(m, start, es).value;
            1 in end.txns && end.txns[1] == Txn(Rotate(c, k, dek, nonce), Done(Err(NoActiveDek)))
  {
    start := ReachFirst(m, c, k, dek, nonce);
    var picked, es1 := SlowRotate(m, c, k, dek, nonce, start);
    assert IsTop(picked.table, c, k, 1) && picked.txns.Keys == {0, 1};
    var before, es2 := ReachRotated(m, c, k, dek, nonce, picked, 2);
    RefusedBehind(m, before, c, k);
    OneEvent(m, before, Step(1));
    RunConcat(m, picked, es2, [Step(1)]);
    RunConcat(m, start, es1, es2 + [Step(1)]);
    es := es1 + (es2 + [Step(1)]);
    NeverWithout(m, start, es, c, k, 1);
  }

  lemma NeverWithout(m: Master, db: Db, es: seq<Event>, c: ControllerId, k: Bytes, v: u32)
    requires Reachable(m, db) && Run(m, db, es).Some? && OnlyCalls(es) && c.Tenant? && IsTop(db.table, c, k, v)
    ensures ActiveThroughout(m, db, es, c, k)
  {
    ReachableInv(m, db);
    NextIsActivePlusOne(db.table, c, k);
    ActiveUnlessDeleted(m, db, es, c, k);
  }

  lemma RefusedBehind(m: Master, db: Db, c: ControllerId, k: Bytes)
    requires Reachable(m, db) && Quiescent(db) && IsTop(db.table, c, k, 2) && 1 in db.txns
    requires db.txns[1].pc == LockActive(1) && db.txns[1].op.c == c && db.txns[1].op.k == k && ValidOp(m, db.txns[1].op)
    ensures Next(m, db, Step(1)) == Some(Moved(db, 1, Done(Err(NoActiveDek))))
  {
    assert WrappingKey(c, k, 1) in db.table ==> Of(WrappingKey(c, k, 1), c, k);
    assert !IsActive(db.table, c, k, 1) && !LockedByOther(db, 1, WrappingKey(c, k, 1));
    MoveIsNext(m, db, 1, Done(Err(NoActiveDek)));
  }

  lemma ReachShredded(m: Master, c: ControllerId, k: Bytes, db: Db, id: nat) returns (db': Db)
    requires m.Valid() && c.Tenant? && Reachable(m, db) && IsTop(db.table, c, k, 2) && WrappingKey(c, k, 1) in db.table
    requires id !in db.txns && Quiescent(db)
    ensures Reachable(m, db') && Quiescent(db') && IsTop(db'.table, c, k, 2) && WrappingKey(c, k, 1) !in db'.table
    ensures db'.txns.Keys == db.txns.Keys + {id} && db'.txns[id].pc.Done?
    ensures forall j | j in db.txns :: db'.txns[j] == db.txns[j]
  {
    assert Of(WrappingKey(c, k, 1), c, k);
    var es;
    db', es := ReachCall(m, db, id, Shred(c, k, 1));
  }

  lemma ReachStaleGenerated(m: Master, c: ControllerId, k: Bytes, dek: Bytes, nonce: Bytes) returns (db: Db)
    requires Fresh(m, c, k, dek, nonce)
    ensures Reachable(m, db) && Quiescent(db) && db.tenants == {c.id} && IsTop(db.table, c, k, 1)
    ensures db.txns.Keys == {0, 1} && db.txns[0] == Txn(Generate(c, k, dek, nonce), InsertFirst(1)) && db.txns[1].pc.Done?
  {
    var db0 := ReachStaleGenerate(m, c, k, dek, nonce);
    assert db0.table == map[] && db0.txns.Keys == {0};
    var es;
    db, es := ReachGenerated(m, c, k, dek, nonce, db0, 1);
  }

  lemma ReachStaleShredded(m: Master, c: ControllerId, k: Bytes, dek: Bytes, nonce: Bytes) returns (db: Db)
    requires Fresh(m, c, k, dek, nonce)
    ensures Reachable(m, db) && db.txns.Keys == {0, 1, 2, 3}
    ensures db.txns[0] == Txn(Generate(c, k, dek, nonce), InsertFirst(1))
    ensures db.txns[1].pc.Done? && db.txns[2].pc.Done? && db.txns[3].pc.Done?
    ensures WrappingKey(c, k, 1) !in db.table && IsTop(db.table, c, k, 2)
  {
    var db1 := ReachStaleGenerated(m, c, k, dek, nonce);
    var db2, es := ReachRotated(m, c, k, dek, nonce, db1, 2);
    db := ReachShredded(m, c, k, db2, 3);
  }

  lemma StaleInsertViolates(m: Master, db: Db, c: ControllerId, k: Bytes)
    requires 0 in db.txns && db.txns[0].op.c == c && db.txns[0].op.k == k && db.txns[0].pc == InsertFirst(1)
    requires ValidOp(m, db.txns[0].op) && m.Valid()
    requires m.Wrap(c, k, 1, db.txns[0].op.dek, db.txns[0].op.nonce).Ok?
    requires forall j | j in db.txns && j != 0 :: db.txns[j].pc.Done?
    requires IsActive(db.table, c, k, 2)
    ensures NextPc(m, db, 0) == Some(Done(Err(Storage)))
  {
    assert InTheWay(db, 0, 1, WrappingKey(c, k, 2));
  }

  /** A generate may still hold a version number it computed before another
      call issued that number and a third call shredded it. The primary key is
      free again then; only the index on the active row stops the INSERT. */
  lemma StaleVersionStoppedByIndex(m: Master, c: ControllerId, k: Bytes, dek: Bytes, nonce: Bytes) returns (before: Db, after: Db)
    requires Fresh(m, c, k, dek, nonce)
    ensures Reachable(m, before) && Next(m, before, Step(0)) == Some(after)
    ensures 0 in before.txns && before.txns[0] == Txn(Generate(c, k, dek, nonce), InsertFirst(1))
    ensures WrappingKey(c, k, 1) !in before.table && IsActive(before.table, c, k, 2)
    ensures 0 in after.txns && after.txns[0].pc == Done(Err(Storage)) && after.table == before.table
  {
    before := ReachStaleShredded(m, c, k, dek, nonce);
    StaleInsertViolates(m, before, c, k);
    ReachMoved(m, before, 0, Done(Err(Storage)));
    after := Moved(before, 0, Done(Err(Storage)));
  }
}
