/** One pair of controller and record kind through any interleaving of the SQL
    provider: what its active version does, who is overtaken, and which
    versions are answered. */
module DekSqlPairs {
  import opened Wrappers
  import opened Bytes
  import opened StoreErrors
  import opened MasterKek
  import opened KeyStore
  import opened DekTable
  import opened DekTransactions
  import opened DekRefinement
  import opened DekSqlRuns

  predicate IsOfPair(db: Db, e: Event, c: ControllerId, k: Bytes) {
    e.Step? && e.id in db.txns && db.txns[e.id].op.c == c && db.txns[e.id].op.k == k
  }

  /** The event commits a generate of the pair. */
  predicate CommitsGenerate(db: Db, e: Event, c: ControllerId, k: Bytes) {
    IsOfPair(db, e, c, k) && db.txns[e.id].pc.CommitGenerate?
  }

  /** The event commits a rotate of the pair. */
  predicate CommitsRotate(db: Db, e: Event, c: ControllerId, k: Bytes) {
    IsOfPair(db, e, c, k) && db.txns[e.id].pc.CommitRotate?
  }

  lemma ActiveElsewhere(w: Wrappings, w': Wrappings, c: ControllerId, k: Bytes, c': ControllerId, k': Bytes)
    requires KeyStore.Valid(w) && KeyStore.Valid(w') && SameElsewhere(w, w', c, k) && (c' != c || k' != k)
    ensures ActiveVersion(w', c', k') == ActiveVersion(w, c', k')
  {
    NextIsActivePlusOne(w, c', k');
    NextIsActivePlusOne(w', c', k');
    assert forall v: u32 :: IsActive(w, c', k', v) <==> IsActive(w', c', k', v);
  }

  lemma TopIsActive(w: Wrappings, c: ControllerId, k: Bytes, v: u32)
    requires KeyStore.Valid(w) && IsTop(w, c, k, v)
    ensures ActiveVersion(w, c, k) == Some(v)
  {
    NextIsActivePlusOne(w, c, k);
  }

  lemma CommitGenerateMoves(m: Master, db: Db, id: nat, c: ControllerId, k: Bytes)
    requires Inv(m, db) && id in db.txns && db.txns[id].pc.CommitGenerate?
    ensures var op := db.txns[id].op;
            var a, a' := ActiveVersion(db.table, c, k), ActiveVersion(NextTable(m, db, id), c, k);
            if op.c == c && op.k == k then a == None && a' == Some(1) && db.txns[id].pc.version == 1 && c.id in db.tenants else a' == a
  {
    var op := db.txns[id].op;
    assert TxnOk(m, db, db.txns[id]);
    CommitGenerateRefines(m, db, id);
    GenerateKeepsValid(m, db.table, op.c, op.k, op.dek, op.nonce);
    if op.c == c && op.k == k { TopIsActive(NextTable(m, db, id), c, k, 1); }
    else { ActiveElsewhere(db.table, NextTable(m, db, id), op.c, op.k, c, k); }
  }

  lemma CommitRotateMoves(m: Master, db: Db, id: nat, c: ControllerId, k: Bytes)
    requires Inv(m, db) && id in db.txns && db.txns[id].pc.CommitRotate?
    ensures var op, r := db.txns[id].op, AsU32(db.txns[id].pc.retired);
            var a, a' := ActiveVersion(db.table, c, k), ActiveVersion(NextTable(m, db, id), c, k);
            if op.c == c && op.k == k then a == Some(r) && a' == Some(r + 1) else a' == a
  {
    var op, r := db.txns[id].op, AsU32(db.txns[id].pc.retired);
    CommitRotateRefines(m, db, id);
    RotateKeepsValid(m, db.table, op.c, op.k, op.dek, op.nonce);
    if op.c == c && op.k == k {
      TopIsActive(db.table, c, k, r);
      TopIsActive(NextTable(m, db, id), c, k, r + 1);
    } else {
      ActiveElsewhere(db.table, NextTable(m, db, id), op.c, op.k, c, k);
    }
  }

  lemma CommitShredMoves(m: Master, db: Db, id: nat, c: ControllerId, k: Bytes)
    requires Inv(m, db) && id in db.txns && db.txns[id].pc.CommitShred?
    ensures ActiveVersion(NextTable(m, db, id), c, k) == ActiveVersion(db.table, c, k)
  {
    var op := db.txns[id].op;
    var w' := NextTable(m, db, id);
    CommitShredRefines(m, db, id);
    ShredKeepsValid(db.table, op.c, op.k, op.version);
    if op.c == c && op.k == k {
      var t: u32 :| t != op.version && IsTop(db.table, c, k, t) && IsTop(w', c, k, t);
      TopIsActive(db.table, c, k, t);
      TopIsActive(w', c, k, t);
    } else {
      ActiveElsewhere(db.table, w', op.c, op.k, c, k);
    }
  }

  lemma DeleteTenantMoves(w: Wrappings, t: Uuid, c: ControllerId, k: Bytes)
    requires KeyStore.Valid(w)
    ensures ActiveVersion(EraseTenant(w, t), c, k) == if c == Tenant(t) then None else ActiveVersion(w, c, k)
  {
    var w' := EraseTenant(w, t);
    EraseKeepsValid(w, t);
    NextIsActivePlusOne(w, c, k);
    NextIsActivePlusOne(w', c, k);
    assert c != Tenant(t) ==> forall v: u32 :: IsActive(w, c, k, v) <==> IsActive(w', c, k, v);
  }

  /** All that any event does to a pair's active version: a committed generate
      makes it 1 where there was none, a committed rotate moves it up by one,
      deleting the tenant takes it away, and nothing else touches it. */
  lemma PairStep(m: Master, db: Db, e: Event, c: ControllerId, k: Bytes)
    requires Inv(m, db) && Next(m, db, e).Some? && c.Tenant?
    ensures var db' := Next(m, db, e).value;
            var a, a' := ActiveVersion(db.table, c, k), ActiveVersion(db'.table, c, k);
            && Inv(m, db')
            && (c.id in db'.erased <==> c.id in db.erased || e == DeleteTenant(c.id))
            && (c.id in db.erased ==> a.None?)
            && if CommitsGenerate(db, e, c, k) then a == None && a' == Some(1) && c.id !in db.erased && db.txns[e.id].pc.version == 1
               else if CommitsRotate(db, e, c, k) then a == Some(AsU32(db.txns[e.id].pc.retired)) && a' == Some(AsU32(db.txns[e.id].pc.retired) + 1)
               else if e == DeleteTenant(c.id) then a' == None
               else a' == a
  {
    NextKeepsInv(m, db, e);
    if c.id in db.erased {
      ErasedIsEmpty(m, db, c, k);
      NextIsActivePlusOne(db.table, c, k);
    }
    match e
    case Step(id) =>
      OnlyCommitsWrite(m, db, id);
      if db.txns[id].pc.CommitGenerate? { CommitGenerateMoves(m, db, id, c, k); }
      else if db.txns[id].pc.CommitRotate? { CommitRotateMoves(m, db, id, c, k); }
      else if db.txns[id].pc.CommitShred? { CommitShredMoves(m, db, id, c, k); }
    case DeleteTenant(t) => DeleteTenantMoves(db.table, t, c, k);
    case _ =>
  }

  // ---- Through a run.

  /** Some event of the run commits a generate of the pair. */
  ghost predicate Filled(m: Master, db: Db, es: seq<Event>, c: ControllerId, k: Bytes)
    requires Run(m, db, es).Some?
    decreases es
  {
    es != [] && (CommitsGenerate(db, es[0], c, k) || Filled(m, Next(m, db, es[0]).value, es[1..], c, k))
  }

  /** Some event of the run commits a rotate of the pair that retires `r`. */
  ghost predicate Overtaken(m: Master, db: Db, es: seq<Event>, c: ControllerId, k: Bytes, r: u32)
    requires Run(m, db, es).Some?
    decreases es
  {
    && es != []
    && ((CommitsRotate(db, es[0], c, k) && AsU32(db.txns[es[0].id].pc.retired) == r)
        || Overtaken(m, Next(m, db, es[0]).value, es[1..], c, k, r))
  }

  /** There is an active row now and after every event to come. */
  ghost predicate ActiveThroughout(m: Master, db: Db, es: seq<Event>, c: ControllerId, k: Bytes)
    requires Run(m, db, es).Some?
    decreases es
  {
    && ActiveVersion(db.table, c, k).Some?
    && (es == [] || ActiveThroughout(m, Next(m, db, es[0]).value, es[1..], c, k))
  }

  lemma {:induction false} ErasedStays(m: Master, db: Db, es: seq<Event>, c: ControllerId, k: Bytes)
    requires Inv(m, db) && Run(m, db, es).Some? && c.Tenant? && c.id in db.erased
    ensures ActiveVersion(Run(m, db, es).value.table, c, k) == None
    decreases es
  {
    if es == [] {
      ErasedIsEmpty(m, db, c, k);
      NextIsActivePlusOne(db.table, c, k);
    } else {
      PairStep(m, db, es[0], c, k);
      ErasedStays(m, Next(m, db, es[0]).value, es[1..], c, k);
    }
  }

  /** A pair with an active row has one in every state to come, until its tenant
      is deleted: a rotate's two changes become visible together. */
  lemma {:induction false} ActiveUnlessDeleted(m: Master, db: Db, es: seq<Event>, c: ControllerId, k: Bytes)
    requires Inv(m, db) && Run(m, db, es).Some? && c.Tenant? && ActiveVersion(db.table, c, k).Some?
    ensures ActiveThroughout(m, db, es, c, k) <==> DeleteTenant(c.id) !in es
    ensures ActiveVersion(Run(m, db, es).value.table, c, k).Some? <==> DeleteTenant(c.id) !in es
    decreases es
  {
    if es != [] {
      var db' := Next(m, db, es[0]).value;
      PairStep(m, db, es[0], c, k);
      if es[0] == DeleteTenant(c.id) {
        ErasedStays(m, db', es[1..], c, k);
      } else {
        ActiveUnlessDeleted(m, db', es[1..], c, k);
      }
    }
  }

  lemma {:induction false} FilledIff(m: Master, db: Db, es: seq<Event>, c: ControllerId, k: Bytes)
    requires Inv(m, db) && Run(m, db, es).Some? && c.Tenant? && ActiveVersion(db.table, c, k).None?
    ensures ActiveVersion(Run(m, db, es).value.table, c, k).Some? <==> Filled(m, db, es, c, k) && DeleteTenant(c.id) !in es
    decreases es
  {
    if es != [] {
      var db' := Next(m, db, es[0]).value;
      PairStep(m, db, es[0], c, k);
      if CommitsGenerate(db, es[0], c, k) {
        ActiveUnlessDeleted(m, db', es[1..], c, k);
      } else if es[0] == DeleteTenant(c.id) {
        ErasedStays(m, db', es[1..], c, k);
      } else {
        FilledIff(m, db', es[1..], c, k);
      }
    }
  }

  /** Versions only go up. */
  lemma {:induction false} OnlyUp(m: Master, db: Db, es: seq<Event>, c: ControllerId, k: Bytes, r: u32)
    requires Inv(m, db) && Run(m, db, es).Some? && c.Tenant?
    requires ActiveVersion(db.table, c, k).Some? && ActiveVersion(db.table, c, k).value > r
    ensures ActiveVersion(Run(m, db, es).value.table, c, k) != Some(r)
    decreases es
  {
    if es != [] {
      var db' := Next(m, db, es[0]).value;
      PairStep(m, db, es[0], c, k);
      if es[0] == DeleteTenant(c.id) {
        ErasedStays(m, db', es[1..], c, k);
      } else {
        OnlyUp(m, db', es[1..], c, k, r);
      }
    }
  }

  lemma {:induction false} StillActiveIff(m: Master, db: Db, es: seq<Event>, c: ControllerId, k: Bytes, r: u32)
    requires Inv(m, db) && Run(m, db, es).Some? && c.Tenant? && ActiveVersion(db.table, c, k) == Some(r)
    ensures ActiveVersion(Run(m, db, es).value.table, c, k) == Some(r) <==>
            !Overtaken(m, db, es, c, k, r) && DeleteTenant(c.id) !in es
    decreases es
  {
    if es != [] {
      var db' := Next(m, db, es[0]).value;
      PairStep(m, db, es[0], c, k);
      if CommitsRotate(db, es[0], c, k) {
        OnlyUp(m, db', es[1..], c, k, r);
      } else if es[0] == DeleteTenant(c.id) {
        ErasedStays(m, db', es[1..], c, k);
      } else {
        StillActiveIff(m, db', es[1..], c, k, r);
      }
    }
  }

  /** None of the events is this transaction's. */
  predicate LeavesAlone(es: seq<Event>, id: nat) {
    forall i | 0 <= i < |es| :: es[i] != Step(id) && es[i] != Abort(id)
  }

  lemma {:induction false} OthersKeepTxn(m: Master, db: Db, es: seq<Event>, id: nat)
    requires id in db.txns && Run(m, db, es).Some? && LeavesAlone(es, id)
    ensures id in Run(m, db, es).value.txns && Run(m, db, es).value.txns[id] == db.txns[id]
    decreases es
  {
    if es != [] {
      OthersKeepTxn(m, Next(m, db, es[0]).value, es[1..], id);
    }
  }

  lemma {:induction false} RunKeepsInv(m: Master, db: Db, es: seq<Event>)
    requires Inv(m, db) && Run(m, db, es).Some?
    ensures Inv(m, Run(m, db, es).value)
    decreases es
  {
    if es != [] {
      NextKeepsInv(m, db, es[0]);
      RunKeepsInv(m, Next(m, db, es[0]).value, es[1..]);
    }
  }

  // ---- When an answer is not the in-memory one.

  lemma RecheckIff(m: Master, db: Db, id: nat)
    requires Inv(m, db) && id in db.txns && db.txns[id].pc.LockActive? && Next(m, db, Step(id)).Some?
    ensures var x := db.txns[id];
            && ValidOp(m, x.op) && x.op.Rotate?
            && (Next(m, db, Step(id)).value.txns[id].pc == Done(Err(NoActiveDek)) <==>
                  ActiveVersion(db.table, x.op.c, x.op.k) != Some(AsU32(x.pc.candidate)))
  {
    var x := db.txns[id];
    NextIsActivePlusOne(db.table, x.op.c, x.op.k);
  }

  /** A rotate that has picked its row and then lets others go first, for any
      run of theirs. It is told `NoActiveDek` if and only if one of them
      committed a rotate of the same row or deleted the tenant; and the
      in-memory provider would say the same if and only if the tenant was
      deleted. So it is told wrongly exactly when it was overtaken. */
  lemma RotateMisreportsIff(m: Master, db: Db, id: nat, es: seq<Event>)
    requires Inv(m, db) && id in db.txns && db.txns[id].pc.LockActive?
    requires IsActive(db.table, db.txns[id].op.c, db.txns[id].op.k, db.txns[id].pc.candidate)
    requires LeavesAlone(es, id) && Run(m, db, es).Some? && Next(m, Run(m, db, es).value, Step(id)).Some?
    ensures var op, r, db1 := db.txns[id].op, AsU32(db.txns[id].pc.candidate), Run(m, db, es).value;
            var deleted := DeleteTenant(op.c.id) in es;
            && (Next(m, db1, Step(id)).value.txns[id].pc == Done(Err(NoActiveDek)) <==> Overtaken(m, db, es, op.c, op.k, r) || deleted)
            && (Next(m, db1, Step(id)).value.txns[id].pc == Done(Err(NoActiveDek)) ==>
                  ValidOp(m, op) && (MemOp(m, db1.table, op) == (db1.table, Err(NoActiveDek)) <==> deleted))
  {
    var op, r, db1 := db.txns[id].op, AsU32(db.txns[id].pc.candidate), Run(m, db, es).value;
    OthersKeepTxn(m, db, es, id);
    RunKeepsInv(m, db, es);
    NextIsActivePlusOne(db.table, op.c, op.k);
    RecheckIff(m, db1, id);
    StillActiveIff(m, db, es, op.c, op.k, r);
    ActiveUnlessDeleted(m, db, es, op.c, op.k);
    NoActiveIff(m, db1, op);
  }

  /** The in-memory rotate says `NoActiveDek` where nothing is active. */
  lemma NoActiveIff(m: Master, db: Db, op: Op)
    requires op.Rotate?
    ensures ValidOp(m, op) ==>
              (MemOp(m, db.table, op) == (db.table, Err(NoActiveDek)) <==> ActiveVersion(db.table, op.c, op.k).None?)
  {
  }

  /** A generate that has seen no active row, up to its INSERT, for any run that
      leads there. The in-memory provider would say `AlreadyActiveDek` at that
      point if and only if another generate of the pair was committed in between
      and the tenant not deleted; the SQL provider then says `Storage` (or
      `Encrypt`), and never `AlreadyActiveDek`. */
  lemma GenerateMisreportsIff(m: Master, db: Db, id: nat, es: seq<Event>)
    requires Inv(m, db) && Run(m, db, es).Some? && id in Run(m, db, es).value.txns
    requires Run(m, db, es).value.txns[id].pc.InsertFirst? && Next(m, Run(m, db, es).value, Step(id)).Some?
    requires ActiveRow(db.table, Run(m, db, es).value.txns[id].op.c, Run(m, db, es).value.txns[id].op.k).None?
    ensures var db1 := Run(m, db, es).value;
            var x := db1.txns[id];
            var lost := Filled(m, db, es, x.op.c, x.op.k) && DeleteTenant(x.op.c.id) !in es;
            && ValidOp(m, x.op)
            && (MemOp(m, db1.table, x.op) == (db1.table, Err(AlreadyActiveDek)) <==> lost)
            && Next(m, db1, Step(id)).value.txns[id].pc != Done(Err(AlreadyActiveDek))
            && (lost ==> Next(m, db1, Step(id)).value.txns[id].pc == Done(Err(if WrapOk(m, x.op, x.pc.version) then Storage else Encrypt)))
  {
    var db1 := Run(m, db, es).value;
    var x := db1.txns[id];
    RunKeepsInv(m, db, es);
    QueriesAgree(db.table, x.op.c, x.op.k);
    FilledIff(m, db, es, x.op.c, x.op.k);
    InsertRejections(m, db1, id);
    NextIsActivePlusOne(db1.table, x.op.c, x.op.k);
    if ActiveVersion(db1.table, x.op.c, x.op.k).Some? {
      ActiveRowStopsInsert(m, db1, id);
    }
  }

  lemma ActiveRowStopsInsert(m: Master, db: Db, id: nat)
    requires Inv(m, db) && id in db.txns && db.txns[id].pc.InsertFirst? && Next(m, db, Step(id)).Some?
    requires ActiveVersion(db.table, db.txns[id].op.c, db.txns[id].op.k).Some?
    ensures Next(m, db, Step(id)).value.txns[id].pc.Done?
  {
    var x := db.txns[id];
    var v := x.pc.version;
    if !Next(m, db, Step(id)).value.txns[id].pc.Done? {
      InsertMeans(m, db, id, v, CommitGenerate(v));
      NextIsActivePlusOne(db.table, x.op.c, x.op.k);
    }
  }

  // ---- No version is answered twice.

  /** The version a call returned to its caller. */
  function VersionOf(x: Txn): u32
    requires x.pc.Done? && x.pc.result.Ok? && !x.pc.result.value.Shredded?
  {
    x.pc.result.value.version
  }

  /** Versions answered so far differ, and for a tenant that was not erased none
      is above the active one. */
  ghost predicate AnsweredOnce(db: Db, c: ControllerId, k: Bytes) {
    var calls := IssuedCalls(db.txns, c, k);
    && (forall i, j | i in calls && j in calls && i != j :: VersionOf(db.txns[i]) != VersionOf(db.txns[j]))
    && (c.id !in db.erased ==> forall i | i in calls ::
          ActiveVersion(db.table, c, k).Some? && VersionOf(db.txns[i]) <= ActiveVersion(db.table, c, k).value)
  }

  lemma CallsGrow(txns: map<nat, TypedTxn>, id: nat, y: TypedTxn, c: ControllerId, k: Bytes)
    requires id in txns ==> Answers(txns[id], y)
    requires id !in txns ==> !Issued(y, c, k)
    ensures id !in IssuedCalls(txns, c, k)
    ensures IssuedCalls(txns[id := y], c, k) == IssuedCalls(txns, c, k) + if Issued(y, c, k) then {id} else {}
  {
  }

  /** What a COMMIT of the pair answers. */
  lemma CommitAnswers(m: Master, db: Db, id: nat, c: ControllerId, k: Bytes)
    requires Inv(m, db) && Next(m, db, Step(id)).Some? && c.Tenant?
    ensures var y := Next(m, db, Step(id)).value.txns[id];
            Issued(y, c, k) <==> CommitsGenerate(db, Step(id), c, k) || CommitsRotate(db, Step(id), c, k)
    ensures var db' := Next(m, db, Step(id)).value;
            Issued(db'.txns[id], c, k) ==> ActiveVersion(db'.table, c, k) == Some(VersionOf(db'.txns[id]))
  {
    PairStep(m, db, Step(id), c, k);
    OnlyCommitsWrite(m, db, id);
  }

  /** A commit of the pair answers with the version it makes active; no other
      event answers a version of the pair, and answers stay. */
  lemma AnswerStep(m: Master, db: Db, e: Event, c: ControllerId, k: Bytes)
    requires Inv(m, db) && Next(m, db, e).Some? && c.Tenant?
    ensures var db' := Next(m, db, e).value;
            var calls, calls' := IssuedCalls(db.txns, c, k), IssuedCalls(db'.txns, c, k);
            && (forall i | i in calls :: i in db'.txns && db'.txns[i] == db.txns[i])
            && if CommitsGenerate(db, e, c, k) || CommitsRotate(db, e, c, k)
               then && e.id in db'.txns && Issued(db'.txns[e.id], c, k) && calls' == calls + {e.id} && e.id !in calls
                    && ActiveVersion(db'.table, c, k) == Some(VersionOf(db'.txns[e.id]))
               else calls' == calls
  {
    var db' := Next(m, db, e).value;
    match e
    case Step(id) =>
      OnlyCommitsWrite(m, db, id);
      CommitAnswers(m, db, id, c, k);
      CallsGrow(db.txns, id, db'.txns[id], c, k);
    case Begin(id, _) => CallsGrow(db.txns, id, db'.txns[id], c, k);
    case Abort(id) => CallsGrow(db.txns, id, db'.txns[id], c, k);
    case _ =>
  }

  /** A new greatest version keeps the answers apart. */
  lemma AnsweredOnceGrows(db: Db, db': Db, c: ControllerId, k: Bytes, id: nat, v: u32)
    requires AnsweredOnce(db, c, k) && c.id !in db.erased && c.id !in db'.erased
    requires var calls := IssuedCalls(db.txns, c, k);
             && IssuedCalls(db'.txns, c, k) == calls + {id} && id !in calls
             && (forall i | i in calls :: i in db'.txns && db'.txns[i] == db.txns[i])
    requires id in db'.txns && Issued(db'.txns[id], c, k) && VersionOf(db'.txns[id]) == v
    requires ActiveVersion(db'.table, c, k) == Some(v)
    requires ActiveVersion(db.table, c, k).Some? ==> ActiveVersion(db.table, c, k).value < v
    ensures AnsweredOnce(db', c, k)
  {
  }

  lemma AnsweredOnceStep(m: Master, db: Db, e: Event, c: ControllerId, k: Bytes)
    requires Inv(m, db) && Next(m, db, e).Some? && c.Tenant? && AnsweredOnce(db, c, k)
    ensures AnsweredOnce(Next(m, db, e).value, c, k)
  {
    PairStep(m, db, e, c, k);
    AnswerStep(m, db, e, c, k);
    if CommitsGenerate(db, e, c, k) || CommitsRotate(db, e, c, k) {
      var db' := Next(m, db, e).value;
      AnsweredOnceGrows(db, db', c, k, e.id, VersionOf(db'.txns[e.id]));
    }
  }

  lemma {:induction false} AnsweredOnceRun(m: Master, db: Db, es: seq<Event>, c: ControllerId, k: Bytes)
    requires Inv(m, db) && Run(m, db, es).Some? && c.Tenant? && AnsweredOnce(db, c, k)
    ensures AnsweredOnce(Run(m, db, es).value, c, k)
    decreases es
  {
    if es != [] {
      NextKeepsInv(m, db, es[0]);
      AnsweredOnceStep(m, db, es[0], c, k);
      AnsweredOnceRun(m, Next(m, db, es[0]).value, es[1..], c, k);
    }
  }

  /** Under every interleaving, erasures included, no two calls on a pair are
      answered with the same version. */
  lemma NoVersionTwice(m: Master, es: seq<Event>, c: ControllerId, k: Bytes, i: nat, j: nat)
    requires Run(m, EMPTY, es).Some? && c.Tenant? && i != j
    requires var calls := IssuedCalls(Run(m, EMPTY, es).value.txns, c, k); i in calls && j in calls
    ensures var txns := Run(m, EMPTY, es).value.txns; VersionOf(txns[i]) != VersionOf(txns[j])
  {
    StartInv(m);
    AnsweredOnceRun(m, EMPTY, es, c, k);
  }
}
