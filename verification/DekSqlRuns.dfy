/** Whole interleaved runs of the SQL provider, against the in-memory one. */
module DekSqlRuns {
  import opened Wrappers
  import opened Bytes
  import opened StoreErrors
  import opened MasterKek
  import opened KeyStore
  import opened KeyAnswers
  import opened DekTable
  import opened DekTransactions
  import opened DekRefinement
  import DekRuns

  /** A run that some event cannot happen in is no run. */
  ghost function Run(m: Master, db: Db, es: seq<Event>): Option<Db>
    decreases es
  {
    if es == [] then Some(db)
    else
      var next := Next(m, db, es[0]);
      if next.None? then None else Run(m, next.value, es[1..])
  }

  /** The in-memory operation for a call, with its answer as a reply. */
  ghost function MemOp(m: Master, t: Table, op: Op): (Table, Result<Reply, StoreError>)
    requires ValidOp(m, op)
  {
    match op
    case Generate(c, k, dek, nonce) =>
      var (t', r) := GenerateDek(m, t, c, k, dek, nonce);
      (t', if r.Ok? then Ok(Generated(r.value)) else Err(r.error))
    case Rotate(c, k, dek, nonce) =>
      var (t', r) := RotateDek(m, t, c, k, dek, nonce);
      (t', if r.Ok? then Ok(Rotated(r.value.0, r.value.1)) else Err(r.error))
    case Shred(c, k, v) =>
      var (t', r) := ShredDek(t, c, k, v);
      (t', if r.Ok? then Ok(Shredded) else Err(r.error))
  }

  predicate Commits(pc: Pc) {
    pc.CommitGenerate? || pc.CommitRotate? || pc.CommitShred?
  }

  /** A call answers once, and only a generate or a rotate with a version. */
  predicate Answers(x: Txn, y: Txn) {
    && y.op == x.op && !x.pc.Done?
    && (y.pc.Done? && y.pc.result.Ok? ==> (y.pc.result.value.Shredded? <==> x.op.Shred?))
  }

  /** Only a COMMIT changes the table or answers Ok. */
  lemma OnlyCommitsWrite(m: Master, db: Db, id: nat)
    requires Next(m, db, Step(id)).Some?
    ensures var db' := Next(m, db, Step(id)).value;
            && id in db.txns && id in db'.txns && db'.txns == db.txns[id := db'.txns[id]]
            && Answers(db.txns[id], db'.txns[id])
            && (Commits(db.txns[id].pc) <==> db'.txns[id].pc.Done? && db'.txns[id].pc.result.Ok?)
            && (!Commits(db.txns[id].pc) ==> db'.table == db.table)
  {
  }

  /** The whole story of one statement. A statement that answers Ok is a
      commit, and does to the table exactly what the in-memory operation would
      do at that moment, with the same answer. Every other statement, and so
      every rejected, failed or aborted call, leaves the table alone. */
  lemma StatementRefines(m: Master, db: Db, id: nat)
    requires Inv(m, db) && Next(m, db, Step(id)).Some?
    ensures var db' := Next(m, db, Step(id)).value;
            && id in db.txns && id in db'.txns && ValidOp(m, db.txns[id].op)
            && match db'.txns[id].pc
               case Done(Ok(reply)) => MemOp(m, db.table, db.txns[id].op) == (db'.table, Ok(reply))
               case _ => db'.table == db.table
  {
    OnlyCommitsWrite(m, db, id);
    if Commits(db.txns[id].pc) { CommitRefines(m, db, id); }
  }

  lemma CommitRefines(m: Master, db: Db, id: nat)
    requires Inv(m, db) && id in db.txns && ValidOp(m, db.txns[id].op) && Commits(db.txns[id].pc)
    ensures match NextPc(m, db, id)
            case Some(Done(Ok(reply))) => MemOp(m, db.table, db.txns[id].op) == (NextTable(m, db, id), Ok(reply))
            case _ => false
  {
    match db.txns[id].pc
    case CommitGenerate(_) => CommitGenerateRefines(m, db, id);
    case CommitRotate(_) => CommitRotateRefines(m, db, id);
    case CommitShred => CommitShredRefines(m, db, id);
  }

  /** From the COMMIT of a generate or a rotate on, writes get its key under the
      version it answers. */
  lemma CommittedKeyIsActive(m: Master, db: Db, id: nat, v: u32)
    requires m.Valid() && Inv(m, db) && Next(m, db, Step(id)).Some?
    requires match Next(m, db, Step(id)).value.txns[id].pc
             case Done(Ok(Generated(version))) => v == version
             case Done(Ok(Rotated(version, _))) => v == version
             case _ => false
    ensures var db', op := Next(m, db, Step(id)).value, db.txns[id].op;
            && !op.Shred? && SqlActiveDekFor(m, db'.table, op.c, op.k) == Ok((op.dek, v))
  {
    var db', op := Next(m, db, Step(id)).value, db.txns[id].op;
    StatementRefines(m, db, id);
    OnlyCommitsWrite(m, db, id);
    NextKeepsInv(m, db, Step(id));
    if op.Generate? {
      GenerateAnswers(m, db.table, op.c, op.k, op.dek, op.nonce);
    } else if op.Rotate? {
      RotateMeans(m, db.table, op.c, op.k, op.dek, op.nonce);
    }
    ActiveDekForAgrees(m, db'.table, op.c, op.k);
  }

  lemma ShredRejectionsAgree(m: Master, db: Db, id: nat, e: StoreError)
    requires Inv(m, db) && Next(m, db, Step(id)).Some? && db.txns[id].op.Shred?
    requires Next(m, db, Step(id)).value.txns[id].pc == Done(Err(e))
    ensures MemOp(m, db.table, db.txns[id].op) == (db.table, Err(e))
  {
    var op := db.txns[id].op;
    assert WrappingKey(op.c, op.k, op.version) in db.table ==> op.version < TWO_31;
  }

  lemma GenerateRejectionsAgree(m: Master, db: Db, id: nat, e: StoreError)
    requires Inv(m, db) && Next(m, db, Step(id)).Some? && db.txns[id].op.Generate? && !db.txns[id].pc.InsertFirst?
    requires Next(m, db, Step(id)).value.txns[id].pc == Done(Err(e))
    ensures MemOp(m, db.table, db.txns[id].op) == (db.table, Err(e))
  {
    QueriesAgree(db.table, db.txns[id].op.c, db.txns[id].op.k);
  }

  /** An INSERT that fails says only that storage or encryption failed. */
  lemma InsertRejections(m: Master, db: Db, id: nat)
    requires Next(m, db, Step(id)).Some? && (db.txns[id].pc.InsertFirst? || db.txns[id].pc.InsertNext?)
    ensures var x, pc := db.txns[id], Next(m, db, Step(id)).value.txns[id].pc;
            var v: u32 := if x.pc.InsertFirst? then x.pc.version else AsU32(x.pc.retired) + 1;
            && ValidOp(m, x.op)
            && (pc.Done? ==> pc.result == Err(if WrapOk(m, x.op, v) then Storage else Encrypt))
  {
  }

  /** What the in-memory provider would say instead, at that moment. */
  lemma InsertRejectionsAgree(m: Master, db: Db, id: nat, e: StoreError)
    requires Inv(m, db) && Next(m, db, Step(id)).Some? && (db.txns[id].pc.InsertFirst? || db.txns[id].pc.InsertNext?)
    requires Next(m, db, Step(id)).value.txns[id].pc == Done(Err(e))
    ensures var x := db.txns[id];
            var (t, r) := MemOp(m, db.table, x.op);
            && (e == Storage || e == Encrypt)
            && (x.pc.InsertFirst? ==> (r == Err(AlreadyActiveDek) <==> !PairEmpty(db.table, x.op.c, x.op.k)))
            && (x.pc.InsertFirst? ==> (t == db.table && r == Err(e) <==>
                  e == Encrypt && PairEmpty(db.table, x.op.c, x.op.k) && !WrapOk(m, x.op, 1)))
            && (x.pc.InsertNext? ==> (t == db.table && r == Err(e) <==> e == Encrypt))
  {
    var x := db.txns[id];
    assert TxnOk(m, db, x);
    InsertRejections(m, db, id);
    NextIsActivePlusOne(db.table, x.op.c, x.op.k);
  }

  /** When a rejection is the in-memory one at that moment, for every rejection
      there is. A failing INSERT says `Storage`, which the in-memory provider
      never says; a rotate that waited for a row which is no longer active says
      `NoActiveDek`, which is right only if its tenant is gone; every other
      rejection agrees. */
  lemma RejectionsAgree(m: Master, db: Db, id: nat, e: StoreError)
    requires Inv(m, db) && Next(m, db, Step(id)).Some?
    requires Next(m, db, Step(id)).value.txns[id].pc == Done(Err(e))
    ensures ValidOp(m, db.txns[id].op)
    ensures MemOp(m, db.table, db.txns[id].op) == (db.table, Err(e)) <==>
            match db.txns[id].pc
            case InsertFirst(_) =>
              e == Encrypt && PairEmpty(db.table, db.txns[id].op.c, db.txns[id].op.k) && !WrapOk(m, db.txns[id].op, 1)
            case InsertNext(_) => e == Encrypt
            case LockActive(_) => db.txns[id].op.c.id in db.erased
            case _ => true
  {
    var x := db.txns[id];
    if x.pc.InsertFirst? || x.pc.InsertNext? {
      InsertRejectionsAgree(m, db, id, e);
    } else if x.op.Shred? {
      ShredRejectionsAgree(m, db, id, e);
    } else if x.op.Generate? {
      GenerateRejectionsAgree(m, db, id, e);
    } else {
      RotateRejectionsAgree(m, db, id, e);
    }
  }

  /** A rotate is refused before its INSERT only because a look at the row fails. */
  lemma RotateRefused(m: Master, db: Db, id: nat, e: StoreError)
    requires Next(m, db, Step(id)).Some? && db.txns[id].op.Rotate? && !db.txns[id].pc.InsertNext?
    requires Next(m, db, Step(id)).value.txns[id].pc == Done(Err(e))
    ensures ValidOp(m, db.txns[id].op)
    ensures var x := db.txns[id];
            && e == NoActiveDek && (x.pc.LockActive? || x.pc.FindActive?)
            && (x.pc.FindActive? ==> ActiveRow(db.table, x.op.c, x.op.k).None?)
  {
  }

  lemma RotateRejectionsAgree(m: Master, db: Db, id: nat, e: StoreError)
    requires Inv(m, db) && Next(m, db, Step(id)).Some? && db.txns[id].op.Rotate? && !db.txns[id].pc.InsertNext?
    requires Next(m, db, Step(id)).value.txns[id].pc == Done(Err(e))
    ensures MemOp(m, db.table, db.txns[id].op) == (db.table, Err(e)) <==>
            (db.txns[id].pc.LockActive? ==> db.txns[id].op.c.id in db.erased)
  {
    var op := db.txns[id].op;
    assert TxnOk(m, db, db.txns[id]);
    RotateRefused(m, db, id, e);
    QueriesAgree(db.table, op.c, op.k);
    RefusedIffEmpty(m, db.table, op);
    if op.c.id in db.erased { ErasedIsEmpty(m, db, op.c, op.k); }
  }

  lemma RefusedIffEmpty(m: Master, t: Table, op: Op)
    requires KeyStore.Valid(t) && ValidOp(m, op) && op.Rotate?
    ensures MemOp(m, t, op) == (t, Err(NoActiveDek)) <==> PairEmpty(t, op.c, op.k)
  {
    NextIsActivePlusOne(t, op.c, op.k);
  }

  /** An erased tenant has no rows. */
  lemma ErasedIsEmpty(m: Master, db: Db, c: ControllerId, k: Bytes)
    requires Inv(m, db) && c.Tenant? && c.id in db.erased
    ensures PairEmpty(db.table, c, k)
  {
    assert forall key | key in db.table :: key.controller.id in db.tenants;
  }

  // ---- Whole runs.

  function MemEvent(op: Op): DekRuns.Event {
    match op
    case Generate(c, k, dek, nonce) => DekRuns.Generate(c, k, dek, nonce)
    case Rotate(c, k, dek, nonce) => DekRuns.Rotate(c, k, dek, nonce)
    case Shred(c, k, v) => DekRuns.Shred(c, k, v)
  }

  /** The in-memory events a run amounts to: its commits, in commit order, and
      its tenant deletions. */
  function Effect(db: Db, e: Event): seq<DekRuns.Event> {
    match e
    case Step(id) => if id in db.txns && Commits(db.txns[id].pc) then [MemEvent(db.txns[id].op)] else []
    case DeleteTenant(t) => [DekRuns.Erase(t)]
    case _ => []
  }

  ghost function Trace(m: Master, db: Db, es: seq<Event>): seq<DekRuns.Event>
    requires Run(m, db, es).Some?
    decreases es
  {
    if es == [] then [] else Effect(db, es[0]) + Trace(m, Next(m, db, es[0]).value, es[1..])
  }

  /** The calls that returned a new version of the pair to their caller. */
  predicate Issued(x: Txn, c: ControllerId, k: Bytes) {
    x.op.c == c && x.op.k == k && x.pc.Done? && x.pc.result.Ok? && !x.pc.result.value.Shredded?
  }

  function IssuedCalls(txns: map<nat, TypedTxn>, c: ControllerId, k: Bytes): set<nat> {
    set id | id in txns && Issued(txns[id], c, k)
  }

  /** The in-memory world with the same rows, erasures and number of versions
      handed out. */
  ghost predicate Matches(db: Db, s: DekRuns.World) {
    && s.wrappings == db.table
    && (forall c: ControllerId :: c in s.erased <==> c.Tenant? && c.id in db.erased)
    && (forall c: ControllerId, k: Bytes :: s.Issued(c, k) == |IssuedCalls(db.txns, c, k)|)
  }

  /** What a successful operation does to the world's table and count. */
  lemma ApplyIsMemOp(env: DekRuns.Env, s: DekRuns.World, op: Op)
    requires env.Valid() && ValidOp(env.master, op) && MemOp(env.master, s.wrappings, op).1.Ok? && op.c !in s.erased
    ensures DekRuns.ValidEvent(env, MemEvent(op))
    ensures var s' := DekRuns.Apply(env, s, MemEvent(op));
            && s'.wrappings == MemOp(env.master, s.wrappings, op).0 && s'.erased == s.erased
            && s'.issued == if op.Shred? then s.issued else s.issued[(op.c, op.k) := s.Issued(op.c, op.k) + 1]
  {
  }

  /** A commit's tenant is still there. */
  lemma CommitIsLive(m: Master, db: Db, id: nat)
    requires Inv(m, db) && id in db.txns && Commits(db.txns[id].pc)
    ensures ValidOp(m, db.txns[id].op) && db.txns[id].op.c.Tenant? && db.txns[id].op.c.id !in db.erased
  {
    assert TxnOk(m, db, db.txns[id]);
  }

  lemma AnswerIssues(txns: map<nat, TypedTxn>, id: nat, y: TypedTxn, c: ControllerId, k: Bytes)
    requires id in txns && Answers(txns[id], y)
    ensures |IssuedCalls(txns[id := y], c, k)| == |IssuedCalls(txns, c, k)| + if Issued(y, c, k) then 1 else 0
  {
    var before, after := IssuedCalls(txns, c, k), IssuedCalls(txns[id := y], c, k);
    assert id !in before;
    assert after == if Issued(y, c, k) then before + {id} else before;
  }

  lemma CommitMatches(env: DekRuns.Env, db: Db, s: DekRuns.World, id: nat)
    requires env.Valid() && Inv(env.master, db) && Matches(db, s) && Next(env.master, db, Step(id)).Some?
    requires Commits(db.txns[id].pc)
    ensures |Effect(db, Step(id))| == 1 && DekRuns.ValidEvent(env, Effect(db, Step(id))[0])
    ensures Matches(Next(env.master, db, Step(id)).value, DekRuns.Apply(env, s, Effect(db, Step(id))[0]))
  {
    CommitIsLive(env.master, db, id);
    StatementRefines(env.master, db, id);
    OnlyCommitsWrite(env.master, db, id);
    ApplyIsMemOp(env, s, db.txns[id].op);
    var db', s' := Next(env.master, db, Step(id)).value, DekRuns.Apply(env, s, Effect(db, Step(id))[0]);
    forall c: ControllerId, k: Bytes ensures s'.Issued(c, k) == |IssuedCalls(db'.txns, c, k)| {
      assert s.Issued(c, k) == |IssuedCalls(db.txns, c, k)|;
      AnswerIssues(db.txns, id, db'.txns[id], c, k);
    }
  }

  lemma OtherEventIssues(m: Master, db: Db, e: Event, c: ControllerId, k: Bytes)
    requires Next(m, db, e).Some? && (e.Step? ==> !Commits(db.txns[e.id].pc))
    ensures |IssuedCalls(Next(m, db, e).value.txns, c, k)| == |IssuedCalls(db.txns, c, k)|
  {
    var db' := Next(m, db, e).value;
    match e
    case Step(id) =>
      OnlyCommitsWrite(m, db, id);
      AnswerIssues(db.txns, id, db'.txns[id], c, k);
    case Abort(id) => AnswerIssues(db.txns, id, db'.txns[id], c, k);
    case _ => assert IssuedCalls(db'.txns, c, k) == IssuedCalls(db.txns, c, k);
  }

  lemma OtherEventMatches(env: DekRuns.Env, db: Db, s: DekRuns.World, e: Event)
    requires env.Valid() && Matches(db, s) && Next(env.master, db, e).Some?
    requires e.Step? ==> !Commits(db.txns[e.id].pc)
    ensures e.DeleteTenant? || Effect(db, e) == []
    ensures Matches(Next(env.master, db, e).value, if e.DeleteTenant? then DekRuns.Apply(env, s, DekRuns.Erase(e.tenant)) else s)
  {
    if e.Step? { OnlyCommitsWrite(env.master, db, e.id); }
    forall c: ControllerId, k: Bytes
      ensures |IssuedCalls(Next(env.master, db, e).value.txns, c, k)| == |IssuedCalls(db.txns, c, k)|
    {
      OtherEventIssues(env.master, db, e, c, k);
    }
  }

  lemma {:induction false} RunRefines(env: DekRuns.Env, db: Db, s: DekRuns.World, es: seq<Event>)
    requires env.Valid() && Inv(env.master, db) && Matches(db, s) && Run(env.master, db, es).Some?
    ensures Inv(env.master, Run(env.master, db, es).value)
    ensures DekRuns.ValidRun(env, Trace(env.master, db, es))
    ensures Matches(Run(env.master, db, es).value, DekRuns.Run(env, s, Trace(env.master, db, es)))
    decreases es
  {
    if es != [] {
      var m, e := env.master, es[0];
      var db' := Next(m, db, e).value;
      NextKeepsInv(m, db, e);
      var effect := Effect(db, e);
      if e.Step? && Commits(db.txns[e.id].pc) {
        CommitMatches(env, db, s, e.id);
        var s' := DekRuns.Apply(env, s, effect[0]);
        RunRefines(env, db', s', es[1..]);
        assert (effect + Trace(m, db', es[1..]))[1..] == Trace(m, db', es[1..]);
      } else {
        OtherEventMatches(env, db, s, e);
        var s' := if e.DeleteTenant? then DekRuns.Apply(env, s, effect[0]) else s;
        RunRefines(env, db', s', es[1..]);
        assert e.DeleteTenant? ==> (effect + Trace(m, db', es[1..]))[1..] == Trace(m, db', es[1..]);
        assert !e.DeleteTenant? ==> effect + Trace(m, db', es[1..]) == Trace(m, db', es[1..]);
      }
    }
  }

  /** Refinement: after every interleaving, the committed table is the map the
      in-memory provider has after the committed calls, in commit order. */
  lemma SqlRefinesMemory(env: DekRuns.Env, es: seq<Event>)
    requires env.Valid() && Run(env.master, EMPTY, es).Some?
    ensures var db, trace := Run(env.master, EMPTY, es).value, Trace(env.master, EMPTY, es);
            && Inv(env.master, db)
            && DekRuns.ValidRun(env, trace)
            && Matches(db, DekRuns.Run(env, DekRuns.START, trace))
  {
    StartInv(env.master);
    assert forall c: ControllerId, k: Bytes :: IssuedCalls(EMPTY.txns, c, k) == {};
    RunRefines(env, EMPTY, DekRuns.START, es);
  }

  /** Safety of every interleaving: at most one active row per pair, and it has
      the greatest version. */
  lemma AtMostOneActive(env: DekRuns.Env, es: seq<Event>, c: ControllerId, k: Bytes, u: u32, v: u32)
    requires env.Valid() && Run(env.master, EMPTY, es).Some?
    requires var t := Run(env.master, EMPTY, es).value.table; IsActive(t, c, k, u) && WrappingKey(c, k, v) in t
    ensures v <= u && (IsActive(Run(env.master, EMPTY, es).value.table, c, k, v) ==> v == u)
  {
    SqlRefinesMemory(env, es);
    NextIsActivePlusOne(Run(env.master, EMPTY, es).value.table, c, k);
    assert Of(WrappingKey(c, k, v), c, k);
  }

  /** Versions are conserved under every interleaving too: for a pair whose
      tenant was not erased, the next version is one more than the number of
      calls that were answered with a version, and every version up to that
      number was handed out and is live or shredded. */
  lemma SqlVersionConservation(env: DekRuns.Env, es: seq<Event>, c: ControllerId, k: Bytes)
    requires env.Valid() && Run(env.master, EMPTY, es).Some?
    requires c.Tenant? && c.id !in Run(env.master, EMPTY, es).value.erased
    ensures DekRuns.ValidRun(env, Trace(env.master, EMPTY, es))
    ensures var db := Run(env.master, EMPTY, es).value;
            var n := |IssuedCalls(db.txns, c, k)|;
            && NextVersion(db.table, c, k) == n + 1
            && forall v: u32 :: 1 <= v <= n <==>
                 WrappingKey(c, k, v) in db.table
                 || WrappingKey(c, k, v) in DekRuns.Run(env, DekRuns.START, Trace(env.master, EMPTY, es)).shredded
  {
    SqlRefinesMemory(env, es);
    DekRuns.VersionConservation(env, Trace(env.master, EMPTY, es), c, k);
  }
}
