/** What a tenant's audit chain says about the tenant after any run: one row for
    each call that changed something, and a deletion that is final. */
module TenantHistory {
  import opened Wrappers
  import opened Bytes
  import opened AuditHash
  import opened AuditChain
  import opened Tenants
  import opened TenantWrites
  import opened TenantRuns

  // ---- One answer, one row.

  /** The call was answered and its transaction had written something. */
  predicate Wrote(p: Phase) {
    p.Done? && p.result.Ok? && (p.result.value.Updated? || p.result.value == Removed(true) || p.result.value.Written?)
  }

  predicate WroteTo(j: Job, t: Uuid) {
    j.call.Tenant() == t && Wrote(j.phase)
  }

  function Writers(w: World, t: Uuid): set<nat> {
    set c | c in w.jobs && WroteTo(w.jobs[c], t)
  }

  /** An event moves at most one call on, a finished call never, and a call is
      answered with a write exactly when the event commits one. */
  lemma JobStep(env: Env, w: World, e: Event)
    ensures var w', x := Next(env, w, e), WriteOf(env, w, e);
            && (forall c | c in w.jobs :: c in w'.jobs && w'.jobs[c].call == w.jobs[c].call
                  && (Wrote(w'.jobs[c].phase) <==> Wrote(w.jobs[c].phase) || (x.Some? && x.value.c == c))
                  && (x.Some? && x.value.c == c ==> x.value.call == w.jobs[c].call && !Wrote(w.jobs[c].phase)))
            && (forall c | c in w'.jobs && c !in w.jobs :: e.Start? && e.c == c && w'.jobs[c] == Job(e.call, 0, Ready))
            && (x.Some? ==> x.value.c in w.jobs)
  {
    if WriteOf(env, w, e).Some? {
      CommitWrites(env, w, e);
      OnceAppends(env, w.jobs[e.c].phase.view, w.store, w.jobs[e.c].call, w.jobs[e.c].phase.now, e.id);
    }
  }

  lemma WritersStep(env: Env, w: World, e: Event, t: Uuid)
    ensures var x := WriteOf(env, w, e);
            if x.Some? && x.value.call.Tenant() == t
            then x.value.c !in Writers(w, t) && Writers(Next(env, w, e), t) == Writers(w, t) + {x.value.c}
            else Writers(Next(env, w, e), t) == Writers(w, t)
  {
    JobStep(env, w, e);
  }

  /** Pairing: after any run a tenant's chain has exactly one row for each call
      on that tenant that was answered with a change. Calls that changed
      nothing, lost the race, failed or ran out of attempts have none, and an
      attempt that was retried has none either. */
  lemma {:induction false} RowsPairWithAnswers(env: Env, w: World, es: seq<Event>, t: Uuid)
    requires |Chain(w, t)| == |Writers(w, t)|
    ensures |Chain(Run(env, w, es), t)| == |Writers(Run(env, w, es), t)|
    decreases es
  {
    if es != [] {
      ChainStep(env, w, es[0], t);
      WritersStep(env, w, es[0], t);
      RowsPairWithAnswers(env, Next(env, w, es[0]), es[1..], t);
    }
  }

  lemma Pairing(env: Env, es: seq<Event>, t: Uuid)
    ensures |Chain(Run(env, EMPTY, es), t)| == |Writers(Run(env, EMPTY, es), t)|
  {
    assert Writers(EMPTY, t) == {};
    RowsPairWithAnswers(env, EMPTY, es, t);
  }

  /** The committed writes of a run, in order. */
  function Trace(env: Env, w: World, es: seq<Event>): seq<Write>
    decreases es
  {
    if es == [] then []
    else (if WriteOf(env, w, es[0]).Some? then [WriteOf(env, w, es[0]).value] else []) + Trace(env, Next(env, w, es[0]), es[1..])
  }

  function WrittenTo(trace: seq<Write>, t: Uuid): seq<Fields>
    requires forall x | x in trace :: x.Valid()
  {
    if trace == [] then []
    else (if trace[0].call.Tenant() == t then [trace[0].Fields()] else []) + WrittenTo(trace[1..], t)
  }

  function FieldsOf(rows: seq<Row>): (fs: seq<Fields>)
    ensures |fs| == |rows|
  {
    seq(|rows|, i requires 0 <= i < |rows| => rows[i].fields)
  }

  lemma {:induction false} TraceIsValid(env: Env, w: World, es: seq<Event>)
    ensures forall x | x in Trace(env, w, es) :: x.Valid()
    decreases es
  {
    if es != [] { TraceIsValid(env, Next(env, w, es[0]), es[1..]); }
  }

  /** The fields an event's write records in this chain, if any. */
  function StepFields(x: Option<Write>, t: Uuid): seq<Fields>
    requires x.Some? ==> x.value.Valid()
  {
    if x.Some? && x.value.call.Tenant() == t then [x.value.Fields()] else []
  }

  lemma FieldsStep(env: Env, w: World, e: Event, t: Uuid)
    ensures FieldsOf(Chain(Next(env, w, e), t)) == FieldsOf(Chain(w, t)) + StepFields(WriteOf(env, w, e), t)
  {
    ChainStep(env, w, e, t);
  }

  lemma WrittenToHead(x: Option<Write>, rest: seq<Write>, t: Uuid)
    requires (forall y | y in rest :: y.Valid()) && (x.Some? ==> x.value.Valid())
    ensures var all := (if x.Some? then [x.value] else []) + rest;
            (forall y | y in all :: y.Valid()) && WrittenTo(all, t) == StepFields(x, t) + WrittenTo(rest, t)
  {
    if x.Some? { assert ([x.value] + rest)[1..] == rest; } else { assert [] + rest == rest; }
  }

  /** The rows say what the writes were: who, when, to which tenant and with
      which payload, in commit order. */
  lemma {:induction false} RowsRecordWrites(env: Env, w: World, es: seq<Event>, t: Uuid)
    ensures forall x | x in Trace(env, w, es) :: x.Valid()
    ensures FieldsOf(Chain(Run(env, w, es), t)) == FieldsOf(Chain(w, t)) + WrittenTo(Trace(env, w, es), t)
    decreases es
  {
    TraceIsValid(env, w, es);
    if es != [] {
      var x, next := WriteOf(env, w, es[0]), Next(env, w, es[0]);
      FieldsStep(env, w, es[0], t);
      RowsRecordWrites(env, next, es[1..], t);
      WrittenToHead(x, Trace(env, next, es[1..]), t);
      Assoc(FieldsOf(Chain(w, t)), StepFields(x, t), WrittenTo(Trace(env, next, es[1..]), t));
    }
  }

  // ---- Retries.

  function WritesBy(trace: seq<Write>, c: nat): nat {
    if trace == [] then 0 else (if trace[0].c == c then 1 else 0) + WritesBy(trace[1..], c)
  }

  /** A call contributes the effects of its one committed attempt when it is
      answered with a change, and nothing at all otherwise. */
  lemma {:induction false} OneWritePerCall(env: Env, w: World, es: seq<Event>, c: nat)
    ensures var w', n := Run(env, w, es), WritesBy(Trace(env, w, es), c);
            && (c in w.jobs ==> c in w'.jobs && w'.jobs[c].call == w.jobs[c].call)
            && (c in w.jobs && Wrote(w.jobs[c].phase) ==> n == 0 && Wrote(w'.jobs[c].phase))
            && (!(c in w.jobs && Wrote(w.jobs[c].phase)) ==> n == if c in w'.jobs && Wrote(w'.jobs[c].phase) then 1 else 0)
    decreases es
  {
    if es != [] {
      JobStep(env, w, es[0]);
      var x, rest := WriteOf(env, w, es[0]), Trace(env, Next(env, w, es[0]), es[1..]);
      OneWritePerCall(env, Next(env, w, es[0]), es[1..], c);
      assert x.Some? ==> ([x.value] + rest)[1..] == rest;
      assert x.None? ==> [] + rest == rest;
    }
  }

  /** The event is the BEGIN of an attempt of this call. */
  predicate Begins(w: World, e: Event, c: nat) {
    e.Begin? && e.c == c && c in w.jobs && w.jobs[c].phase.Ready?
  }

  /** The event is SQLSTATE 40001 for an attempt of this call. */
  predicate MeetsConflict(env: Env, w: World, e: Event, c: nat) {
    && (e.Conflict? || e.Commit?) && e.c == c && c in w.jobs && InTransaction(w.jobs[c].phase)
    && Next(env, w, e).jobs[c] == AfterConflict(w.jobs[c])
  }

  function Attempts(env: Env, w: World, es: seq<Event>, c: nat): nat
    decreases es
  {
    if es == [] then 0 else (if Begins(w, es[0], c) then 1 else 0) + Attempts(env, Next(env, w, es[0]), es[1..], c)
  }

  function Conflicts(env: Env, w: World, es: seq<Event>, c: nat): nat
    decreases es
  {
    if es == [] then 0
    else (if MeetsConflict(env, w, es[0], c) then 1 else 0) + Conflicts(env, Next(env, w, es[0]), es[1..], c)
  }

  /** How a call stands after `n` attempts of which `k` met 40001: every attempt
      but the last met 40001, and only three of them make it an answer. */
  predicate Spent(j: Job, n: nat, k: nat) {
    && n <= 3
    && match j.phase
       case Ready => n == k == j.tries < 3
       case Done(Err(Serialization)) => n == k == 3
       case Done(Err(Failed(_))) => k == j.tries && k <= n <= k + 1
       case _ => k == j.tries && n == k + 1
  }

  ghost predicate CallSpent(w: World, c: nat, n: nat, k: nat) {
    if c in w.jobs then Spent(w.jobs[c], n, k) else n == k == 0
  }

  lemma SpentStep(env: Env, w: World, e: Event, c: nat, n: nat, k: nat)
    requires CallSpent(w, c, n, k)
    ensures CallSpent(Next(env, w, e), c,
      n + (if Begins(w, e, c) then 1 else 0), k + if MeetsConflict(env, w, e, c) then 1 else 0)
  {
  }

  lemma {:induction false} SpentRun(env: Env, w: World, es: seq<Event>, c: nat, n: nat, k: nat)
    requires CallSpent(w, c, n, k)
    ensures CallSpent(Run(env, w, es), c, n + Attempts(env, w, es, c), k + Conflicts(env, w, es, c))
    decreases es
  {
    if es != [] {
      SpentStep(env, w, es[0], c, n, k);
      SpentRun(env, Next(env, w, es[0]), es[1..], c,
        n + (if Begins(w, es[0], c) then 1 else 0), k + if MeetsConflict(env, w, es[0], c) then 1 else 0);
    }
  }

  /** The retry loop over any run: at most three attempts, each but the last
      ended by 40001, and 40001 reaches the caller only after three of them. */
  lemma RetriesAreBounded(env: Env, es: seq<Event>, c: nat)
    ensures Attempts(env, EMPTY, es, c) <= 3
    ensures c in Run(env, EMPTY, es).jobs ==>
              Spent(Run(env, EMPTY, es).jobs[c], Attempts(env, EMPTY, es, c), Conflicts(env, EMPTY, es, c))
  {
    SpentRun(env, EMPTY, es, c, 0, 0);
  }

  // ---- Chains fed only by the handlers.

  /** No standalone audit writer works on this tenant. */
  ghost predicate ByHandlers(w: World, t: Uuid) {
    forall c | c in w.jobs && w.jobs[c].call.WriteCall? :: w.jobs[c].call.chain != t
  }

  ghost predicate StartsHandlers(es: seq<Event>, t: Uuid) {
    forall i | 0 <= i < |es| && es[i].Start? && es[i].call.WriteCall? :: es[i].call.chain != t
  }

  lemma ByHandlersStep(env: Env, w: World, es: seq<Event>, t: Uuid)
    requires es != [] && ByHandlers(w, t) && StartsHandlers(es, t)
    ensures ByHandlers(Next(env, w, es[0]), t) && StartsHandlers(es[1..], t)
    ensures WriteOf(env, w, es[0]).Some? && WriteOf(env, w, es[0]).value.call.Tenant() == t ==>
              !WriteOf(env, w, es[0]).value.call.WriteCall?
  {
    JobStep(env, w, es[0]);
  }

  // ---- Soft delete is final.

  predicate IsDelete(r: Row) {
    ActionIs(r.fields.payload, "tenant.delete")
  }

  predicate IsUpdate(r: Row) {
    ActionIs(r.fields.payload, "tenant.update")
  }

  /** The calls that were told they deleted the tenant. */
  function Deleters(w: World, t: Uuid): set<nat> {
    set c | c in w.jobs && WroteTo(w.jobs[c], t) && w.jobs[c].call.DeleteCall?
  }

  /** Either nobody deleted the tenant through the handler and its chain has
      only updates, or one call did, the tenant is deleted, and its row ends the
      chain. */
  ghost predicate DeletionShape(rows: seq<Row>, deleters: set<nat>, deleted: bool) {
    if deleters == {} then forall r | r in rows :: IsUpdate(r) && !IsDelete(r)
    else
      var n := |rows|;
      && |deleters| == 1 && deleted
      && n > 0 && IsDelete(rows[n - 1]) && !IsUpdate(rows[n - 1])
      && forall r | r in rows[..n - 1] :: IsUpdate(r) && !IsDelete(r)
  }

  ghost predicate DeletionOk(w: World, t: Uuid) {
    DeletionShape(Chain(w, t), Deleters(w, t), IsDeleted(w.store, t))
  }

  /** Nothing brings a deleted tenant back, and no write matches it. */
  lemma DeletedStays(env: Env, w: World, e: Event, t: Uuid)
    requires IsDeleted(w.store, t)
    ensures IsDeleted(Next(env, w, e).store, t)
    ensures WriteOf(env, w, e).Some? && WriteOf(env, w, e).value.call.Tenant() == t ==> WriteOf(env, w, e).value.call.WriteCall?
  {
    WritesAreWhole(env, w, e);
  }

  lemma DeletersStep(env: Env, w: World, e: Event, t: Uuid)
    ensures var x := WriteOf(env, w, e);
            if x.Some? && x.value.call.Tenant() == t && x.value.call.DeleteCall?
            then Deleters(Next(env, w, e), t) == Deleters(w, t) + {x.value.c}
            else Deleters(Next(env, w, e), t) == Deleters(w, t)
  {
    JobStep(env, w, e);
  }

  lemma WritePayload(x: Write)
    requires x.Valid() && !x.call.WriteCall?
    ensures var p := x.Fields().payload;
            if x.call.DeleteCall? then ActionIs(p, "tenant.delete") && !ActionIs(p, "tenant.update")
            else ActionIs(p, "tenant.update") && !ActionIs(p, "tenant.delete")
  {
    match x.call
    case PatchCall(resolved, _, req) => UpdatePayloadReads(resolved, Patched(x.row.value, req));
    case DeleteCall(_, _, reason) => DeletePayloadReads(reason);
  }

  lemma ShapeAppend(rows: seq<Row>, r: Row, deleters: set<nat>, deleted: bool)
    requires DeletionShape(rows, {}, deleted)
    requires if deleters == {} then IsUpdate(r) && !IsDelete(r) else IsDelete(r) && !IsUpdate(r) && |deleters| == 1
    ensures DeletionShape(rows + [r], deleters, true) && (deleters == {} ==> DeletionShape(rows + [r], deleters, false))
  {
    assert (rows + [r])[..|rows|] == rows;
  }

  /** A write by a handler finds the tenant alive, so nobody deleted it yet. */
  lemma DeletionWrite(env: Env, w: World, e: Event, t: Uuid)
    requires DeletionOk(w, t) && WriteOf(env, w, e).Some?
    requires var call := WriteOf(env, w, e).value.call; call.Tenant() == t && !call.WriteCall?
    ensures DeletionOk(Next(env, w, e), t)
  {
    var x := WriteOf(env, w, e).value;
    WritesAreWhole(env, w, e);
    ChainStep(env, w, e, t);
    DeletersStep(env, w, e, t);
    WritePayload(x);
    var r := NewRow(env.hash, env.role, x.seen, x.id, x.Fields());
    assert x.call.DeleteCall? ==> IsDeleted(Next(env, w, e).store, t);
    ShapeAppend(Chain(w, t), r, if x.call.DeleteCall? then {x.c} else {}, IsDeleted(w.store, t));
  }

  lemma DeletionStep(env: Env, w: World, es: seq<Event>, t: Uuid)
    requires es != [] && DeletionOk(w, t) && ByHandlers(w, t) && StartsHandlers(es, t)
    ensures DeletionOk(Next(env, w, es[0]), t)
  {
    var e := es[0];
    var x := WriteOf(env, w, e);
    ByHandlersStep(env, w, es, t);
    if x.Some? && x.value.call.Tenant() == t {
      DeletionWrite(env, w, e, t);
    } else {
      ChainStep(env, w, e, t);
      DeletersStep(env, w, e, t);
      if IsDeleted(w.store, t) { DeletedStays(env, w, e, t); }
    }
  }

  lemma {:induction false} DeletionRun(env: Env, w: World, es: seq<Event>, t: Uuid)
    requires DeletionOk(w, t) && ByHandlers(w, t) && StartsHandlers(es, t)
    ensures DeletionOk(Run(env, w, es), t)
    decreases es
  {
    if es != [] {
      DeletionStep(env, w, es, t);
      ByHandlersStep(env, w, es, t);
      DeletionRun(env, Next(env, w, es[0]), es[1..], t);
    }
  }

  /** Soft delete is final, however PATCH and DELETE race: at most one call is
      told that it deleted the tenant; its chain has a `tenant.delete` row
      exactly when there is one, only one, and last in commit order, so that no
      `tenant.update` row commits after it. Read by time and id, an update whose
      transaction began later can stand after it. */
  lemma SoftDeleteIsFinal(env: Env, es: seq<Event>, t: Uuid)
    requires StartsHandlers(es, t)
    ensures var w := Run(env, EMPTY, es);
            var rows := Chain(w, t);
            && |Deleters(w, t)| <= 1
            && (Deleters(w, t) != {} ==> IsDeleted(w.store, t))
            && (forall i | 0 <= i < |rows| :: if i < |rows| - 1 || Deleters(w, t) == {} then IsUpdate(rows[i]) && !IsDelete(rows[i])
                                              else IsDelete(rows[i]) && !IsUpdate(rows[i]))
            && (Deleters(w, t) != {} ==> rows != [])
  {
    assert Deleters(EMPTY, t) == {};
    DeletionRun(env, EMPTY, es, t);
    var w := Run(env, EMPTY, es);
    var rows := Chain(w, t);
    forall i | 0 <= i < |rows| - 1 ensures IsUpdate(rows[i]) && !IsDelete(rows[i]) {
      assert rows[..|rows| - 1][i] == rows[i];
    }
  }

  /** A tenant is deleted through the handler or by another program, and by
      nothing else. */
  lemma {:induction false} DeletedByWhom(env: Env, w: World, es: seq<Event>, t: Uuid)
    requires forall i | 0 <= i < |es| && es[i].Remove? :: es[i].t != t
    requires IsDeleted(w.store, t) ==> Deleters(w, t) != {}
    ensures IsDeleted(Run(env, w, es).store, t) ==> Deleters(Run(env, w, es), t) != {}
    decreases es
  {
    if es != [] {
      DeletersStep(env, w, es[0], t);
      WritesAreWhole(env, w, es[0]);
      DeletedByWhom(env, Next(env, w, es[0]), es[1..], t);
    }
  }
}
