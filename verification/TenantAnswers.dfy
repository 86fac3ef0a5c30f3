/** What a caller may conclude from its answer, after any run: 200 and 204 mean
    what they say about the tenant and its chain, 404 means the tenant is gone,
    and an error means that the call has left nothing behind. */
module TenantAnswers {
  import opened Wrappers
  import opened Bytes
  import opened Json
  import opened AuditHash
  import opened AuditChain
  import opened Tenants
  import opened TenantWrites
  import opened TenantRuns
  import opened TenantHistory

  /** No row of `tenants` goes away or gets another slug or type, and the row of a
      deleted tenant, its reason included, stays as it is. */
  predicate Keeps(s: Store, s': Store, t: Uuid) {
    && (t in s.tenants ==> t in s'.tenants && SameIdentity(s.tenants[t].tenant, s'.tenants[t].tenant))
    && (IsDeleted(s, t) ==> s'.tenants[t] == s.tenants[t])
  }

  lemma EventKeeps(env: Env, w: World, e: Event, t: Uuid)
    ensures Keeps(w.store, Next(env, w, e).store, t)
  {
    WritesAreWhole(env, w, e);
  }

  lemma {:induction false} RunKeeps(env: Env, w: World, es: seq<Event>, t: Uuid)
    ensures Keeps(w.store, Run(env, w, es).store, t)
    decreases es
  {
    if es != [] {
      EventKeeps(env, w, es[0], t);
      RunKeeps(env, Next(env, w, es[0]), es[1..], t);
    }
  }

  /** The row of an attempt's tenant is the one its caller resolved, whatever its
      name and settings are by now. */
  predicate SameRow(call: Call, s: Store) {
    !call.WriteCall? ==> call.resolved.id in s.tenants && SameIdentity(call.resolved, s.tenants[call.resolved.id].tenant)
  }

  /** The row has what the PATCH asked for. */
  predicate HasRequested(req: PatchRequest, t: Tenant) {
    (req.name.Some? ==> t.name == req.name.value) && (req.settings.Some? ==> t.settings == req.settings.value)
  }

  predicate IsRecordOf(r: Row, actor: Uuid, payload: Json) {
    && r.fields.payload == payload && r.fields.actorId == Some(actor) && r.fields.actorClass == Ascii("member")
    && r.fields.chainKind == Ascii("tenant") && r.fields.chainId.Some? && r.fields.tenantId == r.fields.chainId
  }

  /** A row of the chain says what the call did. */
  ghost predicate Recorded(rows: seq<Row>, actor: Uuid, payload: Json) {
    exists r :: r in rows && IsRecordOf(r, actor, payload)
  }

  /** What a call's state says is true of the database. */
  ghost predicate JobTrue(j: Job, s: Store) {
    var t, rows := j.call.Tenant(), ChainOf(s.events, j.call.Tenant());
    && SameRow(j.call, s)
    && match j.phase
       case Snapped(_, view) => SameRow(j.call, view) && (IsDeleted(view, t) ==> IsDeleted(s, t))
       case Done(Ok(Updated(after))) =>
         && j.call.PatchCall? && HasRequested(j.call.req, after) && SameIdentity(j.call.resolved, after)
         && Recorded(rows, j.call.actor, UpdatePayload(j.call.resolved, after))
       case Done(Ok(Gone)) => j.call.PatchCall? && IsDeleted(s, t)
       case Done(Ok(Removed(matched))) =>
         && j.call.DeleteCall? && IsDeleted(s, t)
         && (matched ==> s.tenants[t].deletion == Some(j.call.reason) && Recorded(rows, j.call.actor, DeletePayload(j.call.reason)))
       case Done(Ok(Written(r))) =>
         && j.call.WriteCall? && r in rows && r.fields.payload == j.call.payload
         && r.fields.actorClass == j.call.actorClass && r.fields.actorId == j.call.actorId && r.fields.tenantId == Some(t)
       case _ => true
  }

  ghost predicate AllTrue(w: World) {
    forall c | c in w.jobs :: JobTrue(w.jobs[c], w.store)
  }

  /** What is true stays true. */
  lemma TruthStays(j: Job, s: Store, s': Store)
    requires JobTrue(j, s) && Keeps(s, s', j.call.Tenant())
    requires ChainOf(s.events, j.call.Tenant()) <= ChainOf(s'.events, j.call.Tenant())
    ensures JobTrue(j, s')
  {
    var rows, rows' := ChainOf(s.events, j.call.Tenant()), ChainOf(s'.events, j.call.Tenant());
    assert forall r | r in rows :: r in rows';
  }

  /** A COMMIT that writes answers the truth. */
  lemma WriteIsTrue(env: Env, w: World, e: Event)
    requires WriteOf(env, w, e).Some? && JobTrue(w.jobs[e.c], w.store)
    ensures JobTrue(Next(env, w, e).jobs[e.c], Next(env, w, e).store)
  {
    var x, s' := WriteOf(env, w, e).value, Next(env, w, e).store;
    var t := x.call.Tenant();
    WritesAreWhole(env, w, e);
    ChainStep(env, w, e, t);
    var r := NewRow(env.hash, env.role, x.seen, x.id, x.Fields());
    assert ChainOf(s'.events, t) == Chain(w, t) + [r] && r in ChainOf(s'.events, t);
  }

  /** So does one that does not. */
  lemma OtherCommitIsTrue(env: Env, w: World, e: Event)
    requires e.Commit? && e.c in w.jobs && w.jobs[e.c].phase.Snapped? && WriteOf(env, w, e).None? && JobTrue(w.jobs[e.c], w.store)
    ensures JobTrue(Next(env, w, e).jobs[e.c], Next(env, w, e).store)
  {
    WritesAreWhole(env, w, e);
  }

  lemma OwnEventIsTrue(env: Env, w: World, e: Event, c: nat)
    requires AllTrue(w) && c in Next(env, w, e).jobs && (c in w.jobs ==> Next(env, w, e).jobs[c] != w.jobs[c])
    ensures JobTrue(Next(env, w, e).jobs[c], Next(env, w, e).store)
  {
    if e.Commit? && e.c in w.jobs && w.jobs[e.c].phase.Snapped? {
      assert JobTrue(w.jobs[e.c], w.store);
      if WriteOf(env, w, e).Some? { WriteIsTrue(env, w, e); } else { OtherCommitIsTrue(env, w, e); }
    } else {
      assert c in w.jobs ==> JobTrue(w.jobs[c], w.store);
    }
  }

  lemma TruthStep(env: Env, w: World, e: Event)
    requires AllTrue(w)
    ensures AllTrue(Next(env, w, e))
  {
    var w' := Next(env, w, e);
    forall c | c in w'.jobs ensures JobTrue(w'.jobs[c], w'.store) {
      if c in w.jobs && w'.jobs[c] == w.jobs[c] {
        var t := w.jobs[c].call.Tenant();
        EventKeeps(env, w, e, t);
        ChainStep(env, w, e, t);
        TruthStays(w.jobs[c], w.store, w'.store);
      } else {
        OwnEventIsTrue(env, w, e, c);
      }
    }
  }

  lemma {:induction false} TruthRun(env: Env, w: World, es: seq<Event>)
    requires AllTrue(w)
    ensures AllTrue(Run(env, w, es))
    decreases es
  {
    if es != [] {
      TruthStep(env, w, es[0]);
      TruthRun(env, Next(env, w, es[0]), es[1..]);
    }
  }

  // ---- The answers.

  /** 200: the row the caller is shown has what it asked for, and the chain has
      the caller's own row, recording what differs between the row it had
      resolved and the row it is shown. */
  lemma UpdatedIsRecorded(env: Env, es: seq<Event>, c: nat, after: Tenant)
    requires c in Run(env, EMPTY, es).jobs && Run(env, EMPTY, es).jobs[c].phase == Done(Ok(Updated(after)))
    ensures var w := Run(env, EMPTY, es);
            var call := w.jobs[c].call;
            && call.PatchCall? && HasRequested(call.req, after) && SameIdentity(call.resolved, after)
            && Recorded(Chain(w, call.Tenant()), call.actor, UpdatePayload(call.resolved, after))
  {
    TruthRun(env, EMPTY, es);
    assert JobTrue(Run(env, EMPTY, es).jobs[c], Run(env, EMPTY, es).store);
  }

  lemma {:induction false} RunSplit(env: Env, w: World, es: seq<Event>, n: nat)
    requires n <= |es|
    ensures Run(env, w, es) == Run(env, Run(env, w, es[..n]), es[n..])
    decreases n
  {
    if n == 0 {
      assert es[..0] == [] && es[0..] == es;
    } else {
      RunSplit(env, Next(env, w, es[0]), es[1..], n - 1);
      assert es[..n][1..] == es[1..][..n - 1] && es[1..][n - 1..] == es[n..];
    }
  }

  /** Exactly what each committed write makes of the tenants: a PATCH its own row
      with what was asked for and all else as it was; a DELETE its own row with
      the reason given and all else as it was; a standalone write nothing. */
  lemma WriteLeavesRow(env: Env, w: World, e: Event)
    requires WriteOf(env, w, e).Some?
    ensures var x, s, s' := WriteOf(env, w, e).value, w.store, Next(env, w, e).store;
            var t := x.call.Tenant();
            && s'.tenants.Keys == s.tenants.Keys && (forall u | u in s.tenants && u != t :: s'.tenants[u] == s.tenants[u])
            && match x.call
               case PatchCall(_, _, req) =>
                 Live(s, t).Some? && Live(s', t).Some? && IsPatchOf(Live(s, t).value, Live(s', t).value, req)
               case DeleteCall(_, _, reason) =>
                 Live(s, t).Some? && s'.tenants[t].tenant == Live(s, t).value && s'.tenants[t].deletion == Some(reason)
               case WriteCall(_, _, _, _) => s'.tenants == s.tenants
  {
    WritesAreWhole(env, w, e);
  }

  /** The chain has the reason that the row of a deleted tenant has. */
  ghost predicate ReasonRecorded(w: World, t: Uuid) {
    IsDeleted(w.store, t) ==>
      exists r :: r in Chain(w, t) && IsDelete(r) && r.fields.payload == DeletePayload(w.store.tenants[t].deletion.value)
  }

  lemma ReasonStep(env: Env, w: World, e: Event, t: Uuid)
    requires ReasonRecorded(w, t) && !(e.Remove? && e.t == t)
    ensures ReasonRecorded(Next(env, w, e), t)
  {
    var w', x := Next(env, w, e), WriteOf(env, w, e);
    EventKeeps(env, w, e, t);
    ChainStep(env, w, e, t);
    if IsDeleted(w.store, t) {
      var r :| r in Chain(w, t) && IsDelete(r) && r.fields.payload == DeletePayload(w.store.tenants[t].deletion.value);
      assert r in Chain(w', t);
    } else if IsDeleted(w'.store, t) {
      ReasonOfDelete(env, w, e, t);
    }
  }

  /** What deletes a tenant, other programs aside, is a DELETE that records it. */
  lemma ReasonOfDelete(env: Env, w: World, e: Event, t: Uuid)
    requires !IsDeleted(w.store, t) && IsDeleted(Next(env, w, e).store, t) && !(e.Remove? && e.t == t)
    ensures ReasonRecorded(Next(env, w, e), t)
  {
    WritesAreWhole(env, w, e);
    ChainStep(env, w, e, t);
    var x := WriteOf(env, w, e).value;
    var r := NewRow(env.hash, env.role, x.seen, x.id, x.Fields());
    assert x.call.DeleteCall? && r in Chain(Next(env, w, e), t);
    DeletePayloadReads(x.call.reason);
  }

  /** A tenant that no other program deleted has in its row the reason that its
      `tenant.delete` row has. */
  lemma {:induction false} StoredReasonIsRecorded(env: Env, w: World, es: seq<Event>, t: Uuid)
    requires ReasonRecorded(w, t) && forall i | 0 <= i < |es| && es[i].Remove? :: es[i].t != t
    ensures ReasonRecorded(Run(env, w, es), t)
    decreases es
  {
    if es != [] {
      ReasonStep(env, w, es[0], t);
      StoredReasonIsRecorded(env, Next(env, w, es[0]), es[1..], t);
    }
  }

  /** What the UPDATE of a committed PATCH did to the tenant row. */
  lemma UpdateDid(env: Env, w: World, e: Event)
    requires WriteOf(env, w, e).Some? && WriteOf(env, w, e).value.call.PatchCall?
    ensures var x, w' := WriteOf(env, w, e).value, Next(env, w, e);
            var t := x.call.Tenant();
            && x.row.Some? && Live(w.store, t) == x.row && Live(w'.store, t) == Some(Patched(x.row.value, x.call.req))
            && IsPatchOf(x.row.value, Live(w'.store, t).value, x.call.req)
            && |Chain(w', t)| == |Chain(w, t)| + 1
            && Chain(w', t)[|Chain(w, t)|].fields.payload == UpdatePayload(x.call.resolved, Patched(x.row.value, x.call.req))
            && Chain(w', t)[|Chain(w, t)|].fields.actorId == Some(x.call.actor)
  {
    WritesAreWhole(env, w, e);
    ChainStep(env, w, e, WriteOf(env, w, e).value.call.Tenant());
  }

  /** The row a PATCH leaves in the chain records the change from the row that
      its UPDATE matched to the row that its UPDATE made, if and only if the
      name and settings its caller had resolved were still there. Whatever comes
      after, the row stays as it is. */
  lemma RecordsOwnChangeIff(env: Env, es: seq<Event>, n: nat)
    requires n < |es|
    requires var x := WriteOf(env, Run(env, EMPTY, es[..n]), es[n]); x.Some? && x.value.call.PatchCall?
    ensures var w := Run(env, EMPTY, es[..n]);
            var call, s, s' := WriteOf(env, w, es[n]).value.call, w.store, Next(env, w, es[n]).store;
            var rows, i := Chain(Run(env, EMPTY, es), call.Tenant()), |Chain(w, call.Tenant())|;
            && Live(s, call.Tenant()).Some? && Live(s', call.Tenant()).Some?
            && IsPatchOf(Live(s, call.Tenant()).value, Live(s', call.Tenant()).value, call.req)
            && i < |rows| && rows[i].fields.actorId == Some(call.actor)
            && (rows[i].fields.payload == UpdatePayload(Live(s, call.Tenant()).value, Live(s', call.Tenant()).value)
                <==> ProfileOf(call.resolved) == ProfileOf(Live(s, call.Tenant()).value))
  {
    var w := Run(env, EMPTY, es[..n]);
    var x, w' := WriteOf(env, w, es[n]).value, Next(env, w, es[n]);
    UpdateDid(env, w, es[n]);
    RunSplit(env, EMPTY, es, n);
    assert es[n..][0] == es[n] && es[n..][1..] == es[n + 1..];
    ChainGrows(env, w', es[n + 1..], x.call.Tenant());
    DiffIsOwnIff(x.call.resolved, x.row.value, x.call.req);
  }

  /** 204, whether this call deleted the tenant or found nothing to delete, and
      404 of a PATCH that had resolved it: the tenant is deleted. Where only the
      handlers work on the tenant, the last row committed to its chain is then
      its one `tenant.delete` row, and everything before is updates. */
  lemma GoneMeansDeleted(env: Env, es: seq<Event>, c: nat)
    requires c in Run(env, EMPTY, es).jobs
    requires Run(env, EMPTY, es).jobs[c].phase.Done? && Run(env, EMPTY, es).jobs[c].phase.result.Ok?
    requires var reply := Run(env, EMPTY, es).jobs[c].phase.result.value; reply.Gone? || reply.Removed?
    ensures var w := Run(env, EMPTY, es);
            var t := w.jobs[c].call.Tenant();
            var rows, n := Chain(w, t), |Chain(w, t)|;
            && IsDeleted(w.store, t)
            && (StartsHandlers(es, t) && (forall i | 0 <= i < |es| && es[i].Remove? :: es[i].t != t) ==>
                  && n > 0 && IsDelete(rows[n - 1])
                  && forall i | 0 <= i < n - 1 :: IsUpdate(rows[i]) && !IsDelete(rows[i]))
  {
    var w := Run(env, EMPTY, es);
    var t := w.jobs[c].call.Tenant();
    TruthRun(env, EMPTY, es);
    assert JobTrue(w.jobs[c], w.store);
    if StartsHandlers(es, t) && forall i | 0 <= i < |es| && es[i].Remove? :: es[i].t != t {
      DeletedByWhom(env, EMPTY, es, t);
      SoftDeleteIsFinal(env, es, t);
    }
  }

  /** 204 of the call that did delete the tenant: its reason is recorded, and it
      is the one in the tenant's row. */
  lemma RemovedIsRecorded(env: Env, es: seq<Event>, c: nat)
    requires c in Run(env, EMPTY, es).jobs && Run(env, EMPTY, es).jobs[c].phase == Done(Ok(Removed(true)))
    ensures var w := Run(env, EMPTY, es);
            var call := w.jobs[c].call;
            && call.DeleteCall? && Recorded(Chain(w, call.Tenant()), call.actor, DeletePayload(call.reason))
            && call.Tenant() in w.store.tenants && w.store.tenants[call.Tenant()].deletion == Some(call.reason)
  {
    TruthRun(env, EMPTY, es);
    assert JobTrue(Run(env, EMPTY, es).jobs[c], Run(env, EMPTY, es).store);
  }
}
