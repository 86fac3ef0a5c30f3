/** Replaying a tenant's audit chain: when folding its changes gives the
    tenant's current row, in the order in which its rows were committed and in
    the order in which it can be read. */
module TenantReplay {
  import opened Wrappers
  import opened Bytes
  import opened Json
  import opened AuditHash
  import opened AuditChain
  import opened Tenants
  import opened TenantWrites
  import opened TenantRuns
  import opened TenantHistory

  function Payloads(rows: seq<Row>): (ps: seq<Json>)
    ensures |ps| == |rows|
  {
    seq(|rows|, i requires 0 <= i < |rows| => rows[i].fields.payload)
  }

  // ---- In commit order. No column has it; it shows what staleness alone does.

  /** Folding the recorded changes over `start`, as they were committed, gives
      the tenant's current name and settings. */
  ghost predicate Replays(w: World, t: Uuid, start: Profile) {
    t in w.store.tenants && Replay(start, Payloads(Chain(w, t))) == ProfileOf(w.store.tenants[t].tenant)
  }

  /** The event is a PATCH of the tenant that writes back a value its caller
      resolved before the row got another one. */
  predicate IsStale(env: Env, w: World, e: Event, t: Uuid) {
    match WriteOf(env, w, e)
    case Some(x) =>
      && x.call.Tenant() == t && x.call.PatchCall?
      && WritesBackStale(x.call.resolved, x.row.value, x.call.req)
    case None => false
  }

  lemma ReplayAppend(start: Profile, rows: seq<Row>, r: Row)
    ensures Replay(start, Payloads(rows + [r])) == ApplyPayload(Replay(start, Payloads(rows)), r.fields.payload)
  {
    var ps := Payloads(rows + [r]);
    assert ps[..|rows|] == Payloads(rows) && ps[|rows|] == r.fields.payload;
  }

  /** What the payload of a write makes of the row it found, against what its
      UPDATE makes of it. */
  lemma PayloadReplays(x: Write, tenants: map<Uuid, TenantRow>)
    requires x.Valid() && !x.call.WriteCall?
    ensures var after := CallTenants(x.call, x.row, tenants)[x.call.Tenant()].tenant;
            ApplyPayload(ProfileOf(x.row.value), x.Fields().payload) == ProfileOf(after)
            <==> !(x.call.PatchCall? && WritesBackStale(x.call.resolved, x.row.value, x.call.req))
  {
    match x.call
    case PatchCall(resolved, _, req) => DiffReplaysIff(resolved, x.row.value, req);
    case DeleteCall(_, _, reason) => DeletePayloadReads(reason);
  }

  lemma WriteReplays(env: Env, w: World, e: Event, t: Uuid, start: Profile)
    requires WriteOf(env, w, e).Some? && WriteOf(env, w, e).value.call.Tenant() == t
    requires !WriteOf(env, w, e).value.call.WriteCall? && Replays(w, t, start)
    ensures Replays(Next(env, w, e), t, start) <==> !IsStale(env, w, e, t)
  {
    var x := WriteOf(env, w, e).value;
    WritesAreWhole(env, w, e);
    ChainStep(env, w, e, t);
    ReplayAppend(start, Chain(w, t), NewRow(env.hash, env.role, x.seen, x.id, x.Fields()));
    PayloadReplays(x, w.store.tenants);
  }

  /** One event keeps the replay in commit order exact if and only if it is not a
      PATCH that writes back a stale value. */
  lemma ReplayStepIff(env: Env, w: World, es: seq<Event>, t: Uuid, start: Profile)
    requires es != [] && ByHandlers(w, t) && StartsHandlers(es, t) && Replays(w, t, start)
    requires !(es[0].Edit? && es[0].t == t)
    ensures Replays(Next(env, w, es[0]), t, start) <==> !IsStale(env, w, es[0], t)
  {
    var e := es[0];
    var x := WriteOf(env, w, e);
    ByHandlersStep(env, w, es, t);
    if x.Some? && x.value.call.Tenant() == t {
      WriteReplays(env, w, e, t, start);
    } else {
      WritesAreWhole(env, w, e);
      ChainStep(env, w, e, t);
      OtherTenantsStay(env, w, e, t);
    }
  }

  /** Only a write to a tenant or an edit of it changes its name or settings. */
  lemma OtherTenantsStay(env: Env, w: World, e: Event, t: Uuid)
    requires t in w.store.tenants && !(e.Edit? && e.t == t)
    requires WriteOf(env, w, e).Some? ==> WriteOf(env, w, e).value.call.Tenant() != t
    ensures var s' := Next(env, w, e).store; t in s'.tenants && s'.tenants[t].tenant == w.store.tenants[t].tenant
  {
    WritesAreWhole(env, w, e);
  }

  ghost predicate NoStaleWrites(env: Env, w: World, es: seq<Event>, t: Uuid)
    decreases es
  {
    es == [] || (!IsStale(env, w, es[0], t) && NoStaleWrites(env, Next(env, w, es[0]), es[1..], t))
  }

  predicate NoEdits(es: seq<Event>, t: Uuid) {
    forall i | 0 <= i < |es| && es[i].Edit? :: es[i].t != t
  }

  /** It is exact now and after every event to come. */
  ghost predicate AlwaysReplays(env: Env, w: World, es: seq<Event>, t: Uuid, start: Profile)
    decreases es
  {
    Replays(w, t, start) && (es == [] || AlwaysReplays(env, Next(env, w, es[0]), es[1..], t, start))
  }

  /** The condition is exact over whole runs: the replay in commit order is right
      after every event if and only if no PATCH ever writes back a stale value. */
  lemma {:induction false} AlwaysReplaysIff(env: Env, w: World, es: seq<Event>, t: Uuid, start: Profile)
    requires ByHandlers(w, t) && StartsHandlers(es, t) && NoEdits(es, t) && Replays(w, t, start)
    ensures AlwaysReplays(env, w, es, t, start) <==> NoStaleWrites(env, w, es, t)
    decreases es
  {
    if es != [] {
      ReplayStepIff(env, w, es, t, start);
      ByHandlersStep(env, w, es, t);
      if !IsStale(env, w, es[0], t) { AlwaysReplaysIff(env, Next(env, w, es[0]), es[1..], t, start); }
    }
  }

  /** A PATCH whose caller resolved the very row it updates is never stale. */
  lemma FreshIsNotStale(env: Env, w: World, e: Event, t: Uuid)
    requires match WriteOf(env, w, e)
             case Some(x) => x.call.Tenant() == t && x.call.PatchCall? ==> x.row == Some(x.call.resolved)
             case None => true
    ensures !IsStale(env, w, e, t)
  {
  }

  predicate AsksAfresh(call: Call) {
    call.PatchCall? ==> call.req.name != Some(call.resolved.name) && call.req.settings != Some(call.resolved.settings)
  }

  /** Nor is there a stale write where nobody asks for what it had resolved. */
  lemma {:induction false} AfreshIsNotStale(env: Env, w: World, es: seq<Event>, t: Uuid)
    requires forall c | c in w.jobs :: AsksAfresh(w.jobs[c].call)
    requires forall i | 0 <= i < |es| && es[i].Start? :: AsksAfresh(es[i].call)
    ensures NoStaleWrites(env, w, es, t)
    decreases es
  {
    if es != [] {
      JobStep(env, w, es[0]);
      AfreshIsNotStale(env, Next(env, w, es[0]), es[1..], t);
    }
  }

  // ---- In the order the chain is read: by time and id.

  /** Reading the chain in order and folding its changes over `start` gives the
      tenant's current name and settings. */
  ghost predicate ReadReplays(w: World, t: Uuid, start: Profile) {
    t in w.store.tenants && Replay(start, Payloads(InOrder(Chain(w, t)))) == ProfileOf(w.store.tenants[t].tenant)
  }

  /** The payloads of the rows that a new row comes to stand in front of: those
      with a later key (`AuditChain.AfterInOrder`). */
  ghost function Overtaken(w: World, t: Uuid, k: ChainKey): seq<Json> {
    Payloads(After(InOrder(Chain(w, t)), k))
  }

  /** The event is a PATCH of the tenant whose row will be misread where it comes
      to stand. */
  ghost predicate IsMisread(env: Env, w: World, e: Event, t: Uuid) {
    match WriteOf(env, w, e)
    case Some(x) =>
      && x.call.Tenant() == t && x.call.PatchCall?
      && !ReadsRight(Overtaken(w, t, ChainKey(x.now, x.id)), x.call.resolved, x.row.value, x.call.req)
    case None => false
  }

  lemma PayloadsJoin(a: seq<Row>, b: seq<Row>)
    ensures Payloads(a + b) == Payloads(a) + Payloads(b)
  {
  }

  /** The chain as read, before and after a row is added to it. */
  lemma ReadingSplits(rows: seq<Row>, r: Row)
    ensures var s, k, p := InOrder(rows), r.Key(), [r.fields.payload];
            && Payloads(s) == Payloads(UpTo(s, k)) + Payloads(After(s, k))
            && Payloads(InOrder(rows + [r])) == Payloads(UpTo(s, k)) + (p + Payloads(After(s, k)))
  {
    var s, k := InOrder(rows), r.Key();
    InOrderAppend(rows, r);
    InsertSplits(r, s);
    PayloadsJoin(UpTo(s, k), After(s, k));
    PayloadsJoin(UpTo(s, k), [r] + After(s, k));
    PayloadsJoin([r], After(s, k));
    assert Payloads([r]) == [r.fields.payload];
  }

  /** What the payload of a write makes of the chain as read. */
  lemma PayloadReads(x: Write, tenants: map<Uuid, TenantRow>, p: Profile, front: seq<Json>, later: seq<Json>)
    requires x.Valid() && !x.call.WriteCall? && Replay(p, front + later) == ProfileOf(x.row.value)
    ensures var after := CallTenants(x.call, x.row, tenants)[x.call.Tenant()].tenant;
            Replay(p, front + ([x.Fields().payload] + later)) == ProfileOf(after)
            <==> !(x.call.PatchCall? && !ReadsRight(later, x.call.resolved, x.row.value, x.call.req))
  {
    match x.call
    case PatchCall(resolved, _, req) => PatchReadsIff(p, front, later, resolved, x.row.value, req);
    case DeleteCall(_, _, reason) => DeleteReads(p, front, later, reason);
  }

  lemma WriteReads(env: Env, w: World, e: Event, t: Uuid, start: Profile)
    requires WriteOf(env, w, e).Some? && WriteOf(env, w, e).value.call.Tenant() == t
    requires !WriteOf(env, w, e).value.call.WriteCall? && ReadReplays(w, t, start)
    ensures ReadReplays(Next(env, w, e), t, start) <==> !IsMisread(env, w, e, t)
  {
    var x := WriteOf(env, w, e).value;
    var r, s := NewRow(env.hash, env.role, x.seen, x.id, x.Fields()), InOrder(Chain(w, t));
    WritesAreWhole(env, w, e);
    ChainStep(env, w, e, t);
    ReadingSplits(Chain(w, t), r);
    PayloadReads(x, w.store.tenants, start, Payloads(UpTo(s, r.Key())), Payloads(After(s, r.Key())));
  }

  /** One event keeps the replay of the chain as read exact if and only if it is
      not a PATCH whose row is misread where it comes to stand. */
  lemma ReadStepIff(env: Env, w: World, es: seq<Event>, t: Uuid, start: Profile)
    requires es != [] && ByHandlers(w, t) && StartsHandlers(es, t) && ReadReplays(w, t, start)
    requires !(es[0].Edit? && es[0].t == t)
    ensures ReadReplays(Next(env, w, es[0]), t, start) <==> !IsMisread(env, w, es[0], t)
  {
    var e := es[0];
    var x := WriteOf(env, w, e);
    ByHandlersStep(env, w, es, t);
    if x.Some? && x.value.call.Tenant() == t {
      WriteReads(env, w, e, t, start);
    } else {
      ChainStep(env, w, e, t);
      OtherTenantsStay(env, w, e, t);
    }
  }

  ghost predicate NoneMisread(env: Env, w: World, es: seq<Event>, t: Uuid)
    decreases es
  {
    es == [] || (!IsMisread(env, w, es[0], t) && NoneMisread(env, Next(env, w, es[0]), es[1..], t))
  }

  /** It is exact now and after every event to come. */
  ghost predicate AlwaysReadReplays(env: Env, w: World, es: seq<Event>, t: Uuid, start: Profile)
    decreases es
  {
    ReadReplays(w, t, start) && (es == [] || AlwaysReadReplays(env, Next(env, w, es[0]), es[1..], t, start))
  }

  /** Audit replay, with the exact condition over whole runs: reading the chain in
      order and folding its changes gives the tenant's name and settings after
      every event if and only if no PATCH is ever misread: for each field, either
      the rows it comes to stand in front of record last what its UPDATE leaves,
      or they record nothing and it writes no stale value back. */
  lemma {:induction false} AlwaysReadReplaysIff(env: Env, w: World, es: seq<Event>, t: Uuid, start: Profile)
    requires ByHandlers(w, t) && StartsHandlers(es, t) && NoEdits(es, t) && ReadReplays(w, t, start)
    ensures AlwaysReadReplays(env, w, es, t, start) <==> NoneMisread(env, w, es, t)
    decreases es
  {
    if es != [] {
      ReadStepIff(env, w, es, t, start);
      ByHandlersStep(env, w, es, t);
      if !IsMisread(env, w, es[0], t) { AlwaysReadReplaysIff(env, Next(env, w, es[0]), es[1..], t, start); }
    }
  }

  /** A row that comes after all others is misread only if its PATCH is stale. */
  lemma LastIsMisreadIfStale(env: Env, w: World, e: Event, t: Uuid)
    requires OrderedStep(env, w, e, t)
    ensures IsMisread(env, w, e, t) <==> IsStale(env, w, e, t)
  {
    var x := WriteOf(env, w, e);
    if x.Some? && x.value.call.Tenant() == t && x.value.call.PatchCall? {
      AfterAllIsLast(Chain(w, t), ChainKey(x.value.now, x.value.id));
      ReadsRightAtTheEnd(x.value.call.resolved, x.value.row.value, x.value.call.req);
    }
  }

  lemma {:induction false} OrderedMisreadsStale(env: Env, w: World, es: seq<Event>, t: Uuid)
    requires Ordered(env, w, es, t)
    ensures NoneMisread(env, w, es, t) <==> NoStaleWrites(env, w, es, t)
    decreases es
  {
    if es != [] {
      LastIsMisreadIfStale(env, w, es[0], t);
      OrderedMisreadsStale(env, Next(env, w, es[0]), es[1..], t);
    }
  }

  lemma {:induction false} AlwaysMeansAtTheEnd(env: Env, w: World, es: seq<Event>, t: Uuid, start: Profile)
    requires AlwaysReadReplays(env, w, es, t, start)
    ensures ReadReplays(Run(env, w, es), t, start)
    decreases es
  {
    if es != [] { AlwaysMeansAtTheEnd(env, Next(env, w, es[0]), es[1..], t, start); }
  }

  /** Where the rows come in order staleness is all there is: through any such
      interleaving the chain as read replays after every event if and only if no
      PATCH writes back a stale value. */
  lemma AuditReplay(env: Env, w: World, es: seq<Event>, t: Uuid, start: Profile)
    requires ByHandlers(w, t) && StartsHandlers(es, t) && NoEdits(es, t) && ReadReplays(w, t, start)
    requires Ordered(env, w, es, t)
    ensures AlwaysReadReplays(env, w, es, t, start) <==> NoStaleWrites(env, w, es, t)
    ensures NoStaleWrites(env, w, es, t) ==> ReadReplays(Run(env, w, es), t, start)
  {
    AlwaysReadReplaysIff(env, w, es, t, start);
    OrderedMisreadsStale(env, w, es, t);
    if NoStaleWrites(env, w, es, t) { AlwaysMeansAtTheEnd(env, w, es, t, start); }
  }
}
