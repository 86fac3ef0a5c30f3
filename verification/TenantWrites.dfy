/** Tenant mutations and their audit rows as SERIALIZABLE transactions of many
    clients: attempts begin, take a snapshot, and commit or meet SQLSTATE 40001
    (`apps/api/src/handlers/tenants.rs`, `crates/flight-academy-db/src/audit.rs`). */
module TenantWrites {
  import opened Wrappers
  import opened Bytes
  import opened Json
  import opened AuditHash
  import opened AuditChain
  import opened Tenants

  // ---- The database.

  /** The committed rows, `events` in commit order; and what the server's
      predicate locks remember of the transaction behind each audit row: the key
      of the tip it had read. */
  datatype Store = Store(tenants: map<Uuid, TenantRow>, events: seq<Row>, tipsRead: map<ChainKey, Option<ChainKey>>)

  /** The hash, the connecting role, and whether a policy would let a role that
      is subject to row-level security insert at all. */
  datatype Env = Env(hash: RowHash, role: PoolRole, insertPolicy: bool)

  /** Any SQLSTATE but 40001. */
  datatype DbError = PermissionDenied | CheckViolation | UniqueViolation | OtherError

  const TENANT := Ascii("tenant")

  predicate InChain(r: Row, t: Uuid) {
    r.fields.chainKind == TENANT && r.fields.chainId == Some(t)
  }

  /** `WHERE chain_kind = 'tenant' AND chain_id = $1`. */
  function ChainOf(events: seq<Row>, t: Uuid): seq<Row> {
    if events == [] then []
    else
      var r := events[|events| - 1];
      ChainOf(events[..|events| - 1], t) + if InChain(r, t) then [r] else []
  }

  /** The row `deleted_at IS NULL` finds. */
  function Live(s: Store, t: Uuid): Option<Tenant> {
    if t in s.tenants && s.tenants[t].deletion.None? then Some(s.tenants[t].tenant) else None
  }

  predicate IsDeleted(s: Store, t: Uuid) {
    t in s.tenants && s.tenants[t].deletion.Some?
  }

  // ---- One attempt.

  /** What a caller asks of the database, with the tenant row it resolved
      beforehand outside any transaction. */
  datatype Call =
    | PatchCall(resolved: Tenant, actor: Uuid, req: PatchRequest)
    | DeleteCall(resolved: Tenant, actor: Uuid, reason: Bytes)
    | WriteCall(chain: Uuid, actorClass: Bytes, actorId: Option<Uuid>, payload: Json)
  {
    function Tenant(): Uuid {
      if WriteCall? then chain else resolved.id
    }
  }

  /** `Gone` is `Ok(None)`, answered 404; `Removed(false)` is a delete that
      found nothing to do, answered 204 like the one that did. */
  datatype Reply = Updated(tenant: Tenant) | Gone | Removed(matched: bool) | Written(row: Row)

  function NewFields(now: Utc, t: Uuid, actorClass: Bytes, actorId: Option<Uuid>, payload: Json): Fields {
    Fields(now, actorClass, actorId, Some(t), TENANT, Some(t), payload)
  }

  /** `write_tenant_audit_event_in_tx`: the tip is read from the transaction's
      snapshot, the primary key is checked against everything committed. */
  function AppendRow(env: Env, view: Store, s: Store, id: Uuid, f: Fields, t: Uuid): Result<Row, DbError> {
    if !env.role.canSelect || !env.role.canInsert then Err(PermissionDenied)
    else if !env.role.bypassesRls && !env.insertPolicy then Err(PermissionDenied)
    else if f.actorClass !in {Ascii("member"), Ascii("staff"), Ascii("system")} then Err(CheckViolation)
    else if !IsNewKey(ChainKey(f.occurredAt, id), s.events) then Err(UniqueViolation)
    else Ok(NewRow(env.hash, env.role, ChainOf(view.events, t), id, f))
  }

  /** The audit row a call appends when its UPDATE matches `row`. */
  function CallFields(call: Call, row: Option<Tenant>, now: Utc): Fields
    requires call.WriteCall? || row.Some?
  {
    match call
    case PatchCall(resolved, actor, req) =>
      NewFields(now, resolved.id, Ascii("member"), Some(actor), UpdatePayload(resolved, Patched(row.value, req)))
    case DeleteCall(resolved, actor, reason) =>
      NewFields(now, resolved.id, Ascii("member"), Some(actor), DeletePayload(reason))
    case WriteCall(chain, actorClass, actorId, payload) =>
      NewFields(now, chain, actorClass, actorId, payload)
  }

  /** The version an UPDATE gives the row. */
  function NewVersion(tenants: map<Uuid, TenantRow>, t: Uuid): nat {
    if t in tenants then tenants[t].version + 1 else 0
  }

  /** What a call's UPDATE makes of the tenant row it matches. */
  function CallTenants(call: Call, row: Option<Tenant>, tenants: map<Uuid, TenantRow>): map<Uuid, TenantRow>
    requires call.WriteCall? || row.Some?
  {
    match call
    case PatchCall(resolved, _, req) => tenants[resolved.id := TenantRow(Patched(row.value, req), None, NewVersion(tenants, resolved.id))]
    case DeleteCall(resolved, _, reason) => tenants[resolved.id := TenantRow(row.value, Some(reason), NewVersion(tenants, resolved.id))]
    case WriteCall(_, _, _, _) => tenants
  }

  function CallReply(call: Call, row: Option<Tenant>, r: Row): Reply
    requires call.WriteCall? || row.Some?
  {
    match call
    case PatchCall(_, _, req) => Updated(Patched(row.value, req))
    case DeleteCall(_, _, _) => Removed(true)
    case WriteCall(_, _, _, _) => Written(r)
  }

  /** The key of the row a tip query finds. */
  function TipKey(chain: seq<Row>): Option<ChainKey> {
    if Tip(chain).None? then None else Some(Tip(chain).value.Key())
  }

  /** `try_tenant_patch_once`, `try_tenant_delete_once`,
      `try_write_tenant_audit_event`: reads from the snapshot `view`, writes
      over the committed `s`, all or nothing. */
  function TryOnce(env: Env, view: Store, s: Store, call: Call, now: Utc, id: Uuid): (Store, Result<Reply, DbError>) {
    var row := Live(view, call.Tenant());
    if !call.WriteCall? && row.None? then (s, Ok(if call.PatchCall? then Gone else Removed(false)))
    else if call.PatchCall? && !NameFits(Patched(row.value, call.req).name) then (s, Err(CheckViolation))
    else
      match AppendRow(env, view, s, id, CallFields(call, row, now), call.Tenant())
      case Err(e) => (s, Err(e))
      case Ok(r) =>
        (Store(CallTenants(call, row, s.tenants), s.events + [r], s.tipsRead[r.Key() := TipKey(ChainOf(view.events, call.Tenant()))]),
         Ok(CallReply(call, row, r)))
  }

  /** The version of the tenant row that the UPDATE matches in the snapshot is
      still the current one: otherwise the UPDATE itself meets 40001. */
  predicate RowUnchanged(call: Call, view: Store, s: Store) {
    var t := call.Tenant();
    !call.WriteCall? && Live(view, t).Some? ==> t in s.tenants && s.tenants[t] == view.tenants[t]
  }

  /** A row with this key changes the answer of a tip query that found `tip`. */
  predicate ChangesTip(k: ChainKey, tip: Option<ChainKey>) {
    tip.None? || tip.value.Before(k)
  }

  /** Two writers of one chain that could not have run one after the other in
      either order: a row committed since the snapshot held `seen` changes what
      this transaction read, and the row of this transaction changes what that
      one's had read. */
  predicate Cycle(seen: seq<Row>, rows: seq<Row>, tipsRead: map<ChainKey, Option<ChainKey>>, k: ChainKey) {
    exists n | n in rows ::
      && n !in seen && n.Key() in tipsRead
      && ChangesTip(n.Key(), TipKey(seen)) && ChangesTip(k, tipsRead[n.Key()])
  }

  /** What serializable snapshot isolation insists on at COMMIT, at the least: no
      such pair of writers. Whatever else the server refuses is a `Conflict`. A
      transaction that matched nothing wrote nothing and may always commit. */
  predicate MayCommit(call: Call, view: Store, s: Store, k: ChainKey) {
    var t := call.Tenant();
    && RowUnchanged(call, view, s)
    && (call.WriteCall? || Live(view, t).Some? ==> !Cycle(ChainOf(view.events, t), ChainOf(s.events, t), s.tipsRead, k))
  }

  // ---- Many clients.

  datatype Failure = Serialization | Failed(error: DbError)

  /** Where a call's retry loop stands. `now()` is fixed at BEGIN; the snapshot
      is taken by the first query after it. */
  datatype Phase =
    | Ready
    | Begun(now: Utc)
    | Snapped(now: Utc, view: Store)
    | Done(result: Result<Reply, Failure>)

  datatype Job = Job(call: Call, tries: nat, phase: Phase)

  datatype World = World(store: Store, jobs: map<nat, Job>)

  const MAX_RETRIES := 3

  datatype Event =
    /** A request that passed the handler's checks, with the row its slug
        resolved to. */
    | Start(c: nat, call: Call)
    | Begin(c: nat, now: Utc)
    | Snap(c: nat)
    | Commit(c: nat, id: Uuid)
    /** SQLSTATE 40001, which may come at any time. */
    | Conflict(c: nat)
    /** Any other error. */
    | Fail(c: nat, error: DbError)
    /** Other programs: a tenant is created, edited or soft-deleted without an
        audit row. */
    | Add(tenant: Tenant)
    | Edit(t: Uuid, name: Bytes, settings: Json)
    | Remove(t: Uuid, reason: Bytes)

  /** What the handlers let through to their retry loop. */
  predicate Admissible(s: Store, call: Call) {
    match call
    case PatchCall(resolved, _, req) =>
      Live(s, resolved.id) == Some(resolved) && !req.IsNoop() && (req.name.Some? ==> NameFits(req.name.value))
    case DeleteCall(resolved, _, reason) =>
      Live(s, resolved.id) == Some(resolved) && reason != [] && CharCount(reason) <= 1000
    case WriteCall(_, _, _, _) => true
  }

  predicate InTransaction(p: Phase) {
    p.Begun? || p.Snapped?
  }

  /** 40001: the loop goes round again, or this was the last attempt. */
  function AfterConflict(j: Job): Job {
    if j.tries + 1 < MAX_RETRIES then j.(tries := j.tries + 1, phase := Ready)
    else j.(phase := Done(Err(Serialization)))
  }

  /** The statements after the snapshot, up to COMMIT. */
  function AfterCommit(env: Env, s: Store, j: Job, id: Uuid): (Store, Job)
    requires j.phase.Snapped?
  {
    var view := j.phase.view;
    var (s', r) := TryOnce(env, view, s, j.call, j.phase.now, id);
    if !RowUnchanged(j.call, view, s) || (r.Ok? && !MayCommit(j.call, view, s, ChainKey(j.phase.now, id)))
    then (s, AfterConflict(j))
    else (s', j.(phase := Done(if r.Ok? then Ok(r.value) else Err(Failed(r.error)))))
  }

  /** One event; one that cannot happen changes nothing. */
  function Next(env: Env, w: World, e: Event): World {
    var s := w.store;
    match e
    case Start(c, call) =>
      if c !in w.jobs && Admissible(s, call) then w.(jobs := w.jobs[c := Job(call, 0, Ready)]) else w
    case Begin(c, now) =>
      if c in w.jobs && w.jobs[c].phase.Ready? then w.(jobs := w.jobs[c := w.jobs[c].(phase := Begun(now))]) else w
    case Snap(c) =>
      if c in w.jobs && w.jobs[c].phase.Begun?
      then w.(jobs := w.jobs[c := w.jobs[c].(phase := Snapped(w.jobs[c].phase.now, s))]) else w
    case Commit(c, id) =>
      if c in w.jobs && w.jobs[c].phase.Snapped?
      then var (s', j) := AfterCommit(env, s, w.jobs[c], id); World(s', w.jobs[c := j]) else w
    case Conflict(c) =>
      if c in w.jobs && InTransaction(w.jobs[c].phase) then w.(jobs := w.jobs[c := AfterConflict(w.jobs[c])]) else w
    case Fail(c, error) =>
      if c in w.jobs && !w.jobs[c].phase.Done?
      then w.(jobs := w.jobs[c := w.jobs[c].(phase := Done(Err(Failed(error))))]) else w
    case Add(tenant) =>
      if tenant.id !in s.tenants then w.(store := s.(tenants := s.tenants[tenant.id := TenantRow(tenant, None, 0)])) else w
    case Edit(t, name, settings) =>
      if Live(s, t).Some?
      then w.(store := s.(tenants := s.tenants[t :=
             TenantRow(Live(s, t).value.(name := name, settings := settings), None, NewVersion(s.tenants, t))])) else w
    case Remove(t, reason) =>
      if Live(s, t).Some?
      then w.(store := s.(tenants := s.tenants[t := TenantRow(Live(s, t).value, Some(reason), NewVersion(s.tenants, t))])) else w
  }

  lemma SnapStep(env: Env, w: World, c: nat)
    requires c in w.jobs && w.jobs[c].phase.Begun?
    ensures Next(env, w, Snap(c)).store == w.store
    ensures Next(env, w, Snap(c)).jobs == w.jobs[c := w.jobs[c].(phase := Snapped(w.jobs[c].phase.now, w.store))]
  {
  }

  lemma BeginStep(env: Env, w: World, c: nat, now: Utc)
    requires c in w.jobs && w.jobs[c].phase.Ready?
    ensures Next(env, w, Begin(c, now)) == w.(jobs := w.jobs[c := w.jobs[c].(phase := Begun(now))])
  {
  }

  function Run(env: Env, w: World, es: seq<Event>): World
    decreases es
  {
    if es == [] then w else Run(env, Next(env, w, es[0]), es[1..])
  }

  /** An event of this call. */
  predicate EventOf(e: Event, c: nat) {
    match e
    case Start(d, _) => d == c
    case Begin(d, _) => d == c
    case Snap(d) => d == c
    case Commit(d, _) => d == c
    case Conflict(d) => d == c
    case Fail(d, _) => d == c
    case _ => false
  }

  // ---- What an event does to the committed rows.

  /** A committed write: the call, the tenant row its UPDATE matched, the chain
      its snapshot held, when its transaction began and the id of its audit row. */
  datatype Write = Write(c: nat, call: Call, row: Option<Tenant>, seen: seq<Row>, now: Utc, id: Uuid) {
    predicate Valid() { call.WriteCall? || row.Some? }
    function Fields(): Fields
      requires Valid()
    {
      CallFields(call, row, now)
    }
  }

  /** The write an event commits, if it commits one. */
  function WriteOf(env: Env, w: World, e: Event): (x: Option<Write>)
    ensures x.Some? ==> x.value.Valid()
  {
    if e.Commit? && e.c in w.jobs && w.jobs[e.c].phase.Snapped? then
      var j := w.jobs[e.c];
      var row := Live(j.phase.view, j.call.Tenant());
      if && MayCommit(j.call, j.phase.view, w.store, ChainKey(j.phase.now, e.id))
         && (j.call.WriteCall? || row.Some?)
         && TryOnce(env, j.phase.view, w.store, j.call, j.phase.now, e.id).1.Ok?
      then Some(Write(e.c, j.call, row, ChainOf(j.phase.view.events, j.call.Tenant()), j.phase.now, e.id))
      else None
    else None
  }

  /** An attempt that writes. */
  lemma OnceAppends(env: Env, view: Store, s: Store, call: Call, now: Utc, id: Uuid)
    requires (call.WriteCall? || Live(view, call.Tenant()).Some?) && TryOnce(env, view, s, call, now, id).1.Ok?
    ensures var row, seen := Live(view, call.Tenant()), ChainOf(view.events, call.Tenant());
            var r := NewRow(env.hash, env.role, seen, id, CallFields(call, row, now));
            && env.role.canSelect && env.role.canInsert && (env.role.bypassesRls || env.insertPolicy)
            && IsNewKey(ChainKey(now, id), s.events) && r.Key() == ChainKey(now, id)
            && TryOnce(env, view, s, call, now, id)
               == (Store(CallTenants(call, row, s.tenants), s.events + [r], s.tipsRead[ChainKey(now, id) := TipKey(seen)]),
                   Ok(CallReply(call, row, r)))
  {
  }

  /** A COMMIT that writes. */
  lemma CommitWrites(env: Env, w: World, e: Event)
    requires WriteOf(env, w, e).Some?
    ensures e.c in w.jobs && w.jobs[e.c].phase.Snapped?
    ensures var j, x := w.jobs[e.c], WriteOf(env, w, e).value;
            var (s, r) := TryOnce(env, j.phase.view, w.store, x.call, x.now, x.id);
            && x == Write(e.c, j.call, Live(j.phase.view, j.call.Tenant()), ChainOf(j.phase.view.events, j.call.Tenant()), j.phase.now, e.id)
            && RowUnchanged(j.call, j.phase.view, w.store)
            && r.Ok? && Next(env, w, e) == World(s, w.jobs[e.c := j.(phase := Done(Ok(r.value)))])
  {
  }

  /** A committed write changes the tenant row and appends the audit row
      together, from the state it commits in; no other event of a call changes
      either. */
  lemma WritesAreWhole(env: Env, w: World, e: Event)
    ensures var s, s' := w.store, Next(env, w, e).store;
            match WriteOf(env, w, e)
            case Some(x) =>
              && (!x.call.WriteCall? ==> Live(s, x.call.Tenant()) == x.row)
              && env.role.canSelect && env.role.canInsert && (env.role.bypassesRls || env.insertPolicy)
              && IsNewKey(ChainKey(x.now, x.id), s.events)
              && s'.tenants == CallTenants(x.call, x.row, s.tenants)
              && s'.events == s.events + [NewRow(env.hash, env.role, x.seen, x.id, x.Fields())]
              && s'.tipsRead == s.tipsRead[ChainKey(x.now, x.id) := TipKey(x.seen)]
            case None =>
              s'.events == s.events && s'.tipsRead == s.tipsRead && (e.Add? || e.Edit? || e.Remove? || s'.tenants == s.tenants)
  {
    if WriteOf(env, w, e).Some? {
      var x, view := WriteOf(env, w, e).value, w.jobs[e.c].phase.view;
      CommitWrites(env, w, e);
      OnceAppends(env, view, w.store, x.call, x.now, x.id);
    }
  }

  /** The write as it would be if it ran alone, in one step, at its COMMIT. */
  function Alone(env: Env, s: Store, x: Write): (Store, Result<Reply, DbError>) {
    TryOnce(env, s, s, x.call, x.now, x.id)
  }

  /** What lets a write through lets it through alone. */
  lemma AloneAppends(env: Env, view: Store, s: Store, x: Write)
    requires x.Valid() && TryOnce(env, view, s, x.call, x.now, x.id).1.Ok?
    requires x.row == Live(view, x.call.Tenant()) && (x.call.WriteCall? || Live(s, x.call.Tenant()) == x.row)
    ensures var seen := ChainOf(s.events, x.call.Tenant());
            var r := NewRow(env.hash, env.role, seen, x.id, CallFields(x.call, x.row, x.now));
            Alone(env, s, x) == (Store(CallTenants(x.call, x.row, s.tenants), s.events + [r], s.tipsRead[ChainKey(x.now, x.id) := TipKey(seen)]),
                                 Ok(CallReply(x.call, x.row, r)))
  {
  }

  /** Serializability, one commit at a time. What a committed write does to the
      tenant row, the answer but for links, and what its audit row says are
      those of running alone at COMMIT, whatever it saw. Its links and all are,
      if and only if the tip it read is still the tip. */
  lemma CommitsAsIfAlone(env: Env, w: World, e: Event)
    requires WriteOf(env, w, e).Some?
    ensures var x, w' := WriteOf(env, w, e).value, Next(env, w, e);
            var (s, r) := Alone(env, w.store, x);
            var n := |w.store.events|;
            && x.c in w'.jobs && w'.jobs[x.c].phase.Done? && w'.jobs[x.c].phase.result.Ok? && r.Ok?
            && s.tenants == w'.store.tenants && |s.events| == |w'.store.events| == n + 1
            && s.events[n].id == w'.store.events[n].id && s.events[n].fields == w'.store.events[n].fields
            && (Tip(x.seen) == Tip(ChainOf(w.store.events, x.call.Tenant())) ==>
                  (s, r) == (w'.store, Ok(w'.jobs[x.c].phase.result.value)))
            && (s == w'.store ==> TipKey(x.seen) == TipKey(ChainOf(w.store.events, x.call.Tenant())))
  {
    var x, w' := WriteOf(env, w, e).value, Next(env, w, e);
    CommitWrites(env, w, e);
    OnceAppends(env, w.jobs[e.c].phase.view, w.store, x.call, x.now, x.id);
    AloneAppends(env, w.jobs[e.c].phase.view, w.store, x);
    assert w'.store.tipsRead[ChainKey(x.now, x.id)] == TipKey(x.seen);
    assert Alone(env, w.store, x).0.tipsRead[ChainKey(x.now, x.id)] == TipKey(ChainOf(w.store.events, x.call.Tenant()));
  }
}
