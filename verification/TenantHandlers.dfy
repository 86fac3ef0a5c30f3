/** The PATCH and DELETE handlers, the audit writer and their retry loops as
    programs over the database, against the steps of `TenantWrites`. Whatever
    other clients commit in between is an argument. */
module TenantHandlers {
  import opened Wrappers
  import opened Bytes
  import opened Json
  import opened AuditHash
  import opened AuditChain
  import opened Tenants
  import opened TenantWrites
  import opened TenantAnswers

  // ---- One attempt and the loop, as values.

  /** How an attempt ends where the caller has no say: it reaches COMMIT, or the
      server ends it with 40001 or another error before that. */
  datatype Fate = ReachesCommit | Meets40001 | MeetsError(error: DbError)

  /** The surroundings of one attempt: what others commit before its snapshot
      and between snapshot and COMMIT, its `now()`, its row id, its fate. */
  datatype Round = Round(before: Store -> Store, during: Store -> Store, now: Utc, id: Uuid, fate: Fate) {
    function View(s: Store): Store { before(s) }
    function AtCommit(s: Store): Store { during(before(s)) }
  }

  type Script = nat -> Round

  /** One time round the loop: the same steps as `TenantWrites.Next` takes for
      BEGIN, snapshot and COMMIT. */
  function Attempt(env: Env, s: Store, j: Job, round: Round): (Store, Job) {
    match round.fate
    case ReachesCommit => AfterCommit(env, round.AtCommit(s), j.(phase := Snapped(round.now, round.View(s))), round.id)
    case Meets40001 => (round.AtCommit(s), AfterConflict(j))
    case MeetsError(e) => (round.AtCommit(s), j.(phase := Done(Err(Failed(e)))))
  }

  /** The loop from its `j.tries`-th attempt on. */
  function Retried(env: Env, s: Store, j: Job, script: Script): (Store, Job)
    requires j.tries < MAX_RETRIES
    decreases MAX_RETRIES - j.tries
  {
    var (s', j') := Attempt(env, s, j, script(j.tries));
    if j'.phase.Done? || j'.tries <= j.tries || j'.tries >= MAX_RETRIES then (s', j') else Retried(env, s', j', script)
  }

  /** What the others alone have made of the database after `n` attempts. */
  function Foreign(s: Store, script: Script, n: nat): Store {
    if n == 0 then s else script(n - 1).AtCommit(Foreign(s, script, n - 1))
  }

  /** Attempt `n` met 40001, at its COMMIT or before. */
  predicate Met40001(env: Env, s: Store, call: Call, script: Script, n: nat) {
    var j := Job(call, n, Ready);
    Attempt(env, Foreign(s, script, n), j, script(n)) == (Foreign(s, script, n + 1), AfterConflict(j))
  }

  /** Each kind of call has its own answers. */
  predicate ReplyFits(call: Call, reply: Reply) {
    match call
    case PatchCall(_, _, _) => reply.Updated? || reply.Gone?
    case DeleteCall(_, _, _) => reply.Removed?
    case WriteCall(_, _, _, _) => reply.Written?
  }

  /** An attempt that does not end well leaves the database to the others. */
  lemma AttemptIsAllOrNothing(env: Env, s: Store, j: Job, round: Round)
    requires !j.phase.Done? && j.tries < MAX_RETRIES
    ensures var (s', j') := Attempt(env, s, j, round);
            && j'.call == j.call
            && (j' == AfterConflict(j) || (j'.phase.Done? && j'.tries == j.tries && j'.phase.result != Err(Serialization)))
            && (!(j'.phase.Done? && j'.phase.result.Ok?) ==> s' == round.AtCommit(s))
            && (j'.phase.Done? && j'.phase.result.Ok? ==> ReplyFits(j.call, j'.phase.result.value))
  {
  }

  lemma {:induction false} RetriedFrom(env: Env, s: Store, call: Call, script: Script, n: nat)
    requires n < MAX_RETRIES
    requires forall i: nat | i < n :: Met40001(env, s, call, script, i)
    ensures var (s', j') := Retried(env, Foreign(s, script, n), Job(call, n, Ready), script);
            && j'.phase.Done? && j'.call == call && n <= j'.tries < MAX_RETRIES
            && (forall i: nat | i < j'.tries :: Met40001(env, s, call, script, i))
            && (s', j') == Attempt(env, Foreign(s, script, j'.tries), Job(call, j'.tries, Ready), script(j'.tries))
    decreases MAX_RETRIES - n
  {
    var j := Job(call, n, Ready);
    AttemptIsAllOrNothing(env, Foreign(s, script, n), j, script(n));
    if Attempt(env, Foreign(s, script, n), j, script(n)).1 == AfterConflict(j) && n + 1 < MAX_RETRIES {
      assert Met40001(env, s, call, script, n);
      RetriedFrom(env, s, call, script, n + 1);
    }
  }

  /** The retry loop, for every sequence of outcomes and all foreign commits: it
      stops within three attempts; all but the last met 40001; what it leaves is
      what the others did and the last attempt's effect on top, which is nothing
      unless the answer is Ok; and 40001 is the answer only when all three met
      it. */
  lemma RetryContract(env: Env, s: Store, call: Call, script: Script)
    ensures var (s', j') := Retried(env, s, Job(call, 0, Ready), script);
            var last := j'.tries;
            && j'.phase.Done? && last < 3
            && (forall i: nat | i < last :: Met40001(env, s, call, script, i))
            && (s', j') == Attempt(env, Foreign(s, script, last), Job(call, last, Ready), script(last))
            && (j'.phase.result.Err? ==> s' == Foreign(s, script, last + 1))
            && (j'.phase.result == Err(Serialization) ==> last + 1 == 3)
            && (j'.phase.result.Ok? ==> ReplyFits(call, j'.phase.result.value))
  {
    RetriedFrom(env, s, call, script, 0);
    var (s', j') := Retried(env, s, Job(call, 0, Ready), script);
    AttemptIsAllOrNothing(env, Foreign(s, script, j'.tries), Job(call, j'.tries, Ready), script(j'.tries));
  }

  // ---- What the answer means.

  /** The others take no row of `tenants` away and undo no deletion, as
      `TenantAnswers.RunKeeps` shows of every run. */
  ghost predicate Honest(script: Script, t: Uuid) {
    forall n: nat, s: Store :: Keeps(s, script(n).before(s), t) && Keeps(s, script(n).during(s), t)
  }

  lemma {:induction false} ForeignKeeps(s: Store, script: Script, n: nat, t: Uuid)
    requires Honest(script, t)
    ensures Keeps(s, Foreign(s, script, n), t)
  {
    if n > 0 {
      ForeignKeeps(s, script, n - 1, t);
      var r, f := script(n - 1), Foreign(s, script, n - 1);
      assert Keeps(f, r.before(f), t) && Keeps(r.before(f), r.during(r.before(f)), t);
    }
  }

  /** One more row, of this tenant, actor and payload, and no other change to the
      audit rows. */
  predicate OneRowMore(s: Store, s': Store, t: Uuid, actor: Uuid, payload: Json) {
    && |s'.events| == |s.events| + 1 && s.events <= s'.events
    && InChain(s'.events[|s.events|], t) && IsRecordOf(s'.events[|s.events|], actor, payload)
  }

  /** Every tenant but this one is as it was. */
  predicate OthersAsBefore(s: Store, s': Store, t: Uuid) {
    s'.tenants.Keys == s.tenants.Keys && forall u | u in s.tenants && u != t :: s'.tenants[u] == s.tenants[u]
  }

  /** The UPDATE of a PATCH against the row it finds, and its audit row. */
  predicate Patches(s: Store, s': Store, call: Call, after: Tenant)
    requires call.PatchCall?
  {
    var t := call.resolved.id;
    && Live(s, t).Some? && IsPatchOf(Live(s, t).value, after, call.req) && Live(s', t) == Some(after) && OthersAsBefore(s, s', t)
    && OneRowMore(s, s', t, call.actor, UpdatePayload(call.resolved, after))
  }

  /** The UPDATE of a DELETE against the row it finds, and its audit row. */
  predicate Deletes(s: Store, s': Store, call: Call)
    requires call.DeleteCall?
  {
    var t := call.resolved.id;
    && Live(s, t).Some? && t in s'.tenants
    && s'.tenants[t].tenant == Live(s, t).value && s'.tenants[t].deletion == Some(call.reason) && OthersAsBefore(s, s', t)
    && OneRowMore(s, s', t, call.actor, DeletePayload(call.reason))
  }

  /** The call has left nothing: the database is what the others made of it. */
  ghost predicate LeftNothing(s: Store, script: Script, s': Store) {
    exists n: nat :: 1 <= n <= 3 && s' == Foreign(s, script, n)
  }

  /** On top of what the others did the call has left its UPDATE and one audit
      row. */
  ghost predicate LeftPatch(s: Store, script: Script, s': Store, call: Call, after: Tenant)
    requires call.PatchCall?
  {
    exists n: nat :: 1 <= n <= 3 && Patches(Foreign(s, script, n), s', call, after)
  }

  ghost predicate LeftDelete(s: Store, script: Script, s': Store, call: Call)
    requires call.DeleteCall?
  {
    exists n: nat :: 1 <= n <= 3 && Deletes(Foreign(s, script, n), s', call)
  }

  /** The row carries the hash of the chain's last row in order, and makes the
      line one longer if it comes after all its rows. */
  predicate LinksTo(d: RowHash, chain: seq<Row>, r: Row) {
    UniqueKeys(chain) ==>
      && r.prev == (if chain == [] then None else Some(InOrder(chain)[|chain| - 1].hash))
      && (Linear(d, chain) && Exceeds(r.Key(), chain) ==> Linear(d, chain + [r]))
  }

  lemma NewRowLinks(d: RowHash, role: PoolRole, chain: seq<Row>, id: Uuid, f: Fields)
    ensures role.Fit() ==> LinksTo(d, chain, NewRow(d, role, chain, id, f))
  {
    if role.Fit() && UniqueKeys(chain) {
      if chain != [] { TipEndsTheChain(chain); }
      if Linear(d, chain) && Exceeds(ChainKey(f.occurredAt, id), chain) {
        AppendKeepsLinear(d, role, chain, id, f);
      }
    }
  }

  /** A standalone write: its row on top, linked to what its snapshot held, and
      nothing else. */
  ghost predicate Appends(env: Env, s: Store, s': Store, call: Call, view: Store, row: Row)
    requires call.WriteCall?
  {
    && s'.tenants == s.tenants && s'.events == s.events + [row]
    && row.fields == Fields(row.fields.occurredAt, call.actorClass, call.actorId, Some(call.chain), Ascii("tenant"), Some(call.chain), call.payload)
    && row.hash == env.hash(row.fields, row.prev)
    && (env.role.Fit() ==> LinksTo(env.hash, ChainOf(view.events, call.chain), row))
  }

  ghost predicate LeftRow(env: Env, s: Store, script: Script, s': Store, call: Call, row: Row)
    requires call.WriteCall?
  {
    exists n: nat :: 1 <= n <= 3 && Appends(env, Foreign(s, script, n), s', call, script(n - 1).View(Foreign(s, script, n - 1)), row)
  }

  lemma WriteMeans(env: Env, s: Store, j: Job, round: Round)
    requires j.phase.Ready? && j.call.WriteCall?
    ensures var (s', j') := Attempt(env, s, j, round);
            match j'.phase
            case Done(Ok(Written(row))) => Appends(env, round.AtCommit(s), s', j.call, round.View(s), row)
            case Done(Ok(_)) => false
            case _ => true
  {
    NewRowLinks(env.hash, env.role, ChainOf(round.View(s).events, j.call.chain), round.id, CallFields(j.call, None, round.now));
  }

  /** The standalone writer: an Ok leaves its one row, anything else nothing. */
  lemma WriterMeans(env: Env, s: Store, call: Call, script: Script)
    requires call.WriteCall?
    ensures var (s', j') := Retried(env, s, Job(call, 0, Ready), script);
            match j'.phase
            case Done(Ok(Written(row))) => LeftRow(env, s, script, s', call, row)
            case Done(Ok(_)) => false
            case Done(Err(_)) => LeftNothing(s, script, s')
            case _ => true
  {
    RetryContract(env, s, call, script);
    var (s', j') := Retried(env, s, Job(call, 0, Ready), script);
    var n := j'.tries;
    WriteMeans(env, Foreign(s, script, n), Job(call, n, Ready), script(n));
    assert Foreign(s, script, n + 1) == script(n).AtCommit(Foreign(s, script, n));
  }

  /** What an attempt that is answered Ok has found and left. */
  lemma AttemptMeans(env: Env, s: Store, j: Job, round: Round)
    requires !j.call.WriteCall? && round.fate.ReachesCommit?
    ensures var (s', j') := Attempt(env, s, j, round);
            var t := j.call.Tenant();
            match j'.phase
            case Done(Ok(Updated(after))) =>
              j.call.PatchCall? && HasRequested(j.call.req, after) && Patches(round.AtCommit(s), s', j.call, after)
            case Done(Ok(Gone)) => s' == round.AtCommit(s) && Live(round.View(s), t).None?
            case Done(Ok(Removed(matched))) =>
              if matched then j.call.DeleteCall? && IsDeleted(s', t) && Deletes(round.AtCommit(s), s', j.call)
              else s' == round.AtCommit(s) && Live(round.View(s), t).None?
            case _ => true
  {
  }

  /** What keeps an audit row out of the table, if anything does. */
  function Refusal(env: Env, s: Store, actorClass: Bytes, k: ChainKey): Option<DbError> {
    if !(env.role.canSelect && env.role.canInsert && (env.role.bypassesRls || env.insertPolicy)) then Some(PermissionDenied)
    else if actorClass != Ascii("member") && actorClass != Ascii("staff") && actorClass != Ascii("system") then Some(CheckViolation)
    else if exists row | row in s.events :: row.Key() == k then Some(UniqueViolation)
    else None
  }

  /** 40001 at attempt `j`: another one, or the answer after the third. */
  predicate GoesRound(j: Job, j': Job) {
    if j.tries < 2 then j' == Job(j.call, j.tries + 1, Ready) else j' == Job(j.call, j.tries, Done(Err(Serialization)))
  }

  /** The name the UPDATE of a PATCH would store does not fit its column. */
  predicate NameRefused(call: Call, row: Tenant) {
    call.PatchCall? && !(1 <= CharCount(if call.req.name.Some? then call.req.name.value else row.name) <= 200)
  }

  /** When an attempt that reaches its COMMIT is answered what: exactly when it
      finds nothing, goes round again, is refused, or has its effect. */
  lemma AttemptAnswers(env: Env, s: Store, j: Job, round: Round)
    requires j.phase.Ready? && j.tries < 3 && round.fate.ReachesCommit?
    ensures var (s', j') := Attempt(env, s, j, round);
            var view, at, t, k := round.View(s), round.AtCommit(s), j.call.Tenant(), ChainKey(round.now, round.id);
            var row := Live(view, t);
            var refusal := Refusal(env, at, if j.call.WriteCall? then j.call.actorClass else Ascii("member"), k);
            if !j.call.WriteCall? && row.None? then j'.phase == Done(Ok(if j.call.PatchCall? then Gone else Removed(false)))
            else if !j.call.WriteCall? && (t !in at.tenants || at.tenants[t] != view.tenants[t]) then GoesRound(j, j')
            else if row.Some? && NameRefused(j.call, row.value) then j'.phase == Done(Err(Failed(CheckViolation)))
            else if refusal.Some? then j'.phase == Done(Err(Failed(refusal.value)))
            else if Cycle(ChainOf(view.events, t), ChainOf(at.events, t), at.tipsRead, k) then GoesRound(j, j')
            else j'.phase.Done? && j'.phase.result.Ok? && (j'.phase.result.value.Updated? || j'.phase.result.value == Removed(true) || j'.phase.result.value.Written?)
  {
    assert IsNewKey(ChainKey(round.now, round.id), round.AtCommit(s).events)
      <==> !exists row | row in round.AtCommit(s).events :: row.Key() == ChainKey(round.now, round.id);
  }

  /** Where nothing was found, the tenant is deleted. */
  lemma NothingFound(s: Store, script: Script, n: nat, t: Uuid)
    requires Honest(script, t) && t in s.tenants && Live(script(n).View(Foreign(s, script, n)), t).None?
    ensures IsDeleted(Foreign(s, script, n + 1), t)
  {
    var r, f := script(n), Foreign(s, script, n);
    ForeignKeeps(s, script, n, t);
    assert Keeps(f, r.before(f), t) && Keeps(r.before(f), r.during(r.before(f)), t);
  }

  /** The whole call: what its caller may conclude. */
  lemma AnswerMeans(env: Env, s: Store, call: Call, script: Script)
    requires !call.WriteCall?
    ensures var (s', j') := Retried(env, s, Job(call, 0, Ready), script);
            var t := call.Tenant();
            match j'.phase
            case Done(Ok(Updated(after))) =>
              call.PatchCall? && HasRequested(call.req, after) && LeftPatch(s, script, s', call, after)
            case Done(Ok(Gone)) => LeftNothing(s, script, s') && (Honest(script, t) && t in s.tenants ==> IsDeleted(s', t))
            case Done(Ok(Removed(matched))) =>
              && call.DeleteCall? && (Honest(script, t) && t in s.tenants ==> IsDeleted(s', t))
              && (if matched then LeftDelete(s, script, s', call) else LeftNothing(s, script, s'))
            case Done(Err(_)) => LeftNothing(s, script, s')
            case _ => true
  {
    RetryContract(env, s, call, script);
    var (s', j') := Retried(env, s, Job(call, 0, Ready), script);
    var n, t := j'.tries, call.Tenant();
    if script(n).fate.ReachesCommit? { AttemptMeans(env, Foreign(s, script, n), Job(call, n, Ready), script(n)); }
    assert Foreign(s, script, n + 1) == script(n).AtCommit(Foreign(s, script, n));
    if Honest(script, t) && t in s.tenants && Live(script(n).View(Foreign(s, script, n)), t).None? {
      NothingFound(s, script, n, t);
    }
  }

  // ---- The same steps inside a run.

  lemma {:induction false} OthersLeaveJob(env: Env, w: World, es: seq<Event>, c: nat)
    requires c in w.jobs && forall i | 0 <= i < |es| :: !EventOf(es[i], c)
    ensures c in Run(env, w, es).jobs && Run(env, w, es).jobs[c] == w.jobs[c]
    decreases es
  {
    if es != [] {
      assert !EventOf(es[0], c);
      OthersLeaveJob(env, Next(env, w, es[0]), es[1..], c);
    }
  }

  /** The event an attempt's fate amounts to. */
  function Ending(c: nat, round: Round): Event {
    match round.fate
    case ReachesCommit => Commit(c, round.id)
    case Meets40001 => Conflict(c)
    case MeetsError(e) => Fail(c, e)
  }

  lemma EndingStep(env: Env, w: World, c: nat, j: Job, round: Round, s0: Store)
    requires c in w.jobs && j.phase.Ready? && w.store == round.AtCommit(s0)
    requires w.jobs[c] == j.(phase := Snapped(round.now, round.View(s0)))
    ensures var w' := Next(env, w, Ending(c, round));
            c in w'.jobs && (w'.store, w'.jobs[c]) == Attempt(env, s0, j, round)
  {
  }

  /** An attempt is what a call does in any run of `TenantWrites` from its BEGIN
      to its end, with the events of all others in between. */
  lemma AttemptIsPartOfARun(env: Env, w: World, c: nat, before: seq<Event>, during: seq<Event>, round: Round, w1: World, w2: World)
    requires c in w.jobs && w.jobs[c].phase.Ready?
    requires forall i | 0 <= i < |before| :: !EventOf(before[i], c)
    requires forall i | 0 <= i < |during| :: !EventOf(during[i], c)
    requires w1 == Run(env, Next(env, w, Begin(c, round.now)), before) && round.View(w.store) == w1.store
    requires w2 == Run(env, Next(env, w1, Snap(c)), during) && round.AtCommit(w.store) == w2.store
    ensures var w3 := Next(env, w2, Ending(c, round));
            c in w3.jobs && (w3.store, w3.jobs[c]) == Attempt(env, w.store, w.jobs[c], round)
  {
    BeginStep(env, w, c, round.now);
    OthersLeaveJob(env, Next(env, w, Begin(c, round.now)), before, c);
    SnapStep(env, w1, c);
    OthersLeaveJob(env, Next(env, w1, Snap(c)), during, c);
    EndingStep(env, w2, c, w.jobs[c], round, w.store);
  }

  // ---- The programs.

  datatype Response =
    | Ok200(tenant: Tenant)
    | NoContent204
    | Validation400(field: string)
    | Forbidden403
    | NotFound404
    | Internal500

  /** `patch_diff` fills a map: a member for each field that differs and for no
      other, and an auditor who applies it to `before` gets `after`. */
  method DiffTenants(before: Tenant, after: Tenant) returns (changes: map<Bytes, Json>)
    ensures changes == PatchDiff(before, after)
    ensures changes.Keys == (if before.name != after.name then {NAME} else {}) + (if before.settings != after.settings then {SETTINGS} else {})
    ensures var payload := Object(map[ACTION := String(Ascii("tenant.update")), CHANGES := Object(changes)]);
            ApplyPayload(ProfileOf(before), payload) == ProfileOf(after)
  {
    KeysDiffer();
    UpdatePayloadReads(before, after);
    changes := map[];
    if before.name != after.name {
      changes := changes[NAME := FromTo(String(before.name), String(after.name))];
    }
    if before.settings != after.settings {
      changes := changes[SETTINGS := FromTo(before.settings, after.settings)];
    }
  }

  /** What `verify_pool_role` is for: with the policies of this schema a role can
      append to a chain at all, and then to its tip, exactly when it is fit. */
  lemma FitIff(env: Env, view: Store, s: Store, id: Uuid, f: Fields, t: Uuid)
    requires !env.insertPolicy && f.actorClass == Ascii("member") && IsNewKey(ChainKey(f.occurredAt, id), s.events)
    ensures env.role.Fit() <==> AppendRow(env, view, s, id, f, t).Ok?
    ensures env.role.Fit() <==> env.role.canInsert && env.role.canSelect && env.role.bypassesRls
  {
  }

  /** The calls that runs start with are those the handlers pass on. */
  lemma AdmissibleIff(s: Store, resolved: Tenant, actor: Uuid, req: PatchRequest, reason: Bytes)
    ensures Admissible(s, PatchCall(resolved, actor, req)) <==>
              && resolved.id in s.tenants && s.tenants[resolved.id].deletion.None? && s.tenants[resolved.id].tenant == resolved
              && req != PatchRequest(None, None) && (req.name.Some? ==> 1 <= CharCount(req.name.value) <= 200)
    ensures Admissible(s, DeleteCall(resolved, actor, Trim(reason))) <==>
              && resolved.id in s.tenants && s.tenants[resolved.id].deletion.None? && s.tenants[resolved.id].tenant == resolved
              && 1 <= |Trim(reason)| && CharCount(Trim(reason)) <= 1000
  {
  }

  class Database {
    const env: Env
    var store: Store

    constructor (env: Env)
      ensures this.env == env && store == Store(map[], [], map[])
    {
      this.env := env;
      store := Store(map[], [], map[]);
    }

    /** `write_tenant_audit_event_in_tx`: the row it inserts into the caller's
        transaction. */
    method WriteTenantAuditEventInTx(
      view: Store, actorClass: Bytes, actorId: Option<Uuid>, t: Uuid, payload: Json, now: Utc, id: Uuid)
      returns (r: Result<Row, DbError>)
      ensures r == AppendRow(env, view, store, id, NewFields(now, t, actorClass, actorId, payload), t)
      // It is refused exactly for want of a privilege, a policy, a known actor class or a new key.
      ensures r.Ok? <==>
                && env.role.canSelect && env.role.canInsert && (env.role.bypassesRls || env.insertPolicy)
                && actorClass in {Ascii("member"), Ascii("staff"), Ascii("system")}
                && IsNewKey(ChainKey(now, id), store.events)
      ensures r == Err(PermissionDenied) <==> !(env.role.canSelect && env.role.canInsert && (env.role.bypassesRls || env.insertPolicy))
      ensures r.Err? ==> r.error in {PermissionDenied, CheckViolation, UniqueViolation}
      ensures r == Err(UniqueViolation) ==> !IsNewKey(ChainKey(now, id), store.events)
      ensures r == Err(CheckViolation) ==> actorClass !in {Ascii("member"), Ascii("staff"), Ascii("system")}
      // It says what it was given, about this tenant.
      ensures r.Ok? ==> r.value.id == id && r.value.fields == Fields(now, actorClass, actorId, Some(t), Ascii("tenant"), Some(t), payload)
      // It is linked to the last row of the chain in order, and extends a line by one.
      ensures r.Ok? ==> r.value.Key() == ChainKey(now, id) && InChain(r.value, t) && r.value.hash == env.hash(r.value.fields, r.value.prev)
      ensures r.Ok? && env.role.Fit() ==> LinksTo(env.hash, ChainOf(view.events, t), r.value)
    {
      NewRowLinks(env.hash, env.role, ChainOf(view.events, t), id, NewFields(now, t, actorClass, actorId, payload));
      if !env.role.canSelect {
        return Err(PermissionDenied);
      }
      var prevHash := TipHash(env.role, ChainOf(view.events, t));
      var fields := NewFields(now, t, actorClass, actorId, payload);
      var payloadHash := env.hash(fields, prevHash);
      if !env.role.canInsert || (!env.role.bypassesRls && !env.insertPolicy) {
        return Err(PermissionDenied);
      }
      if actorClass != Ascii("member") && actorClass != Ascii("staff") && actorClass != Ascii("system") {
        return Err(CheckViolation);
      }
      if exists row | row in store.events :: row.Key() == ChainKey(now, id) {
        return Err(UniqueViolation);
      }
      return Ok(Row(id, fields, prevHash, payloadHash));
    }

    /** COMMIT of a transaction that appends to a chain. */
    method CommitWrite(t: Uuid, view: Store, tenants: map<Uuid, TenantRow>, row: Row) returns (ok: bool)
      modifies this`store
      ensures ok <==> !Cycle(ChainOf(view.events, t), ChainOf(old(store).events, t), old(store).tipsRead, row.Key())
      ensures store == if ok then Store(tenants, old(store).events + [row], old(store).tipsRead[row.Key() := TipKey(ChainOf(view.events, t))])
                       else old(store)
    {
      var seen := ChainOf(view.events, t);
      ok := !Cycle(seen, ChainOf(store.events, t), store.tipsRead, row.Key());
      if ok {
        store := Store(tenants, store.events + [row], store.tipsRead[row.Key() := TipKey(seen)]);
      }
    }

    method TryTenantPatchOnce(resolved: Tenant, actor: Uuid, req: PatchRequest, round: Round, ghost j: Job)
      returns (r: Result<Option<Tenant>, Failure>)
      requires j.call == PatchCall(resolved, actor, req) && round.fate.ReachesCommit?
      modifies this`store
      ensures store == Attempt(env, old(store), j, round).0
      ensures Attempt(env, old(store), j, round).1 ==
              match r
              case Ok(updated) => j.(phase := Done(Ok(if updated.Some? then Updated(updated.value) else Gone)))
              case Err(Failed(e)) => j.(phase := Done(Err(Failed(e))))
              case Err(Serialization) => AfterConflict(j)
      ensures match r
              case Ok(Some(after)) => Patches(round.AtCommit(old(store)), store, j.call, after)
              case _ => store == round.AtCommit(old(store))
    {
      AttemptMeans(env, store, j, round);
      var view := round.before(store);
      store := round.during(view);
      var t := resolved.id;
      var row := Live(view, t);
      if row.None? {
        return Ok(None);
      }
      if t !in store.tenants || store.tenants[t] != view.tenants[t] {
        return Err(Serialization);
      }
      var updated := Patched(row.value, req);
      if !NameFits(updated.name) {
        return Err(Failed(CheckViolation));
      }
      var changes := DiffTenants(resolved, updated);
      var payload := Object(map[ACTION := String(Ascii("tenant.update")), CHANGES := Object(changes)]);
      var event := WriteTenantAuditEventInTx(view, Ascii("member"), Some(actor), t, payload, round.now, round.id);
      if event.Err? {
        return Err(Failed(event.error));
      }
      var ok := CommitWrite(t, view, store.tenants[t := TenantRow(updated, None, NewVersion(store.tenants, t))], event.value);
      return if ok then Ok(Some(updated)) else Err(Serialization);
    }

    /** The result only says whether there was something to delete; the caller
        answers 204 either way. */
    method TryTenantDeleteOnce(resolved: Tenant, actor: Uuid, reason: Bytes, round: Round, ghost j: Job)
      returns (r: Result<bool, Failure>)
      requires j.call == DeleteCall(resolved, actor, reason) && round.fate.ReachesCommit?
      modifies this`store
      ensures store == Attempt(env, old(store), j, round).0
      ensures Attempt(env, old(store), j, round).1 ==
              match r
              case Ok(matched) => j.(phase := Done(Ok(Removed(matched))))
              case Err(Failed(e)) => j.(phase := Done(Err(Failed(e))))
              case Err(Serialization) => AfterConflict(j)
      ensures if r == Ok(true) then Deletes(round.AtCommit(old(store)), store, j.call) else store == round.AtCommit(old(store))
    {
      var view := round.before(store);
      store := round.during(view);
      var t := resolved.id;
      var row := Live(view, t);
      if row.None? {
        return Ok(false);
      }
      if t !in store.tenants || store.tenants[t] != view.tenants[t] {
        return Err(Serialization);
      }
      var payload := Object(map[ACTION := String(Ascii("tenant.delete")), REASON := String(reason)]);
      var event := WriteTenantAuditEventInTx(view, Ascii("member"), Some(actor), t, payload, round.now, round.id);
      if event.Err? {
        return Err(Failed(event.error));
      }
      var ok := CommitWrite(t, view, store.tenants[t := TenantRow(row.value, Some(reason), NewVersion(store.tenants, t))], event.value);
      return if ok then Ok(true) else Err(Serialization);
    }

    method TryWriteTenantAuditEvent(t: Uuid, actorClass: Bytes, actorId: Option<Uuid>, payload: Json, round: Round, ghost j: Job)
      returns (r: Result<Row, Failure>)
      requires j.call == WriteCall(t, actorClass, actorId, payload) && round.fate.ReachesCommit?
      modifies this`store
      ensures store == Attempt(env, old(store), j, round).0
      ensures Attempt(env, old(store), j, round).1 ==
              match r
              case Ok(row) => j.(phase := Done(Ok(Written(row))))
              case Err(Failed(e)) => j.(phase := Done(Err(Failed(e))))
              case Err(Serialization) => AfterConflict(j)
      ensures match r
              case Ok(row) => Appends(env, round.AtCommit(old(store)), store, j.call, round.View(old(store)), row)
              case _ => store == round.AtCommit(old(store))
    {
      var view := round.before(store);
      store := round.during(view);
      var event := WriteTenantAuditEventInTx(view, actorClass, actorId, t, payload, round.now, round.id);
      if event.Err? {
        return Err(Failed(event.error));
      }
      var ok := CommitWrite(t, view, store.tenants, event.value);
      return if ok then Ok(event.value) else Err(Serialization);
    }

    /** One attempt of whatever the loop runs. */
    method TryCall(call: Call, round: Round, ghost j: Job) returns (r: Result<Reply, Failure>)
      requires j.call == call
      modifies this`store
      ensures store == Attempt(env, old(store), j, round).0
      ensures Attempt(env, old(store), j, round).1 == if r == Err(Serialization) then AfterConflict(j) else j.(phase := Done(r))
    {
      if round.fate.Meets40001? {
        store := round.during(round.before(store));
        return Err(Serialization);
      }
      if round.fate.MeetsError? {
        store := round.during(round.before(store));
        return Err(Failed(round.fate.error));
      }
      match call
      case PatchCall(resolved, actor, req) =>
        var updated := TryTenantPatchOnce(resolved, actor, req, round, j);
        return if updated.Err? then Err(updated.error)
               else Ok(if updated.value.Some? then Updated(updated.value.value) else Gone);
      case DeleteCall(resolved, actor, reason) =>
        var matched := TryTenantDeleteOnce(resolved, actor, reason, round, j);
        return if matched.Err? then Err(matched.error) else Ok(Removed(matched.value));
      case WriteCall(t, actorClass, actorId, payload) =>
        var row := TryWriteTenantAuditEvent(t, actorClass, actorId, payload, round, j);
        return if row.Err? then Err(row.error) else Ok(Written(row.value));
    }

    /** `retry_serializable`, and the loop of `write_tenant_audit_event`. */
    method RetrySerializable(call: Call, script: Script) returns (r: Result<Reply, Failure>)
      modifies this`store
      ensures var (s, j) := Retried(env, old(store), Job(call, 0, Ready), script);
              store == s && j.phase == Done(r)
      ensures r.Ok? ==> ReplyFits(call, r.value)
    {
      ghost var start := store;
      RetryContract(env, start, call, script);
      for attempt := 0 to MAX_RETRIES
        invariant attempt < MAX_RETRIES
        invariant Retried(env, store, Job(call, attempt, Ready), script) == Retried(env, start, Job(call, 0, Ready), script)
      {
        r := TryCall(call, script(attempt), Job(call, attempt, Ready));
        if r == Err(Serialization) && attempt + 1 < MAX_RETRIES {
          continue;
        }
        return r;
      }
      assert false;  // unreachable!
    }
  
    method WriteTenantAuditEvent(t: Uuid, actorClass: Bytes, actorId: Option<Uuid>, payload: Json, script: Script)
      returns (r: Result<Row, Failure>)
      modifies this`store
      ensures var (s, j) := Retried(env, old(store), Job(WriteCall(t, actorClass, actorId, payload), 0, Ready), script);
              store == s && j.phase == Done(if r.Ok? then Ok(Written(r.value)) else Err(r.error))
      ensures match r
              case Ok(row) => LeftRow(env, old(store), script, store, WriteCall(t, actorClass, actorId, payload), row)
              case Err(_) => LeftNothing(old(store), script, store)
    {
      WriterMeans(env, store, WriteCall(t, actorClass, actorId, payload), script);
      var written := RetrySerializable(WriteCall(t, actorClass, actorId, payload), script);
      return if written.Err? then Err(written.error) else Ok(written.value.row);
    }

    // ---- The handlers. `resolved` is what the slug lookup found, `permitted`
    // what the policy decided.

    method TenantPatch(resolved: Option<Tenant>, permitted: bool, actor: Uuid, req: PatchRequest, script: Script)
      returns (r: Response)
      modifies this`store
      ensures resolved.None? ==> r == NotFound404 && store == old(store)
      ensures resolved.Some? && !permitted ==> r == Forbidden403 && store == old(store)
      ensures resolved.Some? && permitted && req == PatchRequest(None, None) ==> r == Ok200(resolved.value) && store == old(store)
      ensures resolved.Some? && permitted && req.name.Some? && !(1 <= CharCount(req.name.value) <= 200) ==>
                r == Validation400("name") && store == old(store)
      ensures resolved.Some? && permitted && req != PatchRequest(None, None) && (req.name.Some? ==> 1 <= CharCount(req.name.value) <= 200) ==>
                var (s, j) := Retried(env, old(store), Job(PatchCall(resolved.value, actor, req), 0, Ready), script);
                && store == s
                && r == match j.phase
                        case Done(Ok(Updated(t))) => Ok200(t)
                        case Done(Ok(Gone)) => NotFound404
                        case _ => Internal500
      // 200 shows the row as it was left: what was asked for, and all else as the UPDATE found it;
      // one audit row records where it differs from the row resolved.
      ensures r.Ok200? && req != PatchRequest(None, None) ==>
                && HasRequested(req, r.tenant)
                && LeftPatch(old(store), script, store, PatchCall(resolved.value, actor, req), r.tenant)
      // 404 of a tenant that had been resolved: it is deleted, and not by this call.
      ensures r.NotFound404? && resolved.Some? ==>
                && LeftNothing(old(store), script, store)
                && (Honest(script, resolved.value.id) && resolved.value.id in old(store).tenants ==> IsDeleted(store, resolved.value.id))
      ensures r.Internal500? ==> LeftNothing(old(store), script, store)
    {
      if resolved.None? {
        return NotFound404;
      }
      if !permitted {
        return Forbidden403;
      }
      if req.IsNoop() {
        return Ok200(resolved.value);
      }
      if req.name.Some? {
        var len := CharCount(req.name.value);
        if !(1 <= len <= 200) {
          return Validation400("name");
        }
      }
      AnswerMeans(env, store, PatchCall(resolved.value, actor, req), script);
      var updated := RetrySerializable(PatchCall(resolved.value, actor, req), script);
      if updated.Err? {
        return Internal500;
      }
      return if updated.value.Updated? then Ok200(updated.value.tenant) else NotFound404;
    }

    method TenantDelete(resolved: Option<Tenant>, permitted: bool, actor: Uuid, deletionReason: Bytes, script: Script)
      returns (r: Response)
      modifies this`store
      ensures resolved.None? ==> r == NotFound404 && store == old(store)
      ensures resolved.Some? && !permitted ==> r == Forbidden403 && store == old(store)
      ensures resolved.Some? && permitted && !(1 <= |Trim(deletionReason)| && CharCount(Trim(deletionReason)) <= 1000) ==>
                r == Validation400("deletion_reason") && store == old(store)
      ensures resolved.Some? && permitted && 1 <= |Trim(deletionReason)| && CharCount(Trim(deletionReason)) <= 1000 ==>
                var call := DeleteCall(resolved.value, actor, Trim(deletionReason));
                var (s, j) := Retried(env, old(store), Job(call, 0, Ready), script);
                && store == s
                && r == match j.phase
                        case Done(Ok(Removed(_))) => NoContent204
                        case _ => Internal500
      // 204: the tenant is deleted, by this call with one audit row, or before it with none.
      ensures r.NoContent204? ==>
                && (Honest(script, resolved.value.id) && resolved.value.id in old(store).tenants ==> IsDeleted(store, resolved.value.id))
                && (|| LeftDelete(old(store), script, store, DeleteCall(resolved.value, actor, Trim(deletionReason)))
                    || LeftNothing(old(store), script, store))
      ensures r.Internal500? ==> LeftNothing(old(store), script, store)
    {
      if resolved.None? {
        return NotFound404;
      }
      if !permitted {
        return Forbidden403;
      }
      var reason := Trim(deletionReason);
      if reason == [] {
        return Validation400("deletion_reason");
      }
      if CharCount(reason) > 1000 {
        return Validation400("deletion_reason");
      }
      AnswerMeans(env, store, DeleteCall(resolved.value, actor, reason), script);
      var removed := RetrySerializable(DeleteCall(resolved.value, actor, reason), script);
      return if removed.Err? then Internal500 else NoContent204;
    }
  }
}
