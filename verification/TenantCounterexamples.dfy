/** Four concrete runs: a serial one whose chain forks because a writer overtook
    another between BEGIN and its first query; one whose chain does not replay
    because a PATCH wrote back what it had resolved earlier; one whose chain does
    not replay because a PATCH was overtaken; and one in which a PATCH is
    recorded as having changed what somebody else had changed. */
module TenantCounterexamples {
  import opened Wrappers
  import opened Bytes
  import opened Json
  import opened AuditHash
  import opened AuditChain
  import opened Tenants
  import opened TenantWrites
  import opened TenantRuns
  import opened TenantHistory
  import opened TenantReplay

  lemma RunStep(env: Env, w: World, e: Event, es: seq<Event>)
    ensures Run(env, w, [e] + es) == Run(env, Next(env, w, e), es)
  {
    assert ([e] + es)[1..] == es;
  }

  /** COMMIT right after the snapshot, with nobody in between. */
  lemma CommitAlone(env: Env, w: World, c: nat, id: Uuid)
    requires c in w.jobs && w.jobs[c].phase.Snapped? && w.jobs[c].phase.view == w.store
    ensures var j := w.jobs[c];
            var (s, r) := TryOnce(env, w.store, w.store, j.call, j.phase.now, id);
            Next(env, w, Commit(c, id)) == World(s, w.jobs[c := j.(phase := Done(if r.Ok? then Ok(r.value) else Err(Failed(r.error))))])
  {
  }

  /** An undisturbed attempt from its snapshot to its commit. */
  lemma SoloAttempt(env: Env, w: World, c: nat, id: Uuid, es: seq<Event>)
    requires c in w.jobs && w.jobs[c].phase.Begun?
    ensures var j := w.jobs[c];
            var (s, r) := TryOnce(env, w.store, w.store, j.call, j.phase.now, id);
            var w' := World(s, w.jobs[c := j.(phase := Done(if r.Ok? then Ok(r.value) else Err(Failed(r.error))))]);
            Run(env, w, [Snap(c)] + ([Commit(c, id)] + es)) == Run(env, w', es)
  {
    RunStep(env, w, Snap(c), [Commit(c, id)] + es);
    SnapStep(env, w, c);
    var w1 := Next(env, w, Snap(c));
    RunStep(env, w1, Commit(c, id), es);
    CommitAlone(env, w1, c, id);
    var done := Next(env, w1, Commit(c, id)).jobs[c];
    assert w1.jobs[c := done] == w.jobs[c := done];
  }

  /** The database with one more row, whose writer read the tip that was there. */
  function Appended(s: Store, r: Row, t: Uuid): Store {
    Store(s.tenants, s.events + [r], s.tipsRead[r.Key() := TipKey(ChainOf(s.events, t))])
  }

  /** A standalone write, undisturbed. */
  lemma SoloWrite(env: Env, w: World, c: nat, id: Uuid, es: seq<Event>)
    requires c in w.jobs && w.jobs[c].phase.Begun? && w.jobs[c].call.WriteCall? && env.role.Fit()
    requires w.jobs[c].call.actorClass == Ascii("member") && IsNewKey(ChainKey(w.jobs[c].phase.now, id), w.store.events)
    ensures var j := w.jobs[c];
            var r := NewRow(env.hash, env.role, ChainOf(w.store.events, j.call.chain), id, CallFields(j.call, None, j.phase.now));
            var w' := World(Appended(w.store, r, j.call.chain), w.jobs[c := j.(phase := Done(Ok(Written(r))))]);
            Run(env, w, [Snap(c)] + ([Commit(c, id)] + es)) == Run(env, w', es)
  {
    SoloAttempt(env, w, c, id, es);
  }

  // Three standalone writers of one chain: 1 begins after 0 and commits before
  // it, 2 comes last.

  function RowOf(env: Env, call: Call, chain: seq<Row>, now: Utc, id: Uuid): Row
    requires call.WriteCall?
  {
    NewRow(env.hash, env.role, chain, id, CallFields(call, None, now))
  }

  function DoneWith(call: Call, r: Row): Job {
    Job(call, 0, Done(Ok(Written(r))))
  }

  lemma Started(env: Env, call: Call, t1: Utc, t2: Utc, rest: seq<Event>)
    requires call.WriteCall?
    ensures Run(env, EMPTY, [Start(0, call)] + ([Start(1, call)] + ([Start(2, call)] + ([Begin(0, t1)] + ([Begin(1, t2)] + rest)))))
            == Run(env, World(EMPTY.store, map[0 := Job(call, 0, Begun(t1)), 1 := Job(call, 0, Begun(t2)), 2 := Job(call, 0, Ready)]), rest)
  {
    var ready := Job(call, 0, Ready);
    var r4, r3 := [Begin(1, t2)] + rest, [Begin(0, t1)] + ([Begin(1, t2)] + rest);
    RunStep(env, EMPTY, Start(0, call), [Start(1, call)] + ([Start(2, call)] + r3));
    var a := World(EMPTY.store, map[0 := ready]);
    RunStep(env, a, Start(1, call), [Start(2, call)] + r3);
    var b := World(EMPTY.store, map[0 := ready, 1 := ready]);
    RunStep(env, b, Start(2, call), r3);
    var c := World(EMPTY.store, map[0 := ready, 1 := ready, 2 := ready]);
    RunStep(env, c, Begin(0, t1), r4);
    var d := World(EMPTY.store, map[0 := ready.(phase := Begun(t1)), 1 := ready, 2 := ready]);
    assert Next(env, c, Begin(0, t1)) == d;
    RunStep(env, d, Begin(1, t2), rest);
    assert Next(env, d, Begin(1, t2)).jobs == map[0 := Job(call, 0, Begun(t1)), 1 := Job(call, 0, Begun(t2)), 2 := ready];
  }

  lemma ChainOfTwo(y: Row, x: Row, t: Uuid)
    requires InChain(y, t) && InChain(x, t)
    ensures ChainOf([y, x], t) == [y, x]
  {
    ChainOfAppend([], y, t);
    ChainOfAppend([y], x, t);
    assert [] + [y] == [y] && [y] + [x] == [y, x];
  }

  lemma ThirdCommitsLast(env: Env, call: Call, id: Uuid, t3: Utc, w: World, y: Row, x: Row)
    requires env.role.Fit() && call.WriteCall? && call.actorClass == Ascii("member")
    requires w.store.events == [y, x] && 2 in w.jobs && w.jobs[2] == Job(call, 0, Ready)
    requires InChain(y, call.chain) && InChain(x, call.chain) && y.Key().at.Earlier(t3) && x.Key().at.Earlier(t3)
    ensures Chain(Run(env, w, [Begin(2, t3)] + ([Snap(2)] + ([Commit(2, id)] + []))), call.chain)
            == [y, x, RowOf(env, call, [y, x], t3, id)]
  {
    var w', z := w.(jobs := w.jobs[2 := Job(call, 0, Begun(t3))]), RowOf(env, call, [y, x], t3, id);
    RunStep(env, w, Begin(2, t3), [Snap(2)] + ([Commit(2, id)] + []));
    BeginStep(env, w, 2, t3);
    ChainOfTwo(y, x, call.chain);
    SoloWrite(env, w', 2, id, []);
    ThreeRows(y, x, z, call.chain);
  }

  lemma ThreeRows(y: Row, x: Row, z: Row, t: Uuid)
    requires InChain(y, t) && InChain(x, t) && InChain(z, t)
    ensures ChainOf([y, x] + [z], t) == [y, x, z]
  {
    ChainOfTwo(y, x, t);
    ChainOfAppend([y, x], z, t);
  }

  lemma TwoInOrder(x: Row, y: Row)
    requires x.Key().Before(y.Key()) && !y.Key().Before(x.Key())
    ensures InOrder([y, x]) == [x, y]
  {
    assert [y, x][..1] == [y] && [y][..0] == [] && Insert(y, []) == [y];
    assert [y][..0] == [] && Insert(x, []) == [x] && [x] + [y] == [x, y];
  }

  lemma StayInOrder(x: Row, y: Row)
    requires x.Key().Before(y.Key())
    ensures InOrder([x, y]) == [x, y]
  {
    assert [x, y][..1] == [x] && [x][..0] == [] && Insert(x, []) == [x] && [x] + [y] == [x, y];
  }

  lemma InsertLast(z: Row, s: seq<Row>)
    requires s != [] && s[|s| - 1].Key().Before(z.Key())
    ensures Insert(z, s) == s + [z]
  {
  }

  lemma FirstLinksBack(d: RowHash, rows: seq<Row>)
    requires rows != [] && InOrder(rows)[0].prev.Some?
    ensures !Linear(d, rows)
  {
    assert !RowVerifies(d, InOrder(rows), 0);
  }

  lemma ThreeInOrder(x: Row, y: Row, z: Row)
    requires x.Key().Before(y.Key()) && !y.Key().Before(x.Key()) && y.Key().Before(z.Key())
    ensures InOrder([y, x, z]) == [x, y, z]
  {
    TwoInOrder(x, y);
    InOrderAppend([y, x], z);
    assert [y, x] + [z] == [y, x, z];
    InsertLast(z, [x, y]);
    assert [x, y] + [z] == [x, y, z];
  }

  /** `x` began before `y` and committed after it, linked to it. */
  lemma ReadsOutOfOrder(d: RowHash, x: Row, y: Row, z: Row)
    requires x.Key().at.Earlier(y.Key().at) && y.Key().at.Earlier(z.Key().at) && x.prev == Some(y.hash)
    ensures InOrder([y, x, z]) == [x, y, z] && !Linear(d, [y, x, z])
  {
    ThreeInOrder(x, y, z);
    FirstLinksBack(d, [y, x, z]);
  }

  /** The run: the second writer begins while the first is between its BEGIN
      and its first query. */
  function OvertakenRun(call: Call, id0: Uuid, id1: Uuid, id2: Uuid, t1: Utc, t2: Utc, t3: Utc): seq<Event> {
    [Start(0, call)] + ([Start(1, call)] + ([Start(2, call)] + ([Begin(0, t1)] + ([Begin(1, t2)] +
    ([Snap(1)] + ([Commit(1, id1)] + ([Snap(0)] + ([Commit(0, id0)] +
    ([Begin(2, t3)] + ([Snap(2)] + ([Commit(2, id2)] + [])))))))))))
  }

  /** The row a standalone write leaves. */
  lemma WriteLeaves(env: Env, w: World, c: nat, call: Call, now: Utc, chain: seq<Row>, id: Uuid, rest: seq<Event>) returns (w': World)
    requires c in w.jobs && w.jobs[c] == Job(call, 0, Begun(now)) && env.role.Fit()
    requires call.WriteCall? && call.actorClass == Ascii("member")
    requires ChainOf(w.store.events, call.chain) == chain && IsNewKey(ChainKey(now, id), w.store.events)
    ensures Run(env, w, [Snap(c)] + ([Commit(c, id)] + rest)) == Run(env, w', rest)
    ensures w'.store.events == w.store.events + [RowOf(env, call, chain, now, id)]
    ensures forall d | d in w.jobs && d != c :: d in w'.jobs && w'.jobs[d] == w.jobs[d]
  {
    SoloWrite(env, w, c, id, rest);
    var r := RowOf(env, call, chain, now, id);
    w' := World(Appended(w.store, r, call.chain), w.jobs[c := DoneWith(call, r)]);
  }

  /** The first two of the run. */
  lemma OvertakenTwo(env: Env, call: Call, id0: Uuid, id1: Uuid, t1: Utc, t2: Utc, w0: World, rest: seq<Event>) returns (w: World)
    requires env.role.Fit() && t1.Earlier(t2) && call.WriteCall? && call.actorClass == Ascii("member")
    requires w0 == World(EMPTY.store, map[0 := Job(call, 0, Begun(t1)), 1 := Job(call, 0, Begun(t2)), 2 := Job(call, 0, Ready)])
    ensures var y := RowOf(env, call, [], t2, id1);
            && w.store.events == [y, RowOf(env, call, [y], t1, id0)] && 2 in w.jobs && w.jobs[2] == Job(call, 0, Ready)
            && Run(env, w0, [Snap(1)] + ([Commit(1, id1)] + ([Snap(0)] + ([Commit(0, id0)] + rest)))) == Run(env, w, rest)
  {
    var y := RowOf(env, call, [], t2, id1);
    var w1 := WriteLeaves(env, w0, 1, call, t2, [], id1, [Snap(0)] + ([Commit(0, id0)] + rest));
    ChainOfAppend([], y, call.chain);
    assert [] + [y] == [y];
    w := WriteLeaves(env, w1, 0, call, t1, [y], id0, rest);
  }

  lemma OvertakenRows(env: Env, call: Call, id0: Uuid, id1: Uuid, id2: Uuid, t1: Utc, t2: Utc, t3: Utc)
    requires env.role.Fit() && t1.Earlier(t2) && t2.Earlier(t3) && call.WriteCall? && call.actorClass == Ascii("member")
    ensures var y := RowOf(env, call, [], t2, id1);
            var x := RowOf(env, call, [y], t1, id0);
            Chain(Run(env, EMPTY, OvertakenRun(call, id0, id1, id2, t1, t2, t3)), call.chain) == [y, x, RowOf(env, call, [y, x], t3, id2)]
  {
    var last := [Begin(2, t3)] + ([Snap(2)] + ([Commit(2, id2)] + []));
    var y := RowOf(env, call, [], t2, id1);
    var w0 := World(EMPTY.store, map[0 := Job(call, 0, Begun(t1)), 1 := Job(call, 0, Begun(t2)), 2 := Job(call, 0, Ready)]);
    Started(env, call, t1, t2, [Snap(1)] + ([Commit(1, id1)] + ([Snap(0)] + ([Commit(0, id0)] + last))));
    var w := OvertakenTwo(env, call, id0, id1, t1, t2, w0, last);
    ThirdCommitsLast(env, call, id2, t3, w, y, RowOf(env, call, [y], t1, id0));
  }

  /** Serializable is not enough: three writers, one after the other in their
      commits, of which the second began first. It links to a row that stands
      after it in key order; so does the third, and two rows share a
      predecessor. */
  lemma OvertakenWriterForks(env: Env, call: Call, id0: Uuid, id1: Uuid, id2: Uuid, t1: Utc, t2: Utc, t3: Utc)
    requires env.role.Fit() && t1.Earlier(t2) && t2.Earlier(t3) && call.WriteCall? && call.actorClass == Ascii("member")
    ensures var es := OvertakenRun(call, id0, id1, id2, t1, t2, t3);
            var rows := Chain(Run(env, EMPTY, es), call.chain);
            && |rows| == 3 && rows[1].prev == rows[2].prev == Some(rows[0].hash)
            && !Linear(env.hash, rows) && !Ordered(env, EMPTY, es, call.chain)
  {
    var es := OvertakenRun(call, id0, id1, id2, t1, t2, t3);
    OvertakenRows(env, call, id0, id1, id2, t1, t2, t3);
    var y := RowOf(env, call, [], t2, id1);
    var x := RowOf(env, call, [y], t1, id0);
    var z := RowOf(env, call, [y, x], t3, id2);
    OvertakenLinks(env, call, id0, id1, id2, t1, t2, t3);
    ReadsOutOfOrder(env.hash, x, y, z);
    if Ordered(env, EMPTY, es, call.chain) { ChainsAreLinear(env, es, call.chain); }
  }

  lemma OvertakenLinks(env: Env, call: Call, id0: Uuid, id1: Uuid, id2: Uuid, t1: Utc, t2: Utc, t3: Utc)
    requires env.role.Fit() && t1.Earlier(t2) && call.WriteCall?
    ensures var y := RowOf(env, call, [], t2, id1);
            var x := RowOf(env, call, [y], t1, id0);
            x.prev == RowOf(env, call, [y, x], t3, id2).prev == Some(y.hash)
  {
    var y := RowOf(env, call, [], t2, id1);
    TipOfTwo(y, RowOf(env, call, [y], t1, id0));
  }

  lemma TipOfTwo(y: Row, x: Row)
    requires !y.Key().Before(x.Key())
    ensures Tip([y]) == Tip([y, x]) == Some(y)
  {
    assert [y, x][..1] == [y] && [y][..0] == [];
  }

  // Two PATCHes of the same tenant, both resolved at the start: 1 comes early,
  // then 0.

  /** A PATCH from its snapshot to its commit, undisturbed. */
  lemma SoloPatch(env: Env, w: World, c: nat, id: Uuid, es: seq<Event>)
    requires c in w.jobs && w.jobs[c].phase.Begun? && w.jobs[c].call.PatchCall? && env.role.Fit()
    requires IsNewKey(ChainKey(w.jobs[c].phase.now, id), w.store.events)
    requires var j := w.jobs[c];
             Live(w.store, j.call.resolved.id).Some? && NameFits(Patched(Live(w.store, j.call.resolved.id).value, j.call.req).name)
    ensures var j, s := w.jobs[c], w.store;
            var t := j.call.resolved.id;
            var row := Live(s, t);
            var r := NewRow(env.hash, env.role, ChainOf(s.events, t), id, CallFields(j.call, row, j.phase.now));
            var s' := Appended(s, r, t).(tenants := CallTenants(j.call, row, s.tenants));
            var w' := World(s', w.jobs[c := j.(phase := Done(Ok(Updated(Patched(row.value, j.call.req)))))]);
            Run(env, w, [Snap(c)] + ([Commit(c, id)] + es)) == Run(env, w', es)
  {
    SoloAttempt(env, w, c, id, es);
  }

  function TwoPatches(late: Call, early: Call, id0: Uuid, id1: Uuid, t1: Utc, t2: Utc): seq<Event> {
    [Start(0, late)] + ([Start(1, early)] + ([Begin(1, t1)] + ([Snap(1)] + ([Commit(1, id1)] +
    ([Begin(0, t2)] + ([Snap(0)] + ([Commit(0, id0)] + [])))))))
  }

  lemma TwoStart(env: Env, w: World, a: Call, b: Call, rest: seq<Event>)
    requires Admissible(w.store, a) && Admissible(w.store, b) && w.jobs == map[]
    ensures Run(env, w, [Start(0, a)] + ([Start(1, b)] + rest))
            == Run(env, w.(jobs := map[0 := Job(a, 0, Ready), 1 := Job(b, 0, Ready)]), rest)
  {
    RunStep(env, w, Start(0, a), [Start(1, b)] + rest);
    RunStep(env, w.(jobs := map[0 := Job(a, 0, Ready)]), Start(1, b), rest);
  }

  lemma BothStart(env: Env, w: World, late: Call, early: Call, t1: Utc, rest: seq<Event>)
    requires Admissible(w.store, late) && Admissible(w.store, early) && w.jobs == map[]
    ensures Run(env, w, [Start(0, late)] + ([Start(1, early)] + ([Begin(1, t1)] + rest)))
            == Run(env, w.(jobs := map[0 := Job(late, 0, Ready), 1 := Job(early, 0, Begun(t1))]), rest)
  {
    TwoStart(env, w, late, early, [Begin(1, t1)] + rest);
    var b := w.(jobs := map[0 := Job(late, 0, Ready), 1 := Job(early, 0, Ready)]);
    RunStep(env, b, Begin(1, t1), rest);
    BeginStep(env, b, 1, t1);
    assert b.jobs[1 := Job(early, 0, Begun(t1))] == map[0 := Job(late, 0, Ready), 1 := Job(early, 0, Begun(t1))];
  }

  /** One tenant, and nothing else. */
  function Only(tenant: Tenant): World {
    World(Store(map[tenant.id := TenantRow(tenant, None, 0)], [], map[]), map[])
  }

  /** The early PATCH alone. */
  lemma EarlyPatch(env: Env, tenant: Tenant, late: Call, early: Call, id1: Uuid, t1: Utc, rest: seq<Event>) returns (w: World)
    requires env.role.Fit() && NameFits(tenant.name) && early.PatchCall? && early.resolved == tenant
    requires Admissible(Only(tenant).store, late) && Admissible(Only(tenant).store, early)
    ensures var after := Patched(tenant, early.req);
            && Run(env, Only(tenant), [Start(0, late)] + ([Start(1, early)] + ([Begin(1, t1)] + ([Snap(1)] + ([Commit(1, id1)] + rest)))))
               == Run(env, w, rest)
            && w.store.events == [NewRow(env.hash, env.role, [], id1, CallFields(early, Some(tenant), t1))]
            && Live(w.store, tenant.id) == Some(after) && 0 in w.jobs && w.jobs[0] == Job(late, 0, Ready)
  {
    BothStart(env, Only(tenant), late, early, t1, [Snap(1)] + ([Commit(1, id1)] + rest));
    var w1 := Only(tenant).(jobs := map[0 := Job(late, 0, Ready), 1 := Job(early, 0, Begun(t1))]);
    SoloPatch(env, w1, 1, id1, rest);
    var r := NewRow(env.hash, env.role, [], id1, CallFields(early, Some(tenant), t1));
    var s := Appended(w1.store, r, tenant.id).(tenants := CallTenants(early, Some(tenant), w1.store.tenants));
    w := World(s, w1.jobs[1 := Job(early, 0, Done(Ok(Updated(Patched(tenant, early.req)))))]);
    assert [] + [r] == [r];
  }

  /** The late one after it. */
  lemma LatePatch(env: Env, w: World, late: Call, between: Tenant, r1: Row, id0: Uuid, t2: Utc) returns (r2: Row)
    requires env.role.Fit() && late.PatchCall? && 0 in w.jobs && w.jobs[0] == Job(late, 0, Ready)
    requires w.store.events == [r1] && InChain(r1, late.resolved.id) && r1.Key() != ChainKey(t2, id0)
    requires Live(w.store, late.resolved.id) == Some(between) && NameFits(Patched(between, late.req).name)
    ensures var w' := Run(env, w, [Begin(0, t2)] + ([Snap(0)] + ([Commit(0, id0)] + [])));
            && w'.store.events == [r1, r2] && r2.fields == CallFields(late, Some(between), t2)
            && Live(w'.store, late.resolved.id) == Some(Patched(between, late.req))
  {
    RunStep(env, w, Begin(0, t2), [Snap(0)] + ([Commit(0, id0)] + []));
    BeginStep(env, w, 0, t2);
    SoloPatch(env, w.(jobs := w.jobs[0 := Job(late, 0, Begun(t2))]), 0, id0, []);
    r2 := NewRow(env.hash, env.role, ChainOf([r1], late.resolved.id), id0, CallFields(late, Some(between), t2));
    assert [r1] + [r2] == [r1, r2];
  }

  /** Both, one after the other: the rows they leave and the tenant they leave. */
  lemma BothPatches(env: Env, tenant: Tenant, late: Call, early: Call, id0: Uuid, id1: Uuid, t1: Utc, t2: Utc) returns (r1: Row, r2: Row)
    requires env.role.Fit() && t1.Earlier(t2) && NameFits(tenant.name)
    requires early.PatchCall? && early.resolved == tenant && late.PatchCall? && late.resolved == tenant
    requires Admissible(Only(tenant).store, late) && Admissible(Only(tenant).store, early)
    ensures var w, t, between := Run(env, Only(tenant), TwoPatches(late, early, id0, id1, t1, t2)), tenant.id, Patched(tenant, early.req);
            && Chain(w, t) == [r1, r2]
            && r1.fields == CallFields(early, Some(tenant), t1) && r2.fields == CallFields(late, Some(between), t2)
            && Live(w.store, t) == Some(Patched(between, late.req))
  {
    var w := EarlyPatch(env, tenant, late, early, id1, t1, [Begin(0, t2)] + ([Snap(0)] + ([Commit(0, id0)] + [])));
    r1 := w.store.events[0];
    r2 := LatePatch(env, w, late, Patched(tenant, early.req), r1, id0, t2);
    ChainOfTwo(r1, r2, tenant.id);
  }

  lemma ReplayTwo(p: Profile, r1: Row, r2: Row)
    ensures Replay(p, Payloads([r1, r2])) == ApplyPayload(ApplyPayload(p, r1.fields.payload), r2.fields.payload)
  {
    assert [r1] + [r2] == [r1, r2] && [] + [r1] == [r1];
    ReplayAppend(p, [], r1);
    ReplayAppend(p, [r1], r2);
  }

  /** 0 asks for the name it had resolved, after 1 renamed the tenant. Serial,
      linear, every row paired, and still the replay is wrong: the chain's last
      word on the name is the new one, the row has the old one. */
  lemma StaleResolveBreaksReplay(env: Env, tenant: Tenant, name: Bytes, actor: Uuid, id0: Uuid, id1: Uuid, t1: Utc, t2: Utc)
    requires env.role.Fit() && t1.Earlier(t2) && NameFits(tenant.name) && NameFits(name) && name != tenant.name
    ensures var late := PatchCall(tenant, actor, PatchRequest(Some(tenant.name), None));
            var early := PatchCall(tenant, actor, PatchRequest(Some(name), None));
            var w' := Run(env, Only(tenant), TwoPatches(late, early, id0, id1, t1, t2));
            && ReadReplays(Only(tenant), tenant.id, ProfileOf(tenant))
            && !ReadReplays(w', tenant.id, ProfileOf(tenant)) && !Replays(w', tenant.id, ProfileOf(tenant))
            && tenant.id in w'.store.tenants && w'.store.tenants[tenant.id].tenant.name == tenant.name
  {
    var late := PatchCall(tenant, actor, PatchRequest(Some(tenant.name), None));
    var early := PatchCall(tenant, actor, PatchRequest(Some(name), None));
    var r1, r2 := BothPatches(env, tenant, late, early, id0, id1, t1, t2);
    ReplayTwo(ProfileOf(tenant), r1, r2);
    StayInOrder(r1, r2);
    UpdatePayloadReads(tenant, tenant.(name := name));
    UpdatePayloadReads(tenant, tenant);
  }

  /** 0 asks for other settings and says nothing about the name, after 1 renamed
      the tenant. The replay is right, and yet the chain has two rows that change
      the name to the new one, the second of them under the actor of 0. */
  lemma RecordedUnderTheWrongActor(
    env: Env, tenant: Tenant, name: Bytes, settings: Json, renamer: Uuid, actor: Uuid, id0: Uuid, id1: Uuid, t1: Utc, t2: Utc)
    requires env.role.Fit() && t1.Earlier(t2) && NameFits(tenant.name) && NameFits(name) && name != tenant.name
    ensures var late := PatchCall(tenant, actor, PatchRequest(None, Some(settings)));
            var early := PatchCall(tenant, renamer, PatchRequest(Some(name), None));
            var w' := Run(env, Only(tenant), TwoPatches(late, early, id0, id1, t1, t2));
            var rows := Chain(w', tenant.id);
            && |rows| == 2 && InOrder(rows) == rows && ReadReplays(w', tenant.id, ProfileOf(tenant))
            && rows[0].fields.actorId == Some(renamer) && Target(rows[0].fields.payload, NAME) == Some(String(name))
            && rows[1].fields.actorId == Some(actor) && Target(rows[1].fields.payload, NAME) == Some(String(name))
  {
    var late := PatchCall(tenant, actor, PatchRequest(None, Some(settings)));
    var early := PatchCall(tenant, renamer, PatchRequest(Some(name), None));
    var r1, r2 := BothPatches(env, tenant, late, early, id0, id1, t1, t2);
    ReplayTwo(ProfileOf(tenant), r1, r2);
    StayInOrder(r1, r2);
    UpdatePayloadReads(tenant, tenant.(name := name));
    UpdatePayloadReads(tenant, tenant.(name := name, settings := settings));
  }

  // Two PATCHes of the same tenant again: 0 begins first, but 1 has its snapshot
  // and its COMMIT before 0 takes a snapshot.

  function OvertakenPatches(slow: Call, quick: Call, id0: Uuid, id1: Uuid, t1: Utc, t2: Utc): seq<Event> {
    [Start(0, slow)] + ([Start(1, quick)] + ([Begin(0, t1)] + ([Begin(1, t2)] + ([Snap(1)] + ([Commit(1, id1)] +
    ([Snap(0)] + ([Commit(0, id0)] + [])))))))
  }

  lemma BothBegin(env: Env, w: World, slow: Call, quick: Call, t1: Utc, t2: Utc, rest: seq<Event>)
    requires Admissible(w.store, slow) && Admissible(w.store, quick) && w.jobs == map[]
    ensures Run(env, w, [Start(0, slow)] + ([Start(1, quick)] + ([Begin(0, t1)] + ([Begin(1, t2)] + rest))))
            == Run(env, w.(jobs := map[0 := Job(slow, 0, Begun(t1)), 1 := Job(quick, 0, Begun(t2))]), rest)
  {
    TwoStart(env, w, slow, quick, [Begin(0, t1)] + ([Begin(1, t2)] + rest));
    var b := w.(jobs := map[0 := Job(slow, 0, Ready), 1 := Job(quick, 0, Ready)]);
    RunStep(env, b, Begin(0, t1), [Begin(1, t2)] + rest);
    BeginStep(env, b, 0, t1);
    var c := b.(jobs := b.jobs[0 := Job(slow, 0, Begun(t1))]);
    RunStep(env, c, Begin(1, t2), rest);
    BeginStep(env, c, 1, t2);
    assert c.jobs[1 := Job(quick, 0, Begun(t2))] == map[0 := Job(slow, 0, Begun(t1)), 1 := Job(quick, 0, Begun(t2))];
  }

  /** The row and the tenant an undisturbed PATCH leaves. */
  lemma PatchLeaves(env: Env, w: World, c: nat, row: Tenant, id: Uuid, rest: seq<Event>) returns (w': World, r: Row)
    requires c in w.jobs && w.jobs[c].phase.Begun? && w.jobs[c].call.PatchCall? && env.role.Fit()
    requires IsNewKey(ChainKey(w.jobs[c].phase.now, id), w.store.events)
    requires Live(w.store, w.jobs[c].call.resolved.id) == Some(row) && NameFits(Patched(row, w.jobs[c].call.req).name)
    ensures Run(env, w, [Snap(c)] + ([Commit(c, id)] + rest)) == Run(env, w', rest)
    ensures w'.store.events == w.store.events + [r] && r.Key() == ChainKey(w.jobs[c].phase.now, id)
    ensures r.fields == CallFields(w.jobs[c].call, Some(row), w.jobs[c].phase.now)
    ensures Live(w'.store, w.jobs[c].call.resolved.id) == Some(Patched(row, w.jobs[c].call.req))
    ensures forall d | d in w.jobs && d != c :: d in w'.jobs && w'.jobs[d] == w.jobs[d]
  {
    SoloPatch(env, w, c, id, rest);
    var j, s := w.jobs[c], w.store;
    var t := j.call.resolved.id;
    r := NewRow(env.hash, env.role, ChainOf(s.events, t), id, CallFields(j.call, Some(row), j.phase.now));
    w' := World(Appended(s, r, t).(tenants := CallTenants(j.call, Some(row), s.tenants)),
                w.jobs[c := j.(phase := Done(Ok(Updated(Patched(row, j.call.req)))))]);
  }

  lemma PatchesLeave(env: Env, w: World, tenant: Tenant, slow: Call, quick: Call, id0: Uuid, id1: Uuid, t1: Utc, t2: Utc)
    returns (w': World, r1: Row, r0: Row)
    requires env.role.Fit() && t1.Earlier(t2) && w.store == Only(tenant).store
    requires w.jobs == map[0 := Job(slow, 0, Begun(t1)), 1 := Job(quick, 0, Begun(t2))]
    requires quick.PatchCall? && quick.resolved == tenant && slow.PatchCall? && slow.resolved == tenant
    requires NameFits(Patched(tenant, quick.req).name) && NameFits(Patched(Patched(tenant, quick.req), slow.req).name)
    ensures Run(env, w, [Snap(1)] + ([Commit(1, id1)] + ([Snap(0)] + ([Commit(0, id0)] + [])))) == Run(env, w', [])
    ensures w'.store.events == [r1, r0]
    ensures r1.fields == CallFields(quick, Some(tenant), t2) && r0.fields == CallFields(slow, Some(Patched(tenant, quick.req)), t1)
    ensures Live(w'.store, tenant.id) == Some(Patched(Patched(tenant, quick.req), slow.req))
  {
    var w1;
    w1, r1 := PatchLeaves(env, w, 1, tenant, id1, [Snap(0)] + ([Commit(0, id0)] + []));
    w', r0 := PatchLeaves(env, w1, 0, Patched(tenant, quick.req), id0, []);
  }

  lemma OvertakenPatchesLeave(env: Env, tenant: Tenant, slow: Call, quick: Call, id0: Uuid, id1: Uuid, t1: Utc, t2: Utc)
    returns (r1: Row, r0: Row)
    requires env.role.Fit() && t1.Earlier(t2) && NameFits(tenant.name)
    requires quick.PatchCall? && quick.resolved == tenant && slow.PatchCall? && slow.resolved == tenant
    requires Admissible(Only(tenant).store, slow) && Admissible(Only(tenant).store, quick)
    ensures var w, t, between := Run(env, Only(tenant), OvertakenPatches(slow, quick, id0, id1, t1, t2)), tenant.id, Patched(tenant, quick.req);
            && Chain(w, t) == [r1, r0]
            && r1.fields == CallFields(quick, Some(tenant), t2) && r0.fields == CallFields(slow, Some(between), t1)
            && Live(w.store, t) == Some(Patched(between, slow.req))
  {
    BothBegin(env, Only(tenant), slow, quick, t1, t2, [Snap(1)] + ([Commit(1, id1)] + ([Snap(0)] + ([Commit(0, id0)] + []))));
    var w := Only(tenant).(jobs := map[0 := Job(slow, 0, Begun(t1)), 1 := Job(quick, 0, Begun(t2))]);
    var w';
    w', r1, r0 := PatchesLeave(env, w, tenant, slow, quick, id0, id1, t1, t2);
    ChainOfTwo(r1, r0, tenant.id);
  }

  /** Two new names, as committed and as read. */
  lemma TwoNames(tenant: Tenant, first: Bytes, second: Bytes, r1: Row, r0: Row)
    requires first != tenant.name && second != tenant.name && r0.Key().at.Earlier(r1.Key().at)
    requires r1.fields.payload == UpdatePayload(tenant, tenant.(name := first))
    requires r0.fields.payload == UpdatePayload(tenant, tenant.(name := second))
    ensures Replay(ProfileOf(tenant), Payloads([r1, r0])) == ProfileOf(tenant.(name := second))
    ensures InOrder([r1, r0]) == [r0, r1]
    ensures Replay(ProfileOf(tenant), Payloads([r0, r1])) == ProfileOf(tenant.(name := first))
  {
    TwoInOrder(r0, r1);
    ReplayTwo(ProfileOf(tenant), r1, r0);
    ReplayTwo(ProfileOf(tenant), r0, r1);
    UpdatePayloadReads(tenant, tenant.(name := first));
    UpdatePayloadReads(tenant, tenant.(name := second));
  }

  /** The run has only the two calls. */
  lemma OvertakenPatchesStart(slow: Call, quick: Call, id0: Uuid, id1: Uuid, t1: Utc, t2: Utc)
    ensures var es := OvertakenPatches(slow, quick, id0, id1, t1, t2);
            forall i | 0 <= i < |es| :: !es[i].Edit? && (es[i].Start? ==> es[i].call == slow || es[i].call == quick)
  {
  }

  /** Where the replay ends up wrong some PATCH was misread. */
  lemma WrongMeansMisread(env: Env, w: World, es: seq<Event>, t: Uuid, start: Profile)
    requires ByHandlers(w, t) && StartsHandlers(es, t) && NoEdits(es, t) && ReadReplays(w, t, start)
    requires !ReadReplays(Run(env, w, es), t, start)
    ensures !NoneMisread(env, w, es, t)
  {
    AlwaysReadReplaysIff(env, w, es, t, start);
    if AlwaysReadReplays(env, w, es, t, start) { AlwaysMeansAtTheEnd(env, w, es, t, start); }
  }

  /** Two callers give the tenant two new names, neither of them stale. The one
      that began first was overtaken and had the last word; its row stands first,
      and reading the chain ends with the name the tenant no longer has. */
  lemma OvertakenPatchIsMisread(env: Env, tenant: Tenant, first: Bytes, second: Bytes, actor: Uuid, id0: Uuid, id1: Uuid, t1: Utc, t2: Utc)
    requires env.role.Fit() && t1.Earlier(t2) && NameFits(tenant.name) && NameFits(first) && NameFits(second)
    requires first != tenant.name && second != tenant.name && first != second
    ensures var slow := PatchCall(tenant, actor, PatchRequest(Some(second), None));
            var quick := PatchCall(tenant, actor, PatchRequest(Some(first), None));
            var es := OvertakenPatches(slow, quick, id0, id1, t1, t2);
            var w', t := Run(env, Only(tenant), es), tenant.id;
            && NoStaleWrites(env, Only(tenant), es, t) && Replays(w', t, ProfileOf(tenant))
            && Live(w'.store, t) == Some(tenant.(name := second))
            && Replay(ProfileOf(tenant), Payloads(InOrder(Chain(w', t)))).name == first
            && !ReadReplays(w', t, ProfileOf(tenant)) && !NoneMisread(env, Only(tenant), es, t)
  {
    var slow := PatchCall(tenant, actor, PatchRequest(Some(second), None));
    var quick := PatchCall(tenant, actor, PatchRequest(Some(first), None));
    var es := OvertakenPatches(slow, quick, id0, id1, t1, t2);
    OvertakenPatchesStart(slow, quick, id0, id1, t1, t2);
    AfreshIsNotStale(env, Only(tenant), es, tenant.id);
    var r1, r0 := OvertakenPatchesLeave(env, tenant, slow, quick, id0, id1, t1, t2);
    TwoNames(tenant, first, second, r1, r0);
    WrongMeansMisread(env, Only(tenant), es, tenant.id, ProfileOf(tenant));
  }
}
