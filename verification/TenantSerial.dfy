/** Serializability over whole runs: how far an interleaved run is the run of its
    committed writes one after the other, and that a call which wrote nothing
    might as well not have been made. */
module TenantSerial {
  import opened Wrappers
  import opened Bytes
  import opened AuditHash
  import opened AuditChain
  import opened Tenants
  import opened TenantWrites
  import opened TenantRuns
  import opened TenantHistory

  // ---- The serial run.

  /** What a run amounts to: committed writes, each as a whole, and what other
      programs did. */
  datatype Act = Whole(x: Write) | External(e: Event)

  function ActOf(env: Env, w: World, e: Event): Option<Act> {
    if WriteOf(env, w, e).Some? then Some(Whole(WriteOf(env, w, e).value))
    else if e.Add? || e.Edit? || e.Remove? then Some(External(e))
    else None
  }

  function Acts(env: Env, w: World, es: seq<Event>): seq<Act>
    decreases es
  {
    if es == [] then []
    else (if ActOf(env, w, es[0]).Some? then [ActOf(env, w, es[0]).value] else []) + Acts(env, Next(env, w, es[0]), es[1..])
  }

  function ApplyAct(env: Env, s: Store, a: Act): Store {
    match a
    case Whole(x) => Alone(env, s, x).0
    case External(e) => Next(env, World(s, map[]), e).store
  }

  /** Each act alone, from start to end, in the order of the COMMITs. */
  function ApplyActs(env: Env, s: Store, acts: seq<Act>): Store
    decreases acts
  {
    if acts == [] then s else ApplyActs(env, ApplyAct(env, s, acts[0]), acts[1..])
  }

  function ApplyStep(env: Env, s: Store, a: Option<Act>): Store {
    if a.Some? then ApplyAct(env, s, a.value) else s
  }

  lemma ActsStep(env: Env, w: World, es: seq<Event>, s: Store)
    requires es != []
    ensures ApplyActs(env, s, Acts(env, w, es))
            == ApplyActs(env, ApplyStep(env, s, ActOf(env, w, es[0])), Acts(env, Next(env, w, es[0]), es[1..]))
  {
    var a, rest := ActOf(env, w, es[0]), Acts(env, Next(env, w, es[0]), es[1..]);
    if a.Some? { assert ([a.value] + rest)[1..] == rest; } else { assert [] + rest == rest; }
  }

  // ---- Serial but for links.

  predicate SameEntries(a: seq<Row>, b: seq<Row>) {
    |a| == |b| && forall i | 0 <= i < |a| :: a[i].id == b[i].id && a[i].fields == b[i].fields
  }

  /** The same tenants, and audit rows that say the same; what these are linked
      to may differ. */
  predicate SameButLinks(s: Store, s': Store) {
    s.tenants == s'.tenants && SameEntries(s.events, s'.events)
  }

  lemma SameKeys(a: seq<Row>, b: seq<Row>, k: ChainKey)
    requires SameEntries(a, b) && IsNewKey(k, b)
    ensures IsNewKey(k, a)
  {
    forall r | r in a ensures r.Key() != k {
      var i :| 0 <= i < |a| && a[i] == r;
      assert b[i] in b;
    }
  }

  /** A write that is possible alone is possible alone in a database that is the
      same but for links, and leaves it the same but for links. */
  lemma AloneButLinks(env: Env, s: Store, s': Store, x: Write)
    requires SameButLinks(s, s') && Alone(env, s', x).1.Ok? && (x.call.WriteCall? || Live(s', x.call.Tenant()).Some?)
    ensures Alone(env, s, x).1.Ok? && SameButLinks(Alone(env, s, x).0, Alone(env, s', x).0)
  {
    OnceAppends(env, s', s', x.call, x.now, x.id);
    SameKeys(s.events, s'.events, ChainKey(x.now, x.id));
    OnceAppends(env, s, s, x.call, x.now, x.id);
  }

  lemma StepButLinks(env: Env, w: World, e: Event, s: Store)
    requires SameButLinks(s, w.store)
    ensures SameButLinks(ApplyStep(env, s, ActOf(env, w, e)), Next(env, w, e).store)
  {
    WritesAreWhole(env, w, e);
    if WriteOf(env, w, e).Some? { WriteButLinks(env, w, e, s); }
  }

  lemma WriteButLinks(env: Env, w: World, e: Event, s: Store)
    requires SameButLinks(s, w.store) && WriteOf(env, w, e).Some?
    ensures Alone(env, s, WriteOf(env, w, e).value).1.Ok?
    ensures SameButLinks(Alone(env, s, WriteOf(env, w, e).value).0, Next(env, w, e).store)
  {
    WritesAreWhole(env, w, e);
    CommitsAsIfAlone(env, w, e);
    AloneButLinks(env, s, w.store, WriteOf(env, w, e).value);
  }

  lemma {:induction false} SerialButLinks(env: Env, w: World, es: seq<Event>, s: Store)
    requires SameButLinks(s, w.store)
    ensures SameButLinks(ApplyActs(env, s, Acts(env, w, es)), Run(env, w, es).store)
    decreases es
  {
    if es != [] {
      ActsStep(env, w, es, s);
      StepButLinks(env, w, es[0], s);
      SerialButLinks(env, Next(env, w, es[0]), es[1..], ApplyStep(env, s, ActOf(env, w, es[0])));
    }
  }

  // ---- Serial in every respect.

  /** A write read the tip that is there at its COMMIT. */
  predicate CurrentStep(env: Env, w: World, e: Event) {
    match WriteOf(env, w, e)
    case Some(x) => Tip(x.seen) == Tip(ChainOf(w.store.events, x.call.Tenant()))
    case None => true
  }

  predicate ReadsCurrent(env: Env, w: World, es: seq<Event>)
    decreases es
  {
    es == [] || (CurrentStep(env, w, es[0]) && ReadsCurrent(env, Next(env, w, es[0]), es[1..]))
  }

  lemma StepSerial(env: Env, w: World, e: Event)
    requires CurrentStep(env, w, e)
    ensures ApplyStep(env, w.store, ActOf(env, w, e)) == Next(env, w, e).store
  {
    WritesAreWhole(env, w, e);
    if WriteOf(env, w, e).Some? { CommitsAsIfAlone(env, w, e); }
  }

  lemma {:induction false} SerialRun(env: Env, w: World, es: seq<Event>)
    requires ReadsCurrent(env, w, es)
    ensures ApplyActs(env, w.store, Acts(env, w, es)) == Run(env, w, es).store
    decreases es
  {
    if es != [] {
      ActsStep(env, w, es, w.store);
      StepSerial(env, w, es[0]);
      SerialRun(env, Next(env, w, es[0]), es[1..]);
    }
  }

  // ---- And only then: what the writers read is remembered.

  predicate Remembers(s: Store, k: ChainKey, tip: Option<ChainKey>) {
    !IsNewKey(k, s.events) && k in s.tipsRead && s.tipsRead[k] == tip
  }

  lemma NotNewStays(k: ChainKey, events: seq<Row>, r: Row)
    requires !IsNewKey(k, events)
    ensures !IsNewKey(k, events + [r])
  {
    var q :| q in events && q.Key() == k;
    assert q in events + [r];
  }

  lemma ActRemembers(env: Env, s: Store, a: Act, k: ChainKey, tip: Option<ChainKey>)
    requires Remembers(s, k, tip)
    ensures Remembers(ApplyAct(env, s, a), k, tip)
  {
    match a
    case External(e) => WritesAreWhole(env, World(s, map[]), e);
    case Whole(x) =>
      if Alone(env, s, x).0 != s { NotNewStays(k, s.events, Alone(env, s, x).0.events[|s.events|]); }
  }

  lemma {:induction false} ActsRemember(env: Env, s: Store, acts: seq<Act>, k: ChainKey, tip: Option<ChainKey>)
    requires Remembers(s, k, tip)
    ensures Remembers(ApplyActs(env, s, acts), k, tip)
    decreases acts
  {
    if acts != [] {
      ActRemembers(env, s, acts[0], k, tip);
      ActsRemember(env, ApplyAct(env, s, acts[0]), acts[1..], k, tip);
    }
  }

  lemma {:induction false} RunRemembers(env: Env, w: World, es: seq<Event>, k: ChainKey, tip: Option<ChainKey>)
    requires Remembers(w.store, k, tip)
    ensures Remembers(Run(env, w, es).store, k, tip)
    decreases es
  {
    if es != [] {
      WritesAreWhole(env, w, es[0]);
      var x := WriteOf(env, w, es[0]);
      if x.Some? {
        NotNewStays(k, w.store.events, NewRow(env.hash, env.role, x.value.seen, x.value.id, x.value.Fields()));
      }
      RunRemembers(env, Next(env, w, es[0]), es[1..], k, tip);
    }
  }

  /** Which row is the tip depends on the keys alone. */
  lemma {:induction false} SameTipKey(a: seq<Row>, b: seq<Row>)
    requires SameEntries(a, b)
    ensures TipKey(a) == TipKey(b)
  {
    if a != [] { SameTipKey(a[..|a| - 1], b[..|b| - 1]); }
  }

  lemma {:induction false} SameChain(a: seq<Row>, b: seq<Row>, t: Uuid)
    requires SameEntries(a, b)
    ensures SameEntries(ChainOf(a, t), ChainOf(b, t))
  {
    if a != [] { SameChain(a[..|a| - 1], b[..|b| - 1], t); }
  }

  /** In a beginning of a chain the tip's key says which row it is. */
  lemma TipByKey(part: seq<Row>, rows: seq<Row>)
    requires UniqueKeys(rows) && part <= rows && TipKey(part) == TipKey(rows)
    ensures Tip(part) == Tip(rows)
  {
    if rows != [] && part != [] {
      var p, r := Tip(part).value, Tip(rows).value;
      var i :| 0 <= i < |part| && part[i] == p;
      var j :| 0 <= j < |rows| && rows[j] == r;
      assert rows[i] == p;
      SameKeySamePlace(rows, i, j);
    }
  }

  ghost predicate AllWellRead(w: World) {
    forall t: Uuid :: WellRead(w, t)
  }

  /** A write leaves the two runs with different memories unless it read the tip
      that is there. */
  lemma CurrentIfRemembered(env: Env, w: World, es: seq<Event>, s: Store)
    requires es != [] && SameButLinks(s, w.store) && AllWellRead(w)
    requires ApplyActs(env, s, Acts(env, w, es)).tipsRead == Run(env, w, es).store.tipsRead
    ensures CurrentStep(env, w, es[0])
  {
    var e := es[0];
    if WriteOf(env, w, e).Some? {
      var x, next := WriteOf(env, w, e).value, Next(env, w, e);
      var k, t, s' := ChainKey(x.now, x.id), x.call.Tenant(), Alone(env, s, x).0;
      WriteIsRemembered(env, w, e, s);
      ActsStep(env, w, es, s);
      RunRemembers(env, next, es[1..], k, TipKey(x.seen));
      ActsRemember(env, s', Acts(env, next, es[1..]), k, TipKey(ChainOf(s.events, t)));
      SameChain(s.events, w.store.events, t);
      SameTipKey(ChainOf(s.events, t), Chain(w, t));
      assert WellRead(w, t);
      SeenIsPast(env, w, e, t);
      TipByKey(x.seen, Chain(w, t));
    }
  }

  lemma LastIsRemembered(s: Store, events: seq<Row>, r: Row, tip: Option<ChainKey>)
    requires s.events == events + [r] && r.Key() in s.tipsRead && s.tipsRead[r.Key()] == tip
    ensures Remembers(s, r.Key(), tip)
  {
    assert s.events[|events|] == r && r in s.events;
  }

  lemma WriteIsRemembered(env: Env, w: World, e: Event, s: Store)
    requires SameButLinks(s, w.store) && WriteOf(env, w, e).Some?
    ensures var x := WriteOf(env, w, e).value;
            && Remembers(Next(env, w, e).store, ChainKey(x.now, x.id), TipKey(x.seen))
            && Remembers(Alone(env, s, x).0, ChainKey(x.now, x.id), TipKey(ChainOf(s.events, x.call.Tenant())))
  {
    var x, view := WriteOf(env, w, e).value, w.jobs[e.c].phase.view;
    WritesAreWhole(env, w, e);
    WriteButLinks(env, w, e, s);
    OnceAppends(env, view, w.store, x.call, x.now, x.id);
    LastIsRemembered(Next(env, w, e).store, w.store.events, NewRow(env.hash, env.role, x.seen, x.id, x.Fields()), TipKey(x.seen));
    AloneIsRemembered(env, s, x);
  }

  lemma AloneIsRemembered(env: Env, s: Store, x: Write)
    requires Alone(env, s, x).1.Ok? && (x.call.WriteCall? || Live(s, x.call.Tenant()).Some?)
    ensures Remembers(Alone(env, s, x).0, ChainKey(x.now, x.id), TipKey(ChainOf(s.events, x.call.Tenant())))
  {
    OnceAppends(env, s, s, x.call, x.now, x.id);
    var s' := Alone(env, s, x).0;
    LastIsRemembered(s', s.events, s'.events[|s.events|], TipKey(ChainOf(s.events, x.call.Tenant())));
  }

  lemma AllWellReadStep(env: Env, w: World, e: Event)
    requires AllWellRead(w)
    ensures AllWellRead(Next(env, w, e))
  {
    forall t: Uuid ensures WellRead(Next(env, w, e), t) {
      assert WellRead(w, t);
      WellReadStep(env, w, e, t);
    }
  }

  lemma {:induction false} OnlyCurrentIsSerial(env: Env, w: World, es: seq<Event>, s: Store)
    requires SameButLinks(s, w.store) && AllWellRead(w)
    requires ApplyActs(env, s, Acts(env, w, es)).tipsRead == Run(env, w, es).store.tipsRead
    ensures ReadsCurrent(env, w, es)
    decreases es
  {
    if es != [] {
      CurrentIfRemembered(env, w, es, s);
      ActsStep(env, w, es, s);
      StepButLinks(env, w, es[0], s);
      AllWellReadStep(env, w, es[0]);
      OnlyCurrentIsSerial(env, Next(env, w, es[0]), es[1..], ApplyStep(env, s, ActOf(env, w, es[0])));
    }
  }

  /** Serializability over whole runs: however attempts interleave, the tenant
      rows and what the audit rows say are as if each committed write had run
      alone, from start to end, in commit order, and no other attempt at all.
      The whole database is, links included, if and only if every write had read
      the tip that was there at its COMMIT. */
  lemma RunsAreSerial(env: Env, es: seq<Event>)
    ensures var serial, s := ApplyActs(env, EMPTY.store, Acts(env, EMPTY, es)), Run(env, EMPTY, es).store;
            SameButLinks(serial, s) && (serial == s <==> ReadsCurrent(env, EMPTY, es))
  {
    SerialButLinks(env, EMPTY, es, EMPTY.store);
    if ReadsCurrent(env, EMPTY, es) { SerialRun(env, EMPTY, es); }
    if ApplyActs(env, EMPTY.store, Acts(env, EMPTY, es)) == Run(env, EMPTY, es).store {
      OnlyCurrentIsSerial(env, EMPTY, es, EMPTY.store);
    }
  }

  // ---- Two ways to be serial.

  /** Rows that come in order were linked to the tip of their COMMIT. */
  lemma {:induction false} OrderedReadsCurrent(env: Env, w: World, es: seq<Event>)
    requires AllWellRead(w) && forall t: Uuid :: Ordered(env, w, es, t)
    ensures ReadsCurrent(env, w, es)
    decreases es
  {
    if es != [] {
      if WriteOf(env, w, es[0]).Some? {
        var t := WriteOf(env, w, es[0]).value.call.Tenant();
        assert WellRead(w, t) && Ordered(env, w, es, t);
        OrderedLinksToTip(env, w, es[0], t);
      }
      AllWellReadStep(env, w, es[0]);
      forall t: Uuid ensures Ordered(env, Next(env, w, es[0]), es[1..], t) { assert Ordered(env, w, es, t); }
      OrderedReadsCurrent(env, Next(env, w, es[0]), es[1..]);
    }
  }

  /** A snapshot with the current version of a tenant row has the current chain,
      where every row of the chain comes with an UPDATE. */
  ghost predicate SnapCurrent(w: World, t: Uuid, view: Store) {
    t in view.tenants ==>
      && t in w.store.tenants && view.tenants[t].version <= w.store.tenants[t].version
      && (view.tenants[t].version == w.store.tenants[t].version ==> ChainOf(view.events, t) == Chain(w, t))
  }

  ghost predicate HandlerWorld(w: World) {
    && (forall c | c in w.jobs :: !w.jobs[c].call.WriteCall?)
    && forall c, t: Uuid | c in w.jobs && w.jobs[c].phase.Snapped? :: SnapCurrent(w, t, w.jobs[c].phase.view)
  }

  /** Versions only grow, and a handler's row comes with a new one. */
  lemma VersionStep(env: Env, w: World, e: Event, t: Uuid)
    requires t in w.store.tenants
    requires WriteOf(env, w, e).Some? ==> !WriteOf(env, w, e).value.call.WriteCall?
    ensures var w' := Next(env, w, e);
            && t in w'.store.tenants && w.store.tenants[t].version <= w'.store.tenants[t].version
            && (Chain(w', t) != Chain(w, t) ==> w.store.tenants[t].version < w'.store.tenants[t].version)
  {
    WritesAreWhole(env, w, e);
    ChainStep(env, w, e, t);
  }

  lemma SnapCurrentStep(env: Env, w: World, e: Event, t: Uuid, view: Store)
    requires SnapCurrent(w, t, view)
    requires WriteOf(env, w, e).Some? ==> !WriteOf(env, w, e).value.call.WriteCall?
    ensures SnapCurrent(Next(env, w, e), t, view)
  {
    if t in view.tenants { VersionStep(env, w, e, t); }
  }

  /** Where open snapshots come from. */
  lemma SnapshotsStep(env: Env, w: World, e: Event, c: nat)
    requires c in Next(env, w, e).jobs && Next(env, w, e).jobs[c].phase.Snapped?
    ensures var w' := Next(env, w, e);
            || w'.jobs[c].phase.view == w'.store
            || (c in w.jobs && w.jobs[c].phase.Snapped? && w'.jobs[c].phase.view == w.jobs[c].phase.view)
  {
  }

  lemma HandlerStep(env: Env, w: World, e: Event)
    requires HandlerWorld(w) && (e.Start? ==> !e.call.WriteCall?)
    ensures HandlerWorld(Next(env, w, e)) && (WriteOf(env, w, e).Some? ==> !WriteOf(env, w, e).value.call.WriteCall?)
  {
    JobStep(env, w, e);
    var w' := Next(env, w, e);
    forall c, t: Uuid | c in w'.jobs && w'.jobs[c].phase.Snapped? ensures SnapCurrent(w', t, w'.jobs[c].phase.view) {
      SnapshotsStep(env, w, e, c);
      if w'.jobs[c].phase.view != w'.store { SnapCurrentStep(env, w, e, t, w.jobs[c].phase.view); }
    }
  }

  /** The UPDATE of a handler's transaction guards its chain: had the chain
      grown since the snapshot, the row would have a newer version. */
  lemma HandlerReadsCurrent(env: Env, w: World, e: Event)
    requires HandlerWorld(w)
    ensures CurrentStep(env, w, e)
  {
    if WriteOf(env, w, e).Some? {
      var x := WriteOf(env, w, e).value;
      assert SnapCurrent(w, x.call.Tenant(), w.jobs[e.c].phase.view);
    }
  }

  lemma {:induction false} HandlersReadCurrent(env: Env, w: World, es: seq<Event>)
    requires HandlerWorld(w) && forall i | 0 <= i < |es| && es[i].Start? :: !es[i].call.WriteCall?
    ensures ReadsCurrent(env, w, es)
    decreases es
  {
    if es != [] {
      HandlerReadsCurrent(env, w, es[0]);
      HandlerStep(env, w, es[0]);
      HandlersReadCurrent(env, Next(env, w, es[0]), es[1..]);
    }
  }

  /** With PATCH and DELETE alone every run is serial in commit order, links and
      all, even where clocks put rows out of order; and with standalone writers
      too when the rows of all chains come in order. */
  lemma WhenSerial(env: Env, es: seq<Event>)
    requires (forall i | 0 <= i < |es| && es[i].Start? :: !es[i].call.WriteCall?) || (forall t: Uuid :: Ordered(env, EMPTY, es, t))
    ensures Run(env, EMPTY, es).store == ApplyActs(env, EMPTY.store, Acts(env, EMPTY, es))
  {
    if forall i | 0 <= i < |es| && es[i].Start? :: !es[i].call.WriteCall? {
      HandlersReadCurrent(env, EMPTY, es);
    } else {
      OrderedReadsCurrent(env, EMPTY, es);
    }
    SerialRun(env, EMPTY, es);
  }

  // ---- A call that wrote nothing.

  /** The run without the events of one call. */
  function Without(es: seq<Event>, c: nat): seq<Event> {
    if es == [] then [] else (if EventOf(es[0], c) then [] else [es[0]]) + Without(es[1..], c)
  }

  ghost predicate SameButJob(w: World, w': World, c: nat) {
    w.store == w'.store && w'.jobs == w.jobs - {c}
  }

  lemma OwnEventAlone(env: Env, w: World, w': World, e: Event, c: nat)
    requires SameButJob(w, w', c) && EventOf(e, c) && (WriteOf(env, w, e).Some? ==> WriteOf(env, w, e).value.c != c)
    ensures SameButJob(Next(env, w, e), w', c)
  {
    WritesAreWhole(env, w, e);
  }

  lemma OthersEventBoth(env: Env, w: World, w': World, e: Event, c: nat)
    requires SameButJob(w, w', c) && !EventOf(e, c)
    ensures SameButJob(Next(env, w, e), Next(env, w', e), c)
  {
  }

  lemma {:induction false} WithoutCall(env: Env, w: World, w': World, es: seq<Event>, c: nat)
    requires SameButJob(w, w', c) && WritesBy(Trace(env, w, es), c) == 0
    ensures SameButJob(Run(env, w, es), Run(env, w', Without(es, c)), c)
    decreases es
  {
    if es != [] {
      var x, rest := WriteOf(env, w, es[0]), Trace(env, Next(env, w, es[0]), es[1..]);
      if x.Some? { assert ([x.value] + rest)[1..] == rest; } else { assert [] + rest == rest; }
      if EventOf(es[0], c) {
        OwnEventAlone(env, w, w', es[0], c);
        assert [] + Without(es[1..], c) == Without(es[1..], c);
        WithoutCall(env, Next(env, w, es[0]), w', es[1..], c);
      } else {
        OthersEventBoth(env, w, w', es[0], c);
        assert ([es[0]] + Without(es[1..], c))[1..] == Without(es[1..], c);
        WithoutCall(env, Next(env, w, es[0]), Next(env, w', es[0]), es[1..], c);
      }
    }
  }

  /** 500, 404 and the idempotent 204: the call has left nothing behind, in the
      database or in anybody's answer. Both are as after the same run without
      it. */
  lemma OthersLeaveNothing(env: Env, es: seq<Event>, c: nat)
    requires c in Run(env, EMPTY, es).jobs && !Wrote(Run(env, EMPTY, es).jobs[c].phase)
    ensures var w, w' := Run(env, EMPTY, es), Run(env, EMPTY, Without(es, c)); w'.store == w.store && w'.jobs == w.jobs - {c}
  {
    OneWritePerCall(env, EMPTY, es, c);
    WithoutCall(env, EMPTY, EMPTY, es, c);
  }
}
