/** Whole interleaved runs of tenant writes: each tenant's audit chain is one
    line exactly when its rows come in order. */
module TenantRuns {
  import opened Wrappers
  import opened Bytes
  import opened AuditHash
  import opened AuditChain
  import opened Tenants
  import opened TenantWrites

  const EMPTY := World(Store(map[], [], map[]), map[])

  // ---- One chain among all.

  lemma ChainOfAppend(events: seq<Row>, r: Row, t: Uuid)
    ensures ChainOf(events + [r], t) == ChainOf(events, t) + if InChain(r, t) then [r] else []
  {
    assert (events + [r])[..|events|] == events;
  }

  lemma {:induction false} ChainIsPart(events: seq<Row>, t: Uuid)
    ensures forall r | r in ChainOf(events, t) :: r in events
  {
    if events != [] { ChainIsPart(events[..|events| - 1], t); }
  }

  ghost function Chain(w: World, t: Uuid): seq<Row> {
    ChainOf(w.store.events, t)
  }

  lemma {:induction false} ChainIsMonotone(a: seq<Row>, b: seq<Row>, t: Uuid)
    requires a <= b
    ensures ChainOf(a, t) <= ChainOf(b, t)
  {
    if |a| < |b| { ChainIsMonotone(a, b[..|b| - 1], t); } else { assert a == b; }
  }

  /** What one event does to one chain: a write to the tenant appends one row
      linked to the tip its snapshot held; nothing else touches it. */
  lemma ChainStep(env: Env, w: World, e: Event, t: Uuid)
    ensures match WriteOf(env, w, e)
            case Some(x) =>
              if x.call.Tenant() == t
              then && IsNewKey(ChainKey(x.now, x.id), Chain(w, t))
                   && x.Fields().occurredAt == x.now
                   && Chain(Next(env, w, e), t) == Chain(w, t) + [NewRow(env.hash, env.role, x.seen, x.id, x.Fields())]
              else Chain(Next(env, w, e), t) == Chain(w, t)
            case None => Chain(Next(env, w, e), t) == Chain(w, t)
  {
    WritesAreWhole(env, w, e);
    match WriteOf(env, w, e)
    case None =>
    case Some(x) =>
      ChainIsPart(w.store.events, t);
      ChainOfAppend(w.store.events, NewRow(env.hash, env.role, x.seen, x.id, x.Fields()), t);
  }

  lemma {:induction false} ChainGrows(env: Env, w: World, es: seq<Event>, t: Uuid)
    ensures Chain(w, t) <= Chain(Run(env, w, es), t)
    decreases es
  {
    if es != [] {
      var next := Next(env, w, es[0]);
      ChainStep(env, w, es[0], t);
      ChainGrows(env, next, es[1..], t);
      assert Chain(w, t) <= Chain(next, t) <= Chain(Run(env, next, es[1..]), t);
    }
  }

  // ---- What writers have read.

  /** The tip behind each row of a chain is an earlier row of it. */
  ghost predicate ReadsEarlier(rows: seq<Row>, tipsRead: map<ChainKey, Option<ChainKey>>) {
    forall i | 0 <= i < |rows| :: rows[i].Key() in tipsRead && IsEarlierKey(tipsRead[rows[i].Key()], rows, i)
  }

  ghost predicate IsEarlierKey(k: Option<ChainKey>, rows: seq<Row>, i: nat) {
    k.None? || exists j | 0 <= j < i && j < |rows| :: rows[j].Key() == k.value
  }

  /** So is the row whose hash a row carries. */
  ghost predicate LinksEarlier(rows: seq<Row>) {
    forall i | 0 <= i < |rows| :: IsEarlierHash(rows[i].prev, rows, i)
  }

  ghost predicate IsEarlierHash(h: Option<Bytes>, rows: seq<Row>, i: nat) {
    h.None? || exists j | 0 <= j < i && j < |rows| :: rows[j].hash == h.value
  }

  /** A chain as any run leaves it: its keys are unique, its rows link back to
      earlier ones, and every open snapshot holds a beginning of it. */
  ghost predicate WellRead(w: World, t: Uuid) {
    && UniqueKeys(Chain(w, t)) && ReadsEarlier(Chain(w, t), w.store.tipsRead) && LinksEarlier(Chain(w, t))
    && forall c | c in w.jobs && w.jobs[c].phase.Snapped? :: w.jobs[c].phase.view.events <= w.store.events
  }

  lemma ReadsGrow(rows: seq<Row>, tipsRead: map<ChainKey, Option<ChainKey>>, r: Row, seen: seq<Row>)
    requires ReadsEarlier(rows, tipsRead) && IsNewKey(r.Key(), rows) && seen <= rows
    ensures ReadsEarlier(rows + [r], tipsRead[r.Key() := TipKey(seen)])
  {
    var more, reads' := rows + [r], tipsRead[r.Key() := TipKey(seen)];
    forall i | 0 <= i < |more| ensures more[i].Key() in reads' && IsEarlierKey(reads'[more[i].Key()], more, i) {
      if i < |rows| {
        assert IsEarlierKey(tipsRead[rows[i].Key()], rows, i);
        if tipsRead[rows[i].Key()].Some? {
          var j :| 0 <= j < i && j < |rows| && rows[j].Key() == tipsRead[rows[i].Key()].value;
          assert more[j] == rows[j];
        }
      } else if Tip(seen).Some? {
        var j :| 0 <= j < |seen| && seen[j] == Tip(seen).value;
        assert more[j] == seen[j];
      }
    }
  }

  lemma LinksGrow(rows: seq<Row>, d: RowHash, role: PoolRole, seen: seq<Row>, id: Uuid, f: Fields)
    requires LinksEarlier(rows) && seen <= rows
    ensures LinksEarlier(rows + [NewRow(d, role, seen, id, f)])
  {
    var r := NewRow(d, role, seen, id, f);
    var more := rows + [r];
    forall i | 0 <= i < |more| ensures IsEarlierHash(more[i].prev, more, i) {
      if i < |rows| {
        assert IsEarlierHash(rows[i].prev, rows, i);
        if rows[i].prev.Some? {
          var j :| 0 <= j < i && j < |rows| && rows[j].hash == rows[i].prev.value;
          assert more[j] == rows[j];
        }
      } else if r.prev.Some? {
        var j :| 0 <= j < |seen| && seen[j] == Tip(seen).value;
        assert more[j] == seen[j];
      }
    }
  }

  /** What was committed stays, and snapshots hold what was committed. */
  lemma SnapshotsArePast(env: Env, w: World, e: Event)
    requires forall c | c in w.jobs && w.jobs[c].phase.Snapped? :: w.jobs[c].phase.view.events <= w.store.events
    ensures var w' := Next(env, w, e);
            && w.store.events <= w'.store.events
            && forall c | c in w'.jobs && w'.jobs[c].phase.Snapped? :: w'.jobs[c].phase.view.events <= w'.store.events
  {
    WritesAreWhole(env, w, e);
  }

  lemma SeenIsPast(env: Env, w: World, e: Event, t: Uuid)
    requires WellRead(w, t) && WriteOf(env, w, e).Some? && WriteOf(env, w, e).value.call.Tenant() == t
    ensures WriteOf(env, w, e).value.seen <= Chain(w, t)
  {
    ChainIsMonotone(w.jobs[e.c].phase.view.events, w.store.events, t);
  }

  /** A row of another chain leaves this one alone. */
  lemma ReadsStay(rows: seq<Row>, tipsRead: map<ChainKey, Option<ChainKey>>, k: ChainKey, tip: Option<ChainKey>)
    requires ReadsEarlier(rows, tipsRead) && IsNewKey(k, rows)
    ensures ReadsEarlier(rows, tipsRead[k := tip])
  {
    forall i | 0 <= i < |rows| ensures rows[i].Key() in tipsRead[k := tip] && IsEarlierKey(tipsRead[k := tip][rows[i].Key()], rows, i) {
      assert rows[i] in rows && IsEarlierKey(tipsRead[rows[i].Key()], rows, i);
    }
  }

  lemma RowsWellRead(env: Env, s: Store, s': Store, x: Write, t: Uuid)
    requires x.Valid() && IsNewKey(ChainKey(x.now, x.id), s.events)
    requires var rows := ChainOf(s.events, t); UniqueKeys(rows) && ReadsEarlier(rows, s.tipsRead) && LinksEarlier(rows)
    requires s'.tipsRead == s.tipsRead[ChainKey(x.now, x.id) := TipKey(x.seen)]
    requires if x.call.Tenant() == t
             then x.seen <= ChainOf(s.events, t)
                  && ChainOf(s'.events, t) == ChainOf(s.events, t) + [NewRow(env.hash, env.role, x.seen, x.id, x.Fields())]
             else ChainOf(s'.events, t) == ChainOf(s.events, t)
    ensures var rows := ChainOf(s'.events, t); UniqueKeys(rows) && ReadsEarlier(rows, s'.tipsRead) && LinksEarlier(rows)
  {
    var rows := ChainOf(s.events, t);
    ChainIsPart(s.events, t);
    assert x.Fields().occurredAt == x.now;
    if x.call.Tenant() == t {
      ReadsGrow(rows, s.tipsRead, NewRow(env.hash, env.role, x.seen, x.id, x.Fields()), x.seen);
      LinksGrow(rows, env.hash, env.role, x.seen, x.id, x.Fields());
    } else {
      ReadsStay(rows, s.tipsRead, ChainKey(x.now, x.id), TipKey(x.seen));
    }
  }

  lemma WellReadStep(env: Env, w: World, e: Event, t: Uuid)
    requires WellRead(w, t)
    ensures WellRead(Next(env, w, e), t)
  {
    SnapshotsArePast(env, w, e);
    ChainStep(env, w, e, t);
    WritesAreWhole(env, w, e);
    var x := WriteOf(env, w, e);
    if x.Some? {
      if x.value.call.Tenant() == t { SeenIsPast(env, w, e, t); }
      RowsWellRead(env, w.store, Next(env, w, e).store, x.value, t);
    }
  }

  lemma {:induction false} WellReadRun(env: Env, w: World, es: seq<Event>, t: Uuid)
    requires WellRead(w, t)
    ensures WellRead(Run(env, w, es), t)
    decreases es
  {
    if es != [] {
      WellReadStep(env, w, es[0], t);
      WellReadRun(env, Next(env, w, es[0]), es[1..], t);
    }
  }

  // ---- The ordering hypothesis.

  /** A write to the tenant's chain comes after every row already there. */
  ghost predicate OrderedStep(env: Env, w: World, e: Event, t: Uuid) {
    match WriteOf(env, w, e)
    case Some(x) => x.call.Tenant() == t ==> Exceeds(ChainKey(x.now, x.id), Chain(w, t))
    case None => true
  }

  ghost predicate Ordered(env: Env, w: World, es: seq<Event>, t: Uuid)
    decreases es
  {
    es == [] || (OrderedStep(env, w, es[0], t) && Ordered(env, Next(env, w, es[0]), es[1..], t))
  }

  /** A chain whose commit order is its reading order, and that verifies. */
  ghost predicate ChainOk(d: RowHash, rows: seq<Row>) {
    UniqueKeys(rows) && Linear(d, rows) && InOrder(rows) == rows
  }

  /** A row that comes after all others was linked to the tip of that moment,
      however old its snapshot: otherwise it would have made a cycle with the
      tip's writer. */
  lemma OrderedLinksToTip(env: Env, w: World, e: Event, t: Uuid)
    requires WellRead(w, t) && WriteOf(env, w, e).Some? && WriteOf(env, w, e).value.call.Tenant() == t
    requires var x := WriteOf(env, w, e).value; Exceeds(ChainKey(x.now, x.id), Chain(w, t))
    ensures Tip(WriteOf(env, w, e).value.seen) == Tip(Chain(w, t))
  {
    var x, rows := WriteOf(env, w, e).value, Chain(w, t);
    SeenIsPast(env, w, e, t);
    if rows != [] {
      TipIsLast(rows);
      var n := Tip(rows).value;
      if n in x.seen { TipOfPart(x.seen, rows); } else { NewTipIsCycle(x.seen, rows, w.store.tipsRead, ChainKey(x.now, x.id)); }
    }
  }

  /** A beginning of the chain that holds its tip has the same tip. */
  lemma TipOfPart(part: seq<Row>, rows: seq<Row>)
    requires UniqueKeys(rows) && part <= rows && rows != [] && Tip(rows).Some? && Tip(rows).value in part
    ensures Tip(part) == Tip(rows)
  {
    assert forall r | r in part :: r in rows;
    TipIsLast(rows);
    TipIsLast(part);
    BeforeIsTotal(Tip(part).value.Key(), Tip(rows).value.Key());
  }

  /** A tip that came since, and a key after everything. */
  lemma NewTipIsCycle(seen: seq<Row>, rows: seq<Row>, tipsRead: map<ChainKey, Option<ChainKey>>, k: ChainKey)
    requires UniqueKeys(rows) && ReadsEarlier(rows, tipsRead) && seen <= rows && Exceeds(k, rows)
    requires Tip(rows).Some? && Tip(rows).value !in seen
    ensures Cycle(seen, rows, tipsRead, k)
  {
    TipIsLast(rows);
    var n := Tip(rows).value;
    var i :| 0 <= i < |rows| && rows[i] == n;
    assert IsEarlierKey(tipsRead[n.Key()], rows, i);
    assert Tip(seen).Some? ==> Tip(seen).value in rows;
    assert ChangesTip(n.Key(), TipKey(seen)) && ChangesTip(k, tipsRead[n.Key()]);
  }

  lemma {:induction false} OrderedKeepsChain(env: Env, w: World, es: seq<Event>, t: Uuid)
    requires env.role.bypassesRls && WellRead(w, t) && ChainOk(env.hash, Chain(w, t)) && Ordered(env, w, es, t)
    ensures ChainOk(env.hash, Chain(Run(env, w, es), t))
    decreases es
  {
    if es != [] {
      ChainStep(env, w, es[0], t);
      WellReadStep(env, w, es[0], t);
      var x := WriteOf(env, w, es[0]);
      if x.Some? && x.value.call.Tenant() == t {
        OrderedLinksToTip(env, w, es[0], t);
        AppendKeepsLinear(env.hash, env.role, Chain(w, t), x.value.id, x.value.Fields());
      }
      OrderedKeepsChain(env, Next(env, w, es[0]), es[1..], t);
    }
  }

  /** Linearity: whatever the interleaving of attempts over any number of
      tenants, on a role that `verify_pool_role` accepts, a chain whose rows
      come in order is one line when read in order: the first row has no
      previous hash, each later one has the hash of the row before, and no two
      share a predecessor unless two of its rows are a collision. */
  lemma ChainsAreLinear(env: Env, es: seq<Event>, t: Uuid)
    requires env.role.Fit() && Ordered(env, EMPTY, es, t)
    ensures var rows := Chain(Run(env, EMPTY, es), t);
            && InOrder(rows) == rows && Verifies(env.hash, rows)
            && (NoCollision(env.hash, rows, rows) ==>
                  forall i, j | 0 <= i < j < |rows| :: rows[i].prev != rows[j].prev)
  {
    OrderedKeepsChain(env, EMPTY, es, t);
    var rows := Chain(Run(env, EMPTY, es), t);
    if NoCollision(env.hash, rows, rows) {
      forall i, j | 0 <= i < j < |rows| ensures rows[i].prev != rows[j].prev {
        NoForks(env.hash, rows, i, j);
      }
    }
  }

  // ---- And only then.

  /** In a verifying chain a row carries the hash of the row before it only. */
  lemma LinkIsPrevious(d: RowHash, s: seq<Row>, i: nat, j: nat)
    requires Verifies(d, s) && NoCollision(d, s, s) && i < |s| && j < |s| && s[i].prev == Some(s[j].hash)
    ensures i == j + 1
  {
    assert RowVerifies(d, s, i);
    if j < i - 1 { HashesAreDistinct(d, s, j, i - 1); }
    if i - 1 < j { HashesAreDistinct(d, s, i - 1, j); }
  }

  /** Nothing comes after the tip. */
  lemma TipIsLast(rows: seq<Row>)
    requires UniqueKeys(rows) && rows != []
    ensures Tip(rows).Some? && Tip(rows).value in rows
    ensures forall r | r in rows :: r == Tip(rows).value || r.Key().Before(Tip(rows).value.Key())
  {
    TipEndsTheChain(rows);
    InOrderAscends(rows);
    SameRows(rows);
  }

  /** Where each row of the chain in order was committed. */
  ghost predicate IsPlace(rows: seq<Row>, s: seq<Row>, place: seq<nat>) {
    |place| == |s| == |rows| && forall p | 0 <= p < |s| :: place[p] < |rows| && rows[place[p]] == s[p]
  }

  lemma PlaceExists(rows: seq<Row>) returns (place: seq<nat>)
    ensures IsPlace(rows, InOrder(rows), place)
  {
    var s := InOrder(rows);
    SameRows(rows);
    place := [];
    while |place| < |s|
      invariant |place| <= |s|
      invariant forall p | 0 <= p < |place| :: place[p] < |rows| && rows[place[p]] == s[p]
    {
      assert s[|place|] in rows;
      var i :| 0 <= i < |rows| && rows[i] == s[|place|];
      place := place + [i];
    }
  }

  /** In a line, each row was committed before the one that follows it. */
  lemma PlacesAscend(d: RowHash, rows: seq<Row>, place: seq<nat>, p: nat)
    requires UniqueKeys(rows) && LinksEarlier(rows) && Linear(d, rows) && NoCollision(d, InOrder(rows), InOrder(rows))
    requires IsPlace(rows, InOrder(rows), place) && 0 < p < |rows|
    ensures place[p - 1] < place[p]
  {
    var s := InOrder(rows);
    assert RowVerifies(d, s, p) && IsEarlierHash(rows[place[p]].prev, rows, place[p]);
    var j :| 0 <= j < place[p] && rows[j].hash == s[p].prev.value;
    SameRows(rows);
    LinkedRow(d, s, p, rows[j]);
    SameKeySamePlace(rows, place[p - 1], j);
  }

  /** The row a row of the line is linked to stands right before it. */
  lemma LinkedRow(d: RowHash, s: seq<Row>, p: nat, r: Row)
    requires Verifies(d, s) && NoCollision(d, s, s) && r in s && 0 < p < |s| && s[p].prev == Some(r.hash)
    ensures s[p - 1] == r
  {
    var q :| 0 <= q < |s| && s[q] == r;
    LinkIsPrevious(d, s, p, q);
  }

  lemma SameKeySamePlace(rows: seq<Row>, i: nat, j: nat)
    requires UniqueKeys(rows) && i < |rows| && j < |rows| && rows[i] == rows[j]
    ensures i == j
  {
  }

  lemma {:induction false} AscendingPlaces(place: seq<nat>, p: nat)
    requires forall q | 0 < q < |place| :: place[q - 1] < place[q]
    requires forall q | 0 <= q < |place| :: place[q] < |place|
    requires p < |place|
    ensures p <= place[p]
  {
    if p > 0 { AscendingPlaces(place, p - 1); }
  }

  lemma {:induction false} BoundedPlaces(place: seq<nat>, p: nat)
    requires forall q | 0 < q < |place| :: place[q - 1] < place[q]
    requires forall q | 0 <= q < |place| :: place[q] < |place|
    requires p < |place|
    ensures place[p] <= p
    decreases |place| - p
  {
    if p + 1 < |place| {
      BoundedPlaces(place, p + 1);
      assert place[p + 1 - 1] < place[p + 1];
    }
  }

  /** A chain that is one line was committed in its reading order. */
  lemma LinearMeansAscending(d: RowHash, rows: seq<Row>)
    requires UniqueKeys(rows) && LinksEarlier(rows) && Linear(d, rows) && NoCollision(d, InOrder(rows), InOrder(rows))
    ensures InOrder(rows) == rows && Ascending(rows)
  {
    var place := PlaceExists(rows);
    forall p | 0 < p < |rows| ensures place[p - 1] < place[p] { PlacesAscend(d, rows, place, p); }
    forall p | 0 <= p < |rows| ensures place[p] == p {
      AscendingPlaces(place, p);
      BoundedPlaces(place, p);
    }
    InOrderAscends(rows);
  }

  lemma {:induction false} AscendingMeansOrdered(env: Env, w: World, es: seq<Event>, t: Uuid)
    requires Ascending(Chain(Run(env, w, es), t))
    ensures Ordered(env, w, es, t)
    decreases es
  {
    if es != [] {
      var next, rows := Next(env, w, es[0]), Chain(Run(env, w, es), t);
      ChainStep(env, w, es[0], t);
      ChainGrows(env, next, es[1..], t);
      var x := WriteOf(env, w, es[0]);
      if x.Some? && x.value.call.Tenant() == t {
        var n := |Chain(w, t)|;
        assert rows[n] == Chain(next, t)[n] && rows[n].Key() == ChainKey(x.value.now, x.value.id);
        assert forall i | 0 <= i < n :: rows[i] == Chain(next, t)[i] == Chain(w, t)[i];
      }
      AscendingMeansOrdered(env, next, es[1..], t);
    }
  }

  /** The ordering hypothesis is exact over whole runs: as long as no two rows
      of the chain are a collision, it is one line at the end if and only if
      every one of its rows committed after all rows before it in key order. */
  lemma LinearIffOrdered(env: Env, es: seq<Event>, t: Uuid)
    requires env.role.Fit()
    requires var rows := Chain(Run(env, EMPTY, es), t); NoCollision(env.hash, InOrder(rows), InOrder(rows))
    ensures Linear(env.hash, Chain(Run(env, EMPTY, es), t)) <==> Ordered(env, EMPTY, es, t)
  {
    if Ordered(env, EMPTY, es, t) { OrderedKeepsChain(env, EMPTY, es, t); }
    if Linear(env.hash, Chain(Run(env, EMPTY, es), t)) {
      WellReadRun(env, EMPTY, es, t);
      LinearMeansAscending(env.hash, Chain(Run(env, EMPTY, es), t));
      AscendingMeansOrdered(env, EMPTY, es, t);
    }
  }

  // ---- A role `verify_pool_role` refuses.

  ghost predicate StandsAlone(d: RowHash, r: Row) {
    r.prev == None && r.hash == d(r.fields, None)
  }

  lemma {:induction false} UnfitRows(env: Env, w: World, es: seq<Event>, t: Uuid)
    requires !env.role.Fit() && forall r | r in Chain(w, t) :: StandsAlone(env.hash, r)
    ensures forall r | r in Chain(Run(env, w, es), t) :: StandsAlone(env.hash, r)
    ensures !(env.role.canInsert && env.role.canSelect && env.insertPolicy) ==> Chain(Run(env, w, es), t) == Chain(w, t)
    decreases es
  {
    if es != [] {
      ChainStep(env, w, es[0], t);
      WritesAreWhole(env, w, es[0]);
      UnfitRows(env, Next(env, w, es[0]), es[1..], t);
    }
  }

  /** What `verify_pool_role` guards against: on a role it refuses every row is a
      first row, so a chain is a line only while it has at most one. With the
      policies of this schema there is not even one, because the INSERT of a
      role that row-level security applies to is refused. */
  lemma UnfitRoleHasNoChain(env: Env, es: seq<Event>, t: Uuid)
    requires !env.role.Fit()
    ensures var rows := Chain(Run(env, EMPTY, es), t);
            && (Linear(env.hash, rows) <==> |rows| <= 1)
            && (forall r | r in rows :: r.prev == None)
            && (!env.insertPolicy ==> rows == [])
  {
    UnfitRows(env, EMPTY, es, t);
    var rows := Chain(Run(env, EMPTY, es), t);
    var s := InOrder(rows);
    SameRows(rows);
    if |rows| > 1 {
      assert s[1] in s;
      assert !RowVerifies(env.hash, s, 1);
    } else if |rows| == 1 {
      assert s[0] in s;
    }
  }

  // ---- When rows come in order by themselves.

  /** Clock readings at BEGIN, strictly increasing through the run. */
  ghost predicate Clocked(es: seq<Event>) {
    forall i, j | 0 <= i < j < |es| && es[i].Begin? && es[j].Begin? :: es[i].now.Earlier(es[j].now)
  }

  /** Every transaction takes its snapshot right after BEGIN has fixed its
      `now()`, before anyone else does anything. */
  ghost predicate Prompt(es: seq<Event>) {
    forall i | 0 <= i < |es| && es[i].Begin? :: i + 1 < |es| && es[i + 1] == Snap(es[i].c)
  }

  ghost predicate BeforeAllBegins(at: Utc, es: seq<Event>) {
    forall i | 0 <= i < |es| && es[i].Begin? :: at.Earlier(es[i].now)
  }

  ghost predicate AllEarlier(rows: seq<Row>, now: Utc) {
    forall r | r in rows :: r.fields.occurredAt.Earlier(now)
  }

  ghost predicate NoneAt(rows: seq<Row>, now: Utc) {
    forall r | r in rows :: r.fields.occurredAt != now
  }

  ghost predicate JobFresh(j: Job, rows: seq<Row>, t: Uuid, es: seq<Event>) {
    match j.phase
    case Begun(_) => false
    case Snapped(now, view) => BeforeAllBegins(now, es) && AllEarlier(ChainOf(view.events, t), now) && NoneAt(rows, now)
    case _ => true
  }

  /** No transaction is between BEGIN and its snapshot, each has a clock reading
      of its own and saw only rows from before it, and every reading still to
      come is later than all. */
  ghost predicate Fresh(w: World, t: Uuid, es: seq<Event>) {
    && (forall r | r in Chain(w, t) :: BeforeAllBegins(r.fields.occurredAt, es))
    && (forall c | c in w.jobs :: JobFresh(w.jobs[c], Chain(w, t), t, es))
    && (forall c, d | c in w.jobs && d in w.jobs && c != d && w.jobs[c].phase.Snapped? && w.jobs[d].phase.Snapped? ::
          w.jobs[c].phase.now != w.jobs[d].phase.now)
  }

  /** The first row later than a writer's BEGIN, which the writer has not seen,
      and the writer's own row make a cycle: what the row's writer had read was
      earlier. */
  lemma LaterIsCycle(seen: seq<Row>, rows: seq<Row>, tipsRead: map<ChainKey, Option<ChainKey>>, k: ChainKey, i: nat)
    requires ReadsEarlier(rows, tipsRead) && AllEarlier(seen, k.at)
    requires i < |rows| && k.at.Earlier(rows[i].fields.occurredAt)
    requires forall j | 0 <= j < i :: rows[j].fields.occurredAt.Earlier(k.at)
    ensures Cycle(seen, rows, tipsRead, k)
  {
    var n := rows[i];
    assert IsEarlierKey(tipsRead[n.Key()], rows, i);
    assert n in rows && n !in seen;
    assert ChangesTip(n.Key(), TipKey(seen)) && ChangesTip(k, tipsRead[n.Key()]);
  }

  lemma {:induction false} NothingLater(seen: seq<Row>, rows: seq<Row>, tipsRead: map<ChainKey, Option<ChainKey>>, k: ChainKey, n: nat)
    requires ReadsEarlier(rows, tipsRead) && AllEarlier(seen, k.at) && NoneAt(rows, k.at) && n <= |rows|
    ensures (forall j | 0 <= j < n :: rows[j].fields.occurredAt.Earlier(k.at)) || Cycle(seen, rows, tipsRead, k)
  {
    if n > 0 {
      NothingLater(seen, rows, tipsRead, k, n - 1);
      assert rows[n - 1] in rows && rows[n - 1].fields.occurredAt != k.at;
      if k.at.Earlier(rows[n - 1].fields.occurredAt) && forall j | 0 <= j < n - 1 :: rows[j].fields.occurredAt.Earlier(k.at) {
        LaterIsCycle(seen, rows, tipsRead, k, n - 1);
      }
    }
  }

  lemma CommitIsFresh(env: Env, w: World, e: Event, t: Uuid, es: seq<Event>)
    requires WellRead(w, t) && Fresh(w, t, es) && WriteOf(env, w, e).Some? && WriteOf(env, w, e).value.call.Tenant() == t
    ensures OrderedStep(env, w, e, t) && BeforeAllBegins(WriteOf(env, w, e).value.now, es)
  {
    var x := WriteOf(env, w, e).value;
    assert JobFresh(w.jobs[e.c], Chain(w, t), t, es);
    NothingLater(x.seen, Chain(w, t), w.store.tipsRead, ChainKey(x.now, x.id), |Chain(w, t)|);
  }

  /** Only a BEGIN starts a transaction, and its end ends it. */
  lemma TransactionsStay(env: Env, w: World, e: Event)
    requires !e.Begin? && forall c | c in w.jobs :: !w.jobs[c].phase.Begun?
    ensures var w', x := Next(env, w, e), WriteOf(env, w, e);
            && (forall c | c in w'.jobs && InTransaction(w'.jobs[c].phase) :: c in w.jobs && w'.jobs[c] == w.jobs[c])
            && (x.Some? ==> x.value.c in w.jobs && w.jobs[x.value.c].phase.Snapped? && w.jobs[x.value.c].phase.now == x.value.now
                            && !(x.value.c in w'.jobs && InTransaction(w'.jobs[x.value.c].phase)))
  {
  }

  lemma StaysFresh(w: World, w': World, t: Uuid, es: seq<Event>, rest: seq<Event>, added: seq<Row>)
    requires Fresh(w, t, es) && Chain(w', t) == Chain(w, t) + added
    requires forall at: Utc | BeforeAllBegins(at, es) :: BeforeAllBegins(at, rest)
    requires forall c | c in w'.jobs && InTransaction(w'.jobs[c].phase) :: c in w.jobs && w'.jobs[c] == w.jobs[c]
    requires forall r | r in added :: BeforeAllBegins(r.fields.occurredAt, es)
    requires forall c | c in w'.jobs && w'.jobs[c].phase.Snapped? :: NoneAt(added, w'.jobs[c].phase.now)
    ensures Fresh(w', t, rest)
  {
    forall c | c in w'.jobs ensures JobFresh(w'.jobs[c], Chain(w', t), t, rest) {
      if InTransaction(w'.jobs[c].phase) { assert JobFresh(w.jobs[c], Chain(w, t), t, es); }
    }
  }

  /** A new row keeps away from the clock readings of all others. */
  lemma NewRowIsFresh(env: Env, w: World, e: Event, t: Uuid, es: seq<Event>)
    requires !e.Begin? && WellRead(w, t) && Fresh(w, t, es) && WriteOf(env, w, e).Some? && WriteOf(env, w, e).value.call.Tenant() == t
    ensures var x, w' := WriteOf(env, w, e).value, Next(env, w, e);
            var r := NewRow(env.hash, env.role, x.seen, x.id, x.Fields());
            && OrderedStep(env, w, e, t) && BeforeAllBegins(r.fields.occurredAt, es)
            && forall c | c in w'.jobs && w'.jobs[c].phase.Snapped? :: NoneAt([r], w'.jobs[c].phase.now)
  {
    assert forall c | c in w.jobs :: JobFresh(w.jobs[c], Chain(w, t), t, es);
    TransactionsStay(env, w, e);
    CommitIsFresh(env, w, e, t, es);
  }

  /** Any event but a BEGIN or a snapshot keeps everything fresh. */
  lemma FreshStep(env: Env, w: World, es: seq<Event>, t: Uuid)
    requires es != [] && WellRead(w, t) && Fresh(w, t, es) && !es[0].Begin?
    ensures Fresh(Next(env, w, es[0]), t, es[1..]) && OrderedStep(env, w, es[0], t)
  {
    var e, rest, x := es[0], es[1..], WriteOf(env, w, es[0]);
    var added: seq<Row> := [];
    assert forall at: Utc :: BeforeAllBegins(at, es) ==> BeforeAllBegins(at, rest);
    assert forall c | c in w.jobs :: JobFresh(w.jobs[c], Chain(w, t), t, es);
    ChainStep(env, w, e, t);
    TransactionsStay(env, w, e);
    if x.Some? && x.value.call.Tenant() == t {
      NewRowIsFresh(env, w, e, t, es);
      added := [NewRow(env.hash, env.role, x.value.seen, x.value.id, x.value.Fields())];
    }
    StaysFresh(w, Next(env, w, e), t, es, rest, added);
  }

  lemma BeginAndSnap(env: Env, w: World, c: nat, now: Utc)
    requires forall d | d in w.jobs :: !w.jobs[d].phase.Begun?
    ensures Next(env, Next(env, w, Begin(c, now)), Snap(c))
            == if c in w.jobs && w.jobs[c].phase.Ready?
               then w.(jobs := w.jobs[c := w.jobs[c].(phase := Snapped(now, w.store))]) else w
  {
    if c in w.jobs && w.jobs[c].phase.Ready? {
      BeginStep(env, w, c, now);
      var w1 := w.(jobs := w.jobs[c := w.jobs[c].(phase := Begun(now))]);
      SnapStep(env, w1, c);
      assert w1.jobs[c := w.jobs[c].(phase := Snapped(now, w.store))] == w.jobs[c := w.jobs[c].(phase := Snapped(now, w.store))];
    }
  }

  lemma SnappedIsFresh(w: World, w': World, t: Uuid, es: seq<Event>, rest: seq<Event>, c: nat, now: Utc)
    requires Fresh(w, t, es) && BeforeAllBegins(now, rest)
    requires forall at: Utc | BeforeAllBegins(at, es) :: BeforeAllBegins(at, rest) && at.Earlier(now)
    requires w' == if c in w.jobs && w.jobs[c].phase.Ready?
                   then w.(jobs := w.jobs[c := w.jobs[c].(phase := Snapped(now, w.store))]) else w
    ensures Fresh(w', t, rest)
  {
    forall d | d in w'.jobs ensures JobFresh(w'.jobs[d], Chain(w', t), t, rest) {
      assert JobFresh(w.jobs[d], Chain(w, t), t, es);
    }
  }

  /** A BEGIN and its snapshot together keep it too. */
  lemma FreshBegin(env: Env, w: World, es: seq<Event>, t: Uuid)
    requires es != [] && Fresh(w, t, es) && es[0].Begin? && Clocked(es) && Prompt(es)
    ensures |es| > 1 && Fresh(Next(env, Next(env, w, es[0]), es[1]), t, es[2..])
    ensures OrderedStep(env, w, es[0], t) && OrderedStep(env, Next(env, w, es[0]), es[1], t)
  {
    var c, now, rest := es[0].c, es[0].now, es[2..];
    assert es[1] == Snap(c);
    assert forall at: Utc :: BeforeAllBegins(at, es) ==> BeforeAllBegins(at, rest) && at.Earlier(now);
    assert forall d | d in w.jobs :: JobFresh(w.jobs[d], Chain(w, t), t, es);
    BeginAndSnap(env, w, c, now);
    SnappedIsFresh(w, Next(env, Next(env, w, es[0]), es[1]), t, es, rest, c, now);
  }

  lemma {:induction false} FreshMeansOrdered(env: Env, w: World, es: seq<Event>, t: Uuid)
    requires WellRead(w, t) && Fresh(w, t, es) && Clocked(es) && Prompt(es)
    ensures Ordered(env, w, es, t)
    decreases |es|
  {
    if es != [] {
      WellReadStep(env, w, es[0], t);
      if es[0].Begin? {
        FreshBegin(env, w, es, t);
        WellReadStep(env, Next(env, w, es[0]), es[1], t);
        assert es[1..][1..] == es[2..];
        FreshMeansOrdered(env, Next(env, Next(env, w, es[0]), es[1]), es[2..], t);
      } else {
        FreshStep(env, w, es, t);
        FreshMeansOrdered(env, Next(env, w, es[0]), es[1..], t);
      }
    }
  }

  /** With a clock that never repeats, the gap between BEGIN and the first query
      is the only way out of order: when every transaction takes its snapshot at
      BEGIN, all chains are lines, however attempts and commits interleave. */
  lemma PromptRunsAreLinear(env: Env, es: seq<Event>, t: Uuid)
    requires env.role.Fit() && Clocked(es) && Prompt(es)
    ensures Ordered(env, EMPTY, es, t) && Verifies(env.hash, Chain(Run(env, EMPTY, es), t))
  {
    FreshMeansOrdered(env, EMPTY, es, t);
    ChainsAreLinear(env, es, t);
  }
}
