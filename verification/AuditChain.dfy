/** Chains of audit rows: verifying one, the order it is read in, the tip a
    writer links to, and when an append keeps it one line. */
module AuditChain {
  import opened Wrappers
  import opened Bytes
  import Json
  import opened AuditHash

  // ---- Rows and their keys.

  /** The primary key of `audit_events`, and the order a chain is read in. */
  datatype ChainKey = ChainKey(at: Utc, id: Uuid) {
    predicate Before(k: ChainKey) {
      at.Earlier(k.at) || (at == k.at && Json.Before(id, k.id))
    }
  }

  lemma BeforeIsTotal(a: ChainKey, b: ChainKey)
    ensures a.Before(b) || b.Before(a) || a == b
    ensures !(a.Before(b) && b.Before(a)) && !a.Before(a)
  {
    Json.BeforeIsTotal(a.id, b.id);
    Json.BeforeIsTotal(a.id, a.id);
  }

  lemma BeforeIsTransitive(a: ChainKey, b: ChainKey, c: ChainKey)
    requires a.Before(b) && b.Before(c)
    ensures a.Before(c)
  {
    if a.at == b.at == c.at { Json.BeforeIsTransitive(a.id, b.id, c.id); }
  }

  /** By time, and at the same time by the first byte in which the ids differ. */
  lemma KeyOrder(k: ChainKey, l: ChainKey, i: nat)
    requires i < 16 && k.id[..i] == l.id[..i] && k.id[i] != l.id[i]
    ensures k.Before(l) <==> Places(k.at) < Places(l.at) || (Places(k.at) == Places(l.at) && k.id[i] < l.id[i])
  {
    EarlierIff(k.at, l.at);
    Json.FirstDifference(k.id, l.id, i);
  }

  /** One row of `audit_events`. */
  datatype Row = Row(id: Uuid, fields: Fields, prev: Option<Bytes>, hash: Bytes) {
    function Key(): ChainKey {
      ChainKey(fields.occurredAt, id)
    }
  }

  predicate IsNewKey(k: ChainKey, rows: seq<Row>) {
    forall r | r in rows :: r.Key() != k
  }

  predicate UniqueKeys(rows: seq<Row>) {
    forall i, j | 0 <= i < j < |rows| :: rows[i].Key() != rows[j].Key()
  }

  /** The ordering hypothesis: a key after every row already there. */
  predicate Exceeds(k: ChainKey, rows: seq<Row>) {
    forall r | r in rows :: r.Key().Before(k)
  }

  // ---- Verifying a chain row by row.

  /** A row's hash as a function of its columns: `payload_hash` with SHA-256
      filled in. */
  type RowHash = (Fields, Option<Bytes>) -> Bytes

  ghost predicate Gives32(d: RowHash) {
    forall f: Fields, p: Option<Bytes> :: |d(f, p)| == 32
  }

  /** What a verifier re-derives for row `i`: its hash from its own columns, and
      its previous hash from the row before. */
  predicate RowVerifies(d: RowHash, chain: seq<Row>, i: nat)
    requires i < |chain|
  {
    && chain[i].hash == d(chain[i].fields, chain[i].prev)
    && chain[i].prev == if i == 0 then None else Some(chain[i - 1].hash)
  }

  predicate Verifies(d: RowHash, chain: seq<Row>) {
    forall i | 0 <= i < |chain| :: RowVerifies(d, chain, i)
  }

  lemma ChopVerifies(d: RowHash, chain: seq<Row>, n: nat)
    requires Verifies(d, chain) && n <= |chain|
    ensures Verifies(d, chain[..n])
  {
    forall i | 0 <= i < n ensures RowVerifies(d, chain[..n], i) {
      assert RowVerifies(d, chain, i);
    }
  }

  /** Equal in every column but `id`, which the hash does not cover. */
  predicate SameButId(r: Row, s: Row) {
    r.fields == s.fields && r.prev == s.prev && r.hash == s.hash
  }

  /** Row `i` of one chain and row `j` of the other have the same hash and
      differ in what was hashed. */
  predicate Collide(d: RowHash, a: seq<Row>, i: nat, b: seq<Row>, j: nat) {
    && i < |a| && j < |b|
    && !(a[i].fields == b[j].fields && a[i].prev == b[j].prev)
    && d(a[i].fields, a[i].prev) == d(b[j].fields, b[j].prev)
  }

  predicate NoCollision(d: RowHash, a: seq<Row>, b: seq<Row>) {
    forall i, j | 0 <= i < |a| && 0 <= j < |b| :: !Collide(d, a, i, b, j)
  }

  /** Walk two chains back from their tips and stop at the first pair of rows
      that differ. */
  function FindCollision(d: RowHash, a: seq<Row>, b: seq<Row>): (c: Option<(nat, nat)>)
    requires Verifies(d, a) && Verifies(d, b)
    requires |a| > 0 && |b| > 0 && a[|a| - 1].hash == b[|b| - 1].hash
    ensures c.Some? ==> Collide(d, a, c.value.0, b, c.value.1)
    ensures c.None? ==> |a| == |b| && forall i | 0 <= i < |a| :: SameButId(a[i], b[i])
    decreases |a|
  {
    var m, n := |a| - 1, |b| - 1;
    assert RowVerifies(d, a, m) && RowVerifies(d, b, n);
    if a[m].fields != b[n].fields || a[m].prev != b[n].prev then Some((m, n))
    else if m == 0 || n == 0 then None
    else
      ChopVerifies(d, a, m);
      ChopVerifies(d, b, n);
      var c := FindCollision(d, a[..m], b[..n]);
      assert c.None? ==> forall i | 0 <= i < m :: SameButId(a[..m][i], b[..n][i]) && SameButId(a[i], b[i]);
      c
  }

  /** In a verifying chain no two rows have the same hash, unless two of its
      rows are a collision. */
  lemma HashesAreDistinct(d: RowHash, chain: seq<Row>, i: nat, j: nat)
    requires Verifies(d, chain) && i < j < |chain| && NoCollision(d, chain, chain)
    ensures chain[i].hash != chain[j].hash
  {
    if chain[i].hash == chain[j].hash {
      var a, b := chain[..i + 1], chain[..j + 1];
      ChopVerifies(d, chain, i + 1);
      ChopVerifies(d, chain, j + 1);
      var c := FindCollision(d, a, b);
      assert Collide(d, a, c.value.0, b, c.value.1) && Collide(d, chain, c.value.0, chain, c.value.1);
    }
  }

  /** Nor do two rows share a predecessor. */
  lemma NoForks(d: RowHash, chain: seq<Row>, i: nat, j: nat)
    requires Verifies(d, chain) && i < j < |chain| && NoCollision(d, chain, chain)
    ensures chain[i].prev != chain[j].prev
  {
    assert RowVerifies(d, chain, i) && RowVerifies(d, chain, j);
    if i > 0 { HashesAreDistinct(d, chain, i - 1, j - 1); }
  }

  // ---- Reading a chain in order.

  predicate Ascending(rows: seq<Row>) {
    forall i, j | 0 <= i < j < |rows| :: rows[i].Key().Before(rows[j].Key())
  }

  function Insert(r: Row, s: seq<Row>): (t: seq<Row>)
    ensures |t| == |s| + 1
  {
    var n := |s|;
    if n == 0 || s[n - 1].Key().Before(r.Key()) then s + [r] else Insert(r, s[..n - 1]) + [s[n - 1]]
  }

  /** `ORDER BY occurred_at, id`. */
  function InOrder(rows: seq<Row>): (t: seq<Row>)
    ensures |t| == |rows|
  {
    if rows == [] then [] else Insert(rows[|rows| - 1], InOrder(rows[..|rows| - 1]))
  }

  lemma AfterLastIsAfterAll(k: ChainKey, s: seq<Row>)
    requires Ascending(s) && (s != [] ==> s[|s| - 1].Key().Before(k))
    ensures Exceeds(k, s)
  {
    forall i | 0 <= i < |s| - 1 ensures s[i].Key().Before(k) {
      BeforeIsTransitive(s[i].Key(), s[|s| - 1].Key(), k);
    }
  }

  lemma BeforeLast(s: seq<Row>, k: nat, r: Row)
    requires k < |s|
    ensures var front := s[..|s| - 1];
            front[..k] == s[..k] && front[..k] + [r] + front[k..] + [s[|s| - 1]] == s[..k] + [r] + s[k..]
  {
    var front, last := s[..|s| - 1], s[|s| - 1];
    assert front[k..] + [last] == s[k..];
    Assoc(s[..k] + [r], front[k..], [last]);
  }

  /** The row goes in right after the last row that comes before it. */
  lemma {:induction false} InsertPlace(r: Row, s: seq<Row>) returns (k: nat)
    ensures k <= |s| && Insert(r, s) == s[..k] + [r] + s[k..]
    ensures k > 0 ==> s[k - 1].Key().Before(r.Key())
    ensures forall i | k <= i < |s| :: !s[i].Key().Before(r.Key())
  {
    k := |s|;
    if s == [] || s[|s| - 1].Key().Before(r.Key()) {
      assert s[..k] == s && s + [r] == s[..k] + [r] + s[k..];
    } else {
      var front := s[..|s| - 1];
      k := InsertPlace(r, front);
      BeforeLast(s, k, r);
      assert forall i | k <= i < |front| :: front[i] == s[i];
    }
  }

  /** In an ascending chain that is between those before it and those after it. */
  lemma InsertAscends(r: Row, s: seq<Row>, k: nat)
    requires Ascending(s) && IsNewKey(r.Key(), s) && k <= |s| && (k > 0 ==> s[k - 1].Key().Before(r.Key()))
    requires forall i | k <= i < |s| :: !s[i].Key().Before(r.Key())
    ensures Exceeds(r.Key(), s[..k]) && Ascending(s[..k] + [r] + s[k..])
  {
    AfterLastIsAfterAll(r.Key(), s[..k]);
    forall i | k <= i < |s| ensures r.Key().Before(s[i].Key()) {
      assert s[i] in s;
      BeforeIsTotal(s[i].Key(), r.Key());
    }
    JoinAscends(r, s, k);
  }

  lemma JoinAscends(r: Row, s: seq<Row>, k: nat)
    requires Ascending(s) && k <= |s| && Exceeds(r.Key(), s[..k]) && forall i | k <= i < |s| :: r.Key().Before(s[i].Key())
    ensures Ascending(s[..k] + [r] + s[k..])
  {
    assert forall i | 0 <= i < k :: s[..k][i] == s[i] && s[i] in s[..k];
  }

  /** What stays in front of a row with this key, and what comes to stand after
      it. */
  function UpTo(s: seq<Row>, k: ChainKey): seq<Row> {
    if s == [] || s[|s| - 1].Key().Before(k) then s else UpTo(s[..|s| - 1], k)
  }

  function After(s: seq<Row>, k: ChainKey): seq<Row> {
    if s == [] || s[|s| - 1].Key().Before(k) then [] else After(s[..|s| - 1], k) + [s[|s| - 1]]
  }

  lemma {:induction false} InsertSplits(r: Row, s: seq<Row>)
    ensures s == UpTo(s, r.Key()) + After(s, r.Key())
    ensures Insert(r, s) == UpTo(s, r.Key()) + ([r] + After(s, r.Key()))
  {
    if s != [] && !s[|s| - 1].Key().Before(r.Key()) {
      var front, last := s[..|s| - 1], s[|s| - 1];
      InsertSplits(r, front);
      var a, b := UpTo(front, r.Key()), After(front, r.Key());
      Assoc(a, b, [last]);
      Assoc(a, [r] + b, [last]);
      Assoc([r], b, [last]);
    }
  }

  /** In an ascending chain those are the rows with a later key. */
  lemma {:induction false} AfterIsLater(s: seq<Row>, k: ChainKey)
    requires Ascending(s) && IsNewKey(k, s)
    ensures forall q :: q in After(s, k) <==> q in s && k.Before(q.Key())
  {
    if s == [] {
    } else if s[|s| - 1].Key().Before(k) {
      AfterLastIsAfterAll(k, s);
      forall q | q in s ensures !k.Before(q.Key()) { BeforeIsTotal(q.Key(), k); }
    } else {
      var front, last := s[..|s| - 1], s[|s| - 1];
      assert last in s && forall q :: q in s <==> q in front || q == last;
      BeforeIsTotal(last.Key(), k);
      AfterIsLater(front, k);
    }
  }

  lemma {:induction false} InOrderAscends(rows: seq<Row>)
    requires UniqueKeys(rows)
    ensures Ascending(InOrder(rows))
  {
    if rows != [] {
      var front, r := rows[..|rows| - 1], rows[|rows| - 1];
      InOrderAscends(front);
      SameRows(front);
      NewKeyInOrder(front, r.Key());
      var k := InsertPlace(r, InOrder(front));
      InsertAscends(r, InOrder(front), k);
    }
  }

  lemma NewKeyInOrder(rows: seq<Row>, k: ChainKey)
    requires IsNewKey(k, rows)
    ensures IsNewKey(k, InOrder(rows))
  {
    SameRows(rows);
  }

  lemma {:induction false} InsertAdds(r: Row, s: seq<Row>)
    ensures multiset(Insert(r, s)) == multiset(s) + multiset{r}
  {
    var n := |s|;
    if n > 0 && !s[n - 1].Key().Before(r.Key()) {
      InsertAdds(r, s[..n - 1]);
      assert s == s[..n - 1] + [s[n - 1]];
    }
  }

  lemma {:induction false} InOrderPermutes(rows: seq<Row>)
    ensures multiset(InOrder(rows)) == multiset(rows)
  {
    if rows != [] {
      var front, r := rows[..|rows| - 1], rows[|rows| - 1];
      InOrderPermutes(front);
      InsertAdds(r, InOrder(front));
      assert rows == front + [r];
    }
  }

  /** Sorting loses no row and adds none. */
  lemma SameRows(rows: seq<Row>)
    ensures forall r :: r in rows <==> r in InOrder(rows)
  {
    InOrderPermutes(rows);
    assert forall r :: r in rows <==> r in multiset(rows);
    assert forall r :: r in InOrder(rows) <==> r in multiset(InOrder(rows));
  }

  /** The rows that a new row comes to stand in front of when the chain is read:
      exactly those with a later key. */
  lemma AfterInOrder(rows: seq<Row>, k: ChainKey)
    requires UniqueKeys(rows) && IsNewKey(k, rows)
    ensures forall q :: q in After(InOrder(rows), k) <==> q in rows && k.Before(q.Key())
  {
    InOrderAscends(rows);
    NewKeyInOrder(rows, k);
    AfterIsLater(InOrder(rows), k);
    SameRows(rows);
  }

  lemma AfterAllIsLast(rows: seq<Row>, k: ChainKey)
    requires Exceeds(k, rows)
    ensures After(InOrder(rows), k) == []
  {
    SameRows(rows);
    var s := InOrder(rows);
    assert s != [] ==> s[|s| - 1] in s;
  }

  /** `ORDER BY occurred_at DESC, id DESC LIMIT 1`. */
  function Tip(rows: seq<Row>): (r: Option<Row>)
    ensures r.None? <==> rows == []
    ensures r.Some? ==> r.value in rows
  {
    if rows == [] then None
    else
      var last, front := rows[|rows| - 1], Tip(rows[..|rows| - 1]);
      if front.None? || front.value.Key().Before(last.Key()) then Some(last) else front
  }

  /** The tip is where the chain in order ends. */
  lemma {:induction false} TipEndsTheChain(rows: seq<Row>)
    requires rows != []
    ensures Tip(rows) == Some(InOrder(rows)[|rows| - 1])
  {
    var front, r := rows[..|rows| - 1], rows[|rows| - 1];
    if front != [] { TipEndsTheChain(front); }
    InsertEnds(r, InOrder(front));
  }

  lemma InsertEnds(r: Row, s: seq<Row>)
    ensures Insert(r, s)[|s|] == if s == [] || s[|s| - 1].Key().Before(r.Key()) then r else s[|s| - 1]
  {
  }

  // ---- What a writer appends.

  /** The connecting role, as `verify_pool_role` reads it. */
  datatype PoolRole = PoolRole(canInsert: bool, canSelect: bool, bypassesRls: bool) {
    /** `verify_pool_role` answers Ok. */
    predicate Fit() { canInsert && canSelect && bypassesRls }
  }

  /** The hash a writer finds at the tip. Row-level security hides every row
      from a role that does not bypass it, because `app.current_tenant` is not
      set on the writer's path. */
  function TipHash(role: PoolRole, chain: seq<Row>): Option<Bytes> {
    if !role.bypassesRls || Tip(chain).None? then None else Some(Tip(chain).value.hash)
  }

  function NewRow(d: RowHash, role: PoolRole, chain: seq<Row>, id: Uuid, f: Fields): Row {
    Row(id, f, TipHash(role, chain), d(f, TipHash(role, chain)))
  }

  /** One line: read in order, the first row has no previous hash and every
      other row has the hash of the row before. */
  predicate Linear(d: RowHash, rows: seq<Row>) {
    Verifies(d, InOrder(rows))
  }

  lemma InOrderAppend(rows: seq<Row>, r: Row)
    ensures InOrder(rows + [r]) == Insert(r, InOrder(rows))
  {
    assert (rows + [r])[..|rows|] == rows;
  }

  /** A new row after all others keeps the line. */
  lemma AppendKeepsLinear(d: RowHash, role: PoolRole, rows: seq<Row>, id: Uuid, f: Fields)
    requires role.bypassesRls && UniqueKeys(rows) && Linear(d, rows) && Exceeds(ChainKey(f.occurredAt, id), rows)
    ensures var r := NewRow(d, role, rows, id, f);
            && UniqueKeys(rows + [r]) && Linear(d, rows + [r]) && InOrder(rows + [r]) == InOrder(rows) + [r]
  {
    var r, s := NewRow(d, role, rows, id, f), InOrder(rows);
    InOrderAppend(rows, r);
    SameRows(rows);
    BeforeIsTotal(r.Key(), r.Key());
    assert s != [] ==> s[|s| - 1] in s;
    if rows != [] { TipEndsTheChain(rows); }
    VerifiesAppend(d, s, r);
  }

  lemma VerifiesAppend(d: RowHash, s: seq<Row>, r: Row)
    requires Verifies(d, s) && r.hash == d(r.fields, r.prev)
    requires r.prev == if s == [] then None else Some(s[|s| - 1].hash)
    ensures Verifies(d, s + [r])
  {
    forall i | 0 <= i < |s| + 1 ensures RowVerifies(d, s + [r], i) {
      if i < |s| { assert RowVerifies(d, s, i); }
    }
  }

  /** A row that links to the last row but stands before it breaks the line. */
  lemma MisplacedRowBreaks(d: RowHash, s: seq<Row>, k: nat, r: Row)
    requires Verifies(d, s) && NoCollision(d, s, s) && k < |s| && r.prev == Some(s[|s| - 1].hash)
    ensures !Verifies(d, s[..k] + [r] + s[k..])
  {
    var t := s[..k] + [r] + s[k..];
    if k > 0 { HashesAreDistinct(d, s, k - 1, |s| - 1); }
    assert t[k] == r && (k > 0 ==> t[k - 1] == s[k - 1]);
    assert !RowVerifies(d, t, k);
  }

  /** Where a new row goes: to the end only if it comes after all others. */
  lemma PlaceOfRow(rows: seq<Row>, r: Row) returns (k: nat)
    requires UniqueKeys(rows) && IsNewKey(r.Key(), rows)
    ensures var s := InOrder(rows);
            k <= |s| && InOrder(rows + [r]) == s[..k] + [r] + s[k..] && (k == |s| ==> Exceeds(r.Key(), rows))
  {
    var s := InOrder(rows);
    InOrderAppend(rows, r);
    InOrderAscends(rows);
    NewKeyInOrder(rows, r.Key());
    k := InsertPlace(r, s);
    InsertAscends(r, s, k);
    if k == |s| {
      SameRows(rows);
      assert s[..k] == s;
    }
  }

  /** The ordering hypothesis is exactly what linearity needs: a row that does
      not come after all others, linked to the tip as the writer links it,
      breaks the line. */
  lemma AppendLinearIff(d: RowHash, role: PoolRole, rows: seq<Row>, id: Uuid, f: Fields)
    requires role.bypassesRls && UniqueKeys(rows) && Linear(d, rows) && IsNewKey(ChainKey(f.occurredAt, id), rows)
    requires NoCollision(d, InOrder(rows), InOrder(rows))
    ensures Linear(d, rows + [NewRow(d, role, rows, id, f)]) <==> Exceeds(ChainKey(f.occurredAt, id), rows)
  {
    var r := NewRow(d, role, rows, id, f);
    if Exceeds(r.Key(), rows) {
      AppendKeepsLinear(d, role, rows, id, f);
    } else {
      TipEndsTheChain(rows);
      var k := PlaceOfRow(rows, r);
      MisplacedRowBreaks(d, InOrder(rows), k, r);
    }
  }

  // ---- What re-derivation shows.

  /** `payload_hash`, with SHA-256 as any function with 32-byte results. */
  ghost function Sha(h: Bytes -> Bytes): RowHash {
    (f, p) => PayloadHash(h, f, p)
  }

  /** Two different byte strings, each hashed for one of the rows, with the same
      hash. */
  ghost predicate Breaks(h: Bytes -> Bytes, r: Row, s: Row) {
    var x, y := HashedString(r.fields, r.prev), HashedString(s.fields, s.prev);
    x != y && h(x) == h(y)
  }

  lemma CollisionBreaksHash(h: Bytes -> Bytes, r: Row, s: Row)
    ensures Sha(h)(r.fields, r.prev) == Sha(h)(s.fields, s.prev) && r.prev != Some([]) && s.prev != Some([]) ==>
              (r.fields == s.fields && r.prev == s.prev) || Breaks(h, r, s)
  {
    SameHash(h, r.fields, s.fields, r.prev, s.prev);
  }

  lemma PrevsAreHashes(d: RowHash, a: seq<Row>, i: nat)
    requires Verifies(d, a) && i < |a| && Gives32(d)
    ensures a[i].prev != Some([])
  {
    assert RowVerifies(d, a, i) && (i > 0 ==> RowVerifies(d, a, i - 1));
  }

  /** Tamper evidence: two chains that verify row by row and end in the same
      hash agree on every column the hash covers, or a row of the one and a row
      of the other are an explicit break of the hash function. */
  lemma TamperEvidence(h: Bytes -> Bytes, a: seq<Row>, b: seq<Row>)
    requires Hashes32(h) && Verifies(Sha(h), a) && Verifies(Sha(h), b)
    requires |a| > 0 && |b| > 0 && a[|a| - 1].hash == b[|b| - 1].hash
    ensures (|a| == |b| && forall i | 0 <= i < |a| :: a[i].fields == b[i].fields && a[i].prev == b[i].prev)
            || exists i, j | 0 <= i < |a| && 0 <= j < |b| :: Breaks(h, a[i], b[j])
  {
    var c := FindCollision(Sha(h), a, b);
    if c.None? {
      assert forall i | 0 <= i < |a| :: SameButId(a[i], b[i]);
    } else {
      var (i, j) := c.value;
      assert Gives32(Sha(h));
      PrevsAreHashes(Sha(h), a, i);
      PrevsAreHashes(Sha(h), b, j);
      CollisionBreaksHash(h, a[i], b[j]);
    }
  }

  /** What re-derivation alone does not see: a chain whose last rows are gone
      still verifies, and so does one whose row ids are changed. */
  lemma BlindSpots(d: RowHash, chain: seq<Row>, n: nat, i: nat, id: Uuid)
    requires Verifies(d, chain) && n <= |chain| && i < |chain|
    ensures Verifies(d, chain[..n]) && Verifies(d, chain[i := chain[i].(id := id)])
  {
    ChopVerifies(d, chain, n);
    var other := chain[i := chain[i].(id := id)];
    forall j | 0 <= j < |chain| ensures RowVerifies(d, other, j) {
      assert RowVerifies(d, chain, j);
    }
  }
}
