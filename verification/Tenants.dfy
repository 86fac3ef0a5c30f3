/** Tenant rows, the PATCH and DELETE requests on them, and the payloads that
    record them (`apps/api/src/handlers/tenants.rs`). */
module Tenants {
  import opened Wrappers
  import opened Bytes
  import opened Json
  import opened Utf8

  /** A live tenant as `tenant_by_slug` and `RETURNING` give it. */
  datatype Tenant = Tenant(id: Uuid, slug: Bytes, name: Bytes, tenantType: Bytes, settings: Json)

  /** A row of `tenants`: the reason is set together with `deleted_at`, and every
      UPDATE makes a new version of the row, whatever it sets. */
  datatype TenantRow = TenantRow(tenant: Tenant, deletion: Option<Bytes>, version: nat)

  datatype PatchRequest = PatchRequest(name: Option<Bytes>, settings: Option<Json>) {
    predicate IsNoop() { name.None? && settings.None? }
  }

  // ---- Validation.

  /** `tenants_name_check`, and the handler's own check before it. */
  predicate NameFits(name: Bytes) {
    1 <= CharCount(name) <= 200
  }

  /** The characters `str::trim` removes (Unicode `White_Space`), in UTF-8. */
  predicate IsWhite(ch: Bytes) {
    match |ch|
    case 1 => 0x09 <= ch[0] <= 0x0D || ch[0] == 0x20
    case 2 => ch[0] == 0xC2 && (ch[1] == 0x85 || ch[1] == 0xA0)
    case 3 =>
      || (ch[0] == 0xE1 && ch[1] == 0x9A && ch[2] == 0x80)
      || (ch[0] == 0xE2 && ch[1] == 0x80 && (0x80 <= ch[2] <= 0x8A || ch[2] == 0xA8 || ch[2] == 0xA9 || ch[2] == 0xAF))
      || (ch[0] == 0xE2 && ch[1] == 0x81 && ch[2] == 0x9F)
      || (ch[0] == 0xE3 && ch[1] == 0x80 && ch[2] == 0x80)
    case _ => false
  }

  /** The property `White_Space`, character by character. */
  predicate IsWhiteSpace(c: Scalar) {
    || 0x09 <= c <= 0x0D || c == 0x20 || c == 0x85 || c == 0xA0 || c == 0x1680 || 0x2000 <= c <= 0x200A
    || c == 0x2028 || c == 0x2029 || c == 0x202F || c == 0x205F || c == 0x3000
  }

  /** `trim` takes off exactly these characters. */
  lemma WhiteIff(c: Scalar)
    ensures IsWhite(Encode(c)) <==> IsWhiteSpace(c)
  {
  }

  function TrimStart(s: Bytes): Bytes {
    var n := CharLength(s);
    if n > 0 && IsWhite(s[..n]) then TrimStart(s[n..]) else s
  }

  function TrimEnd(s: Bytes): Bytes {
    if s == [] then []
    else
      var n := FirstLength(s);
      var rest := TrimEnd(s[n..]);
      if rest == [] && IsWhite(s[..n]) then [] else s[..n] + rest
  }

  /** The length of the first character, or one byte where there is none. */
  function FirstLength(s: Bytes): (n: nat)
    requires s != []
    ensures 0 < n <= |s|
  {
    if CharLength(s) == 0 then 1 else CharLength(s)
  }

  function Trim(s: Bytes): Bytes {
    TrimEnd(TrimStart(s))
  }

  predicate AllWhite(s: Bytes) {
    s == [] || (var n := CharLength(s); n > 0 && IsWhite(s[..n]) && AllWhite(s[n..]))
  }

  /** The first character of a text is read off any beginning that holds it. */
  lemma CharIsLocal(p: Bytes, s: Bytes)
    requires p <= s
    ensures CharLength(p) == 0 || CharLength(p) == CharLength(s)
    ensures CharLength(s) <= |p| ==> CharLength(p) == CharLength(s)
  {
    assert forall i | 0 <= i < |p| :: p[i] == s[i];
  }

  predicate StartsWhite(s: Bytes) {
    CharLength(s) > 0 && IsWhite(s[..CharLength(s)])
  }

  /** A white character in front of white text. */
  lemma WhiteJoins(s: Bytes, n: nat, v: Bytes)
    requires 0 < n == CharLength(s) <= |s| && IsWhite(s[..n]) && AllWhite(v) && v <= s[n..]
    ensures AllWhite(s[..n] + v)
  {
    var w := s[..n] + v;
    assert w <= s by { assert s == s[..n] + s[n..]; }
    CharIsLocal(w, s);
    assert w[..n] == s[..n] && w[n..] == v;
  }

  lemma JoinAgain(s: Bytes, n: nat, v: Bytes, rest: Bytes)
    requires n <= |s| && s[n..] == v + rest
    ensures v <= s[n..] && s == (s[..n] + v) + rest
  {
    Assoc(s[..n], v, rest);
  }

  lemma {:induction false} TrimStartTakes(s: Bytes) returns (w: Bytes)
    ensures s == w + TrimStart(s) && AllWhite(w) && !StartsWhite(TrimStart(s))
  {
    w := [];
    if StartsWhite(s) {
      var n, rest := CharLength(s), TrimStart(s);
      var v := TrimStartTakes(s[n..]);
      JoinAgain(s, n, v, rest);
      WhiteJoins(s, n, v);
      w := s[..n] + v;
    }
  }

  lemma {:induction false} TrimEndTakes(s: Bytes) returns (w: Bytes)
    ensures s == TrimEnd(s) + w && AllWhite(w)
  {
    w := s;
    if TrimEnd(s) != [] {
      var n := FirstLength(s);
      w := TrimEndTakes(s[n..]);
      JoinAgain(s, n, TrimEnd(s[n..]), w);
    } else if s != [] {
      var v := TrimEndTakes(s[FirstLength(s)..]);
      assert [] + v == v;
      WhiteFirst(s);
    }
  }

  lemma WhiteFirst(s: Bytes)
    requires s != [] && IsWhite(s[..FirstLength(s)]) && AllWhite(s[FirstLength(s)..])
    ensures AllWhite(s)
  {
    assert s[..FirstLength(s)][0] == s[0];
  }

  lemma NoWhiteSuffix(s: Bytes, n: nat, rest: Bytes, k: nat)
    requires s != [] && n == FirstLength(s) && rest <= s[n..]
    requires forall i | 0 <= i < |rest| :: !AllWhite(rest[i..])
    requires k < n + |rest| && !(rest == [] && IsWhite(s[..n]))
    ensures !AllWhite((s[..n] + rest)[k..])
  {
    var r := s[..n] + rest;
    assert r <= s by { assert s == s[..n] + s[n..]; }
    CharIsLocal(r, s);
    if k >= n {
      assert r[k..] == rest[k - n..];
    } else if k > 0 {
      assert Continuation(r[k..][0]);
    } else {
      assert r[0..] == r && r[n..] == rest && r[..n] == s[..n];
      if rest != [] { assert rest[0..] == rest; }
    }
  }

  lemma {:induction false} TrimEndStops(s: Bytes)
    ensures forall k | 0 <= k < |TrimEnd(s)| :: !AllWhite(TrimEnd(s)[k..])
  {
    if TrimEnd(s) != [] {
      var n := FirstLength(s);
      var w := TrimEndTakes(s[n..]);
      TrimEndStops(s[n..]);
      forall k | 0 <= k < |TrimEnd(s)| ensures !AllWhite(TrimEnd(s)[k..]) {
        NoWhiteSuffix(s, n, TrimEnd(s[n..]), k);
      }
    }
  }

  /** `trim` takes white space off both ends, all of it and nothing else: what
      was taken off is white, and what is left neither begins with a white
      character nor has an ending that is white. */
  lemma TrimStrips(s: Bytes) returns (front: Bytes, back: Bytes)
    ensures s == front + (Trim(s) + back) && AllWhite(front) && AllWhite(back)
    ensures !StartsWhite(Trim(s)) && forall k | 0 <= k < |Trim(s)| :: !AllWhite(Trim(s)[k..])
  {
    front := TrimStartTakes(s);
    var r := TrimStart(s);
    back := TrimEndTakes(r);
    TrimEndStops(r);
    CharIsLocal(Trim(s), r);
    assert forall n | 0 <= n <= |Trim(s)| :: Trim(s)[..n] == r[..n];
  }

  // ---- PATCH.

  /** `COALESCE($1, name)`, `COALESCE($2, settings)`. */
  function Patched(t: Tenant, req: PatchRequest): Tenant {
    t.(name := if req.name.Some? then req.name.value else t.name,
       settings := if req.settings.Some? then req.settings.value else t.settings)
  }

  /** What no PATCH can edit. */
  predicate SameIdentity(a: Tenant, b: Tenant) {
    a.id == b.id && a.slug == b.slug && a.tenantType == b.tenantType
  }

  /** `after` is `row` with the requested fields as requested and every other
      column, asked for or not editable at all, as it was. */
  predicate IsPatchOf(row: Tenant, after: Tenant, req: PatchRequest) {
    && SameIdentity(row, after)
    && (match req.name case Some(name) => after.name == name case None => after.name == row.name)
    && (match req.settings case Some(settings) => after.settings == settings case None => after.settings == row.settings)
  }

  /** That is what the UPDATE makes of the row it matches, and nothing else is. */
  lemma PatchedIff(row: Tenant, after: Tenant, req: PatchRequest)
    ensures after == Patched(row, req) <==> IsPatchOf(row, after, req)
  {
  }

  const NAME := Ascii("name")
  const SETTINGS := Ascii("settings")
  const FROM := Ascii("from")
  const TO := Ascii("to")
  const ACTION := Ascii("action")
  const CHANGES := Ascii("changes")
  const REASON := Ascii("deletion_reason")

  function FromTo(from: Json, to: Json): Json {
    Object(map[FROM := from, TO := to])
  }

  /** `patch_diff`: a member for each field that differs. */
  function PatchDiff(before: Tenant, after: Tenant): map<Bytes, Json> {
    var names: map<Bytes, Json> :=
      if before.name != after.name then map[NAME := FromTo(String(before.name), String(after.name))] else map[];
    if before.settings != after.settings then names[SETTINGS := FromTo(before.settings, after.settings)] else names
  }

  function UpdatePayload(before: Tenant, after: Tenant): Json {
    Object(map[ACTION := String(Ascii("tenant.update")), CHANGES := Object(PatchDiff(before, after))])
  }

  function DeletePayload(reason: Bytes): Json {
    Object(map[ACTION := String(Ascii("tenant.delete")), REASON := String(reason)])
  }

  // ---- Replaying the chain: what an auditor makes of the payloads.

  /** What a PATCH can change. */
  datatype Profile = Profile(name: Bytes, settings: Json)

  function ProfileOf(t: Tenant): Profile {
    Profile(t.name, t.settings)
  }

  function Lookup(v: Json, key: Bytes): Option<Json> {
    if v.Object? && key in v.members then Some(v.members[key]) else None
  }

  /** The `to` of one member of `changes`. */
  function Target(payload: Json, field: Bytes): Option<Json> {
    match Lookup(payload, CHANGES)
    case None => None
    case Some(changes) =>
      match Lookup(changes, field)
      case None => None
      case Some(change) => Lookup(change, TO)
  }

  function ActionIs(payload: Json, action: string): bool {
    Lookup(payload, ACTION) == Some(String(Ascii(action)))
  }

  function ApplyPayload(p: Profile, payload: Json): Profile {
    if !ActionIs(payload, "tenant.update") then p
    else
      var name, settings := Target(payload, NAME), Target(payload, SETTINGS);
      Profile(if name.Some? && name.value.String? then name.value.text else p.name,
              if settings.Some? then settings.value else p.settings)
  }

  function Replay(p: Profile, payloads: seq<Json>): Profile
    decreases |payloads|
  {
    if payloads == [] then p
    else ApplyPayload(Replay(p, payloads[..|payloads| - 1]), payloads[|payloads| - 1])
  }

  /** The value a payload records for the name, if it is an update that does. */
  function NameIn(payload: Json): Option<Bytes> {
    var v := Target(payload, NAME);
    if ActionIs(payload, "tenant.update") && v.Some? && v.value.String? then Some(v.value.text) else None
  }

  function SettingsIn(payload: Json): Option<Json> {
    if ActionIs(payload, "tenant.update") then Target(payload, SETTINGS) else None
  }

  /** The last one recorded in a list of payloads. */
  function LastName(payloads: seq<Json>): Option<Bytes>
    decreases |payloads|
  {
    if payloads == [] then None
    else
      var n := |payloads| - 1;
      if NameIn(payloads[n]).Some? then NameIn(payloads[n]) else LastName(payloads[..n])
  }

  function LastSettings(payloads: seq<Json>): Option<Json>
    decreases |payloads|
  {
    if payloads == [] then None
    else
      var n := |payloads| - 1;
      if SettingsIn(payloads[n]).Some? then SettingsIn(payloads[n]) else LastSettings(payloads[..n])
  }

  function Or<T>(o: Option<T>, d: T): T {
    if o.Some? then o.value else d
  }

  /** A replay ends with what was recorded last. */
  lemma {:induction false} ReplayIsLast(p: Profile, payloads: seq<Json>)
    ensures Replay(p, payloads) == Profile(Or(LastName(payloads), p.name), Or(LastSettings(payloads), p.settings))
    decreases |payloads|
  {
    if payloads != [] { ReplayIsLast(p, payloads[..|payloads| - 1]); }
  }

  lemma {:induction false} ReplayJoin(p: Profile, a: seq<Json>, b: seq<Json>)
    ensures Replay(p, a + b) == Replay(Replay(p, a), b)
    decreases |b|
  {
    if b == [] {
      assert a + b == a;
    } else {
      var front := b[..|b| - 1];
      ReplayJoin(p, a, front);
      assert (a + b)[..|a + b| - 1] == a + front && (a + b)[|a + b| - 1] == b[|b| - 1];
    }
  }

  lemma KeysDiffer()
    ensures NAME != SETTINGS && FROM != TO && ACTION != CHANGES && ACTION != REASON && CHANGES != REASON
    ensures Ascii("tenant.update") != Ascii("tenant.delete")
  {
    assert FROM[0] == 0x66 && TO[0] == 0x74;
    assert Ascii("tenant.update")[7] == 0x75 && Ascii("tenant.delete")[7] == 0x64;
  }

  lemma UpdatePayloadReads(before: Tenant, after: Tenant)
    ensures var p := UpdatePayload(before, after);
            && ActionIs(p, "tenant.update") && !ActionIs(p, "tenant.delete")
            && Target(p, NAME) == (if before.name != after.name then Some(String(after.name)) else None)
            && Target(p, SETTINGS) == (if before.settings != after.settings then Some(after.settings) else None)
  {
    KeysDiffer();
    var p := UpdatePayload(before, after);
    assert Lookup(p, CHANGES) == Some(Object(PatchDiff(before, after)));
  }

  lemma DeletePayloadReads(reason: Bytes)
    ensures ActionIs(DeletePayload(reason), "tenant.delete") && !ActionIs(DeletePayload(reason), "tenant.update")
    ensures Lookup(DeletePayload(reason), REASON) == Some(String(reason))
  {
    KeysDiffer();
  }

  /** A PATCH that asks for the value its caller resolved, where the row has
      another by now: the UPDATE writes the old value back and `patch_diff`
      sees no difference. */
  predicate WritesBackStale(resolved: Tenant, row: Tenant, req: PatchRequest) {
    || (req.name == Some(resolved.name) && row.name != resolved.name)
    || (req.settings == Some(resolved.settings) && row.settings != resolved.settings)
  }

  /** The recorded changes turn the row into what the UPDATE made of it exactly
      when no stale value was written back. */
  lemma DiffReplaysIff(resolved: Tenant, row: Tenant, req: PatchRequest)
    ensures var after := Patched(row, req);
            ApplyPayload(ProfileOf(row), UpdatePayload(resolved, after)) == ProfileOf(after)
            <==> !WritesBackStale(resolved, row, req)
  {
    UpdatePayloadReads(resolved, Patched(row, req));
  }

  /** A recorded update is what the UPDATE itself changed exactly when the row
      still had the name and settings its caller had resolved. */
  lemma DiffIsOwnIff(resolved: Tenant, row: Tenant, req: PatchRequest)
    ensures var after := Patched(row, req);
            UpdatePayload(resolved, after) == UpdatePayload(row, after) <==> ProfileOf(resolved) == ProfileOf(row)
  {
    var after := Patched(row, req);
    var p, q := UpdatePayload(resolved, after), UpdatePayload(row, after);
    if p == q {
      KeysDiffer();
      assert p.members[CHANGES] == q.members[CHANGES];
      SameDiffSameProfile(resolved, row, after);
    }
  }

  lemma SameDiffSameProfile(a: Tenant, b: Tenant, after: Tenant)
    requires PatchDiff(a, after) == PatchDiff(b, after)
    ensures ProfileOf(a) == ProfileOf(b)
  {
    KeysDiffer();
    var p, q := PatchDiff(a, after), PatchDiff(b, after);
    assert NAME in p <==> NAME in q;
    assert SETTINGS in p <==> SETTINGS in q;
    if NAME in p { assert p[NAME].members[FROM] == q[NAME].members[FROM]; }
    if SETTINGS in p { assert p[SETTINGS].members[FROM] == q[SETTINGS].members[FROM]; }
  }

  /** A PATCH whose row comes to stand in front of `later` in the chain. For each
      field, if a row among those records a value, it is the one the UPDATE
      leaves; else the PATCH writes no stale value back. */
  predicate ReadsRight(later: seq<Json>, resolved: Tenant, row: Tenant, req: PatchRequest) {
    && (match LastName(later)
        case Some(name) => name == Patched(row, req).name
        case None => !(req.name == Some(resolved.name) && row.name != resolved.name))
    && (match LastSettings(later)
        case Some(settings) => settings == Patched(row, req).settings
        case None => !(req.settings == Some(resolved.settings) && row.settings != resolved.settings))
  }

  lemma ReadsRightAtTheEnd(resolved: Tenant, row: Tenant, req: PatchRequest)
    ensures ReadsRight([], resolved, row, req) <==> !WritesBackStale(resolved, row, req)
  {
  }

  /** Replaying with the new payload in between gives what the UPDATE made of the
      row exactly in that case. */
  lemma PatchReadsIff(p: Profile, front: seq<Json>, later: seq<Json>, resolved: Tenant, row: Tenant, req: PatchRequest)
    requires Replay(p, front + later) == ProfileOf(row)
    ensures var after := Patched(row, req);
            Replay(p, front + ([UpdatePayload(resolved, after)] + later)) == ProfileOf(after) <==> ReadsRight(later, resolved, row, req)
  {
    var payload := UpdatePayload(resolved, Patched(row, req));
    UpdatePayloadReads(resolved, Patched(row, req));
    var q := Replay(p, front);
    ReplayJoin(p, front, later);
    ReplayIsLast(q, later);
    ReplayBetween(p, front, payload, later);
    ReplayIsLast(ApplyPayload(q, payload), later);
  }

  lemma ReplayBetween(p: Profile, front: seq<Json>, payload: Json, later: seq<Json>)
    ensures Replay(p, front + ([payload] + later)) == Replay(ApplyPayload(Replay(p, front), payload), later)
  {
    ReplayJoin(p, front, [payload] + later);
    ReplayJoin(Replay(p, front), [payload], later);
    assert [payload][..0] == [];
  }

  /** A deletion changes nothing wherever it stands. */
  lemma DeleteReads(p: Profile, front: seq<Json>, later: seq<Json>, reason: Bytes)
    ensures Replay(p, front + ([DeletePayload(reason)] + later)) == Replay(p, front + later)
  {
    DeletePayloadReads(reason);
    ReplayBetween(p, front, DeletePayload(reason), later);
    ReplayJoin(p, front, later);
  }
}
