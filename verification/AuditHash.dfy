/** The hash chain of `crates/flight-academy-db/src/audit.rs` as a computation:
    canonical rows, the hashed string, and what two chains that verify have in
    common. SHA-256 is any function; it is never taken to be injective. */
module AuditHash {
  import opened Wrappers
  import opened Bytes
  import opened Json

  // ---- Timestamps: UTC with the microseconds of a `timestamptz`.

  datatype DateTime = DateTime(year: nat, month: nat, day: nat, hour: nat, minute: nat, second: nat, micro: nat) {
    predicate Valid() {
      year < 10000 && 1 <= month <= 12 && 1 <= day <= 31 && hour < 24 && minute < 60 && second < 60 && micro < 1_000_000
    }

    predicate Earlier(t: DateTime) {
      year < t.year || (year == t.year && (
      month < t.month || (month == t.month && (
      day < t.day || (day == t.day && (
      hour < t.hour || (hour == t.hour && (
      minute < t.minute || (minute == t.minute && (
      second < t.second || (second == t.second && micro < t.micro)))))))))))
    }
  }

  type Utc = t: DateTime | t.Valid() witness DateTime(1970, 1, 1, 0, 0, 0, 0)

  /** All the places of a timestamp in one number. */
  function Places(t: Utc): nat {
    (((((t.year * 13 + t.month) * 32 + t.day) * 24 + t.hour) * 60 + t.minute) * 60 + t.second) * 1_000_000 + t.micro
  }

  lemma EarlierIff(t: Utc, u: Utc)
    ensures t.Earlier(u) <==> Places(t) < Places(u)
    ensures t == u <==> Places(t) == Places(u)
  {
  }

  function Pow10(w: nat): nat {
    if w == 0 then 1 else 10 * Pow10(w - 1)
  }

  /** `n` in decimal, padded with zeros to `w` digits. */
  function Digits(n: nat, w: nat): (s: Bytes)
    requires n < Pow10(w)
    ensures |s| == w
  {
    if w == 0 then [] else Digits(n / 10, w - 1) + [0x30 + n % 10]
  }

  lemma {:induction false} DigitsInjective(m: nat, n: nat, w: nat)
    requires m < Pow10(w) && n < Pow10(w) && Digits(m, w) == Digits(n, w)
    ensures m == n
  {
    if w > 0 {
      SplitConcatBack(Digits(m / 10, w - 1), Digits(n / 10, w - 1), [0x30 + m % 10], [0x30 + n % 10]);
      DigitsInjective(m / 10, n / 10, w - 1);
      assert [0x30 + m % 10][0] == [0x30 + n % 10][0];
    }
  }

  /** The digits of a fraction without its trailing zeros. */
  function Fraction(n: nat, w: nat): (s: Bytes)
    requires n < Pow10(w)
    ensures |s| <= w
  {
    if w == 0 then [] else if n % 10 == 0 then Fraction(n / 10, w - 1) else Digits(n, w)
  }

  function Zeros(k: nat): Bytes {
    seq(k, _ => 0x30)
  }

  lemma {:induction false} FractionDropsZeros(n: nat, w: nat)
    requires n < Pow10(w)
    ensures Digits(n, w) == Fraction(n, w) + Zeros(w - |Fraction(n, w)|)
  {
    if w > 0 && n % 10 == 0 {
      FractionDropsZeros(n / 10, w - 1);
      var f := Fraction(n / 10, w - 1);
      assert Zeros(w - 1 - |f|) + [0x30] == Zeros(w - |f|);
      Assoc(f, Zeros(w - 1 - |f|), [0x30]);
    }
  }

  /** RFC 3339 with a `Z` offset, as the `time` crate writes it: the fraction
      is left out when it is zero. */
  function Rfc3339(t: Utc): Bytes {
    assert Pow10(2) == 100 && Pow10(4) == 10000 && Pow10(6) == 1_000_000 by { PowersOfTen(); }
    Seconds(t) + (Micros(t.micro) + Ascii("Z"))
  }

  function Micros(n: nat): Bytes
    requires n < Pow10(6)
  {
    if n == 0 then [] else Ascii(".") + Fraction(n, 6)
  }

  lemma PowersOfTen()
    ensures Pow10(2) == 100 && Pow10(4) == 10000 && Pow10(6) == 1_000_000
  {
    assert Pow10(1) == 10 && Pow10(3) == 1000 && Pow10(5) == 100_000;
  }

  function Seconds(t: Utc): (s: Bytes)
    ensures |s| == 19
  {
    assert Pow10(2) == 100 && Pow10(4) == 10000 by { PowersOfTen(); }
    Digits(t.year, 4) + (Ascii("-") + (Digits(t.month, 2) + (Ascii("-") + (Digits(t.day, 2) + (Ascii("T") +
    (Digits(t.hour, 2) + (Ascii(":") + (Digits(t.minute, 2) + (Ascii(":") + Digits(t.second, 2))))))))))
  }

  /** Two fixed-width fields and a separator between them. */
  lemma FieldSplit(m: nat, n: nat, w: nat, sep: string, x: Bytes, y: Bytes)
    requires m < Pow10(w) && n < Pow10(w) && Digits(m, w) + (Ascii(sep) + x) == Digits(n, w) + (Ascii(sep) + y)
    ensures m == n && x == y
  {
    SplitConcat(Digits(m, w), Digits(n, w), Ascii(sep) + x, Ascii(sep) + y);
    SplitConcat(Ascii(sep), Ascii(sep), x, y);
    DigitsInjective(m, n, w);
  }

  lemma SecondsInjective(t: Utc, u: Utc)
    requires Seconds(t) == Seconds(u)
    ensures t == u.(micro := t.micro)
  {
    PowersOfTen();
    var t5, u5 := Digits(t.second, 2), Digits(u.second, 2);
    var t4, u4 := Digits(t.minute, 2) + (Ascii(":") + t5), Digits(u.minute, 2) + (Ascii(":") + u5);
    var t3, u3 := Digits(t.hour, 2) + (Ascii(":") + t4), Digits(u.hour, 2) + (Ascii(":") + u4);
    var t2, u2 := Digits(t.day, 2) + (Ascii("T") + t3), Digits(u.day, 2) + (Ascii("T") + u3);
    var t1, u1 := Digits(t.month, 2) + (Ascii("-") + t2), Digits(u.month, 2) + (Ascii("-") + u2);
    FieldSplit(t.year, u.year, 4, "-", t1, u1);
    FieldSplit(t.month, u.month, 2, "-", t2, u2);
    FieldSplit(t.day, u.day, 2, "T", t3, u3);
    FieldSplit(t.hour, u.hour, 2, ":", t4, u4);
    FieldSplit(t.minute, u.minute, 2, ":", t5, u5);
    DigitsInjective(t.second, u.second, 2);
  }

  lemma MicrosInjective(m: nat, n: nat)
    requires m < Pow10(6) && n < Pow10(6) && Micros(m) == Micros(n)
    ensures m == n
  {
    if m != 0 && n != 0 {
      SplitConcat(Ascii("."), Ascii("."), Fraction(m, 6), Fraction(n, 6));
      FractionDropsZeros(m, 6);
      FractionDropsZeros(n, 6);
      DigitsInjective(m, n, 6);
    }
  }

  /** The text of a timestamp determines it. */
  lemma Rfc3339Injective(t: Utc, u: Utc)
    requires Rfc3339(t) == Rfc3339(u)
    ensures t == u
  {
    PowersOfTen();
    SplitConcat(Seconds(t), Seconds(u), Micros(t.micro) + Ascii("Z"), Micros(u.micro) + Ascii("Z"));
    SplitConcatBack(Micros(t.micro), Micros(u.micro), Ascii("Z"), Ascii("Z"));
    SecondsInjective(t, u);
    MicrosInjective(t.micro, u.micro);
  }

  // ---- UUIDs in text: lower-case hexadecimal with hyphens.

  function Hex(u: Bytes): (s: Bytes)
    ensures |s| == 2 * |u|
  {
    if u == [] then [] else [HexDigit(u[0] / 16), HexDigit(u[0] % 16)] + Hex(u[1..])
  }

  lemma {:induction false} HexInjective(u: Bytes, v: Bytes)
    requires Hex(u) == Hex(v)
    ensures u == v
  {
    if u == [] || v == [] {
      assert |u| == |v|;
    } else {
      var a, b := [HexDigit(u[0] / 16), HexDigit(u[0] % 16)], [HexDigit(v[0] / 16), HexDigit(v[0] % 16)];
      SplitConcat(a, b, Hex(u[1..]), Hex(v[1..]));
      assert a[0] == b[0] && a[1] == b[1];
      HexInjective(u[1..], v[1..]);
      assert u == [u[0]] + u[1..] && v == [v[0]] + v[1..];
    }
  }

  function UuidText(u: Uuid): Bytes {
    var h := Hex(u);
    h[..8] + ([0x2D] + (h[8..12] + ([0x2D] + (h[12..16] + ([0x2D] + (h[16..20] + ([0x2D] + h[20..])))))))
  }

  lemma UuidTextInjective(u: Uuid, v: Uuid)
    requires UuidText(u) == UuidText(v)
    ensures u == v
  {
    var h, k := Hex(u), Hex(v);
    HyphenSplit(h[..8], k[..8],
      h[8..12] + ([0x2D] + (h[12..16] + ([0x2D] + (h[16..20] + ([0x2D] + h[20..]))))),
      k[8..12] + ([0x2D] + (k[12..16] + ([0x2D] + (k[16..20] + ([0x2D] + k[20..]))))));
    HyphenSplit(h[8..12], k[8..12],
      h[12..16] + ([0x2D] + (h[16..20] + ([0x2D] + h[20..]))), k[12..16] + ([0x2D] + (k[16..20] + ([0x2D] + k[20..]))));
    HyphenSplit(h[12..16], k[12..16], h[16..20] + ([0x2D] + h[20..]), k[16..20] + ([0x2D] + k[20..]));
    HyphenSplit(h[16..20], k[16..20], h[20..], k[20..]);
    assert h == h[..8] + h[8..12] + h[12..16] + h[16..20] + h[20..];
    assert k == k[..8] + k[8..12] + k[12..16] + k[16..20] + k[20..];
    HexInjective(u, v);
  }

  lemma HyphenSplit(a: Bytes, b: Bytes, x: Bytes, y: Bytes)
    requires |a| == |b| && a + ([0x2D] + x) == b + ([0x2D] + y)
    ensures a == b && x == y
  {
    SplitConcat(a, b, [0x2D] + x, [0x2D] + y);
    SplitConcat([0x2D], [0x2D], x, y);
  }

  // ---- The canonical row and the hashed string.

  /** What the hash covers of a row; `id` is deliberately not among it. */
  datatype Fields = Fields(
    occurredAt: Utc,
    actorClass: Bytes,
    actorId: Option<Uuid>,
    tenantId: Option<Uuid>,
    chainKind: Bytes,
    chainId: Option<Uuid>,
    payload: Json
  )

  function OptionalUuid(u: Option<Uuid>): Json {
    if u.None? then Null else String(UuidText(u.value))
  }

  lemma OptionalUuidInjective(u: Option<Uuid>, v: Option<Uuid>)
    requires OptionalUuid(u) == OptionalUuid(v)
    ensures u == v
  {
    if u.Some? && v.Some? { UuidTextInjective(u.value, v.value); }
  }

  function CanonicalRow(f: Fields): Json {
    Object(map[
      Ascii("occurred_at") := String(Rfc3339(f.occurredAt)),
      Ascii("actor_class") := String(f.actorClass),
      Ascii("actor_id") := OptionalUuid(f.actorId),
      Ascii("tenant_id") := OptionalUuid(f.tenantId),
      Ascii("chain_kind") := String(f.chainKind),
      Ascii("chain_id") := OptionalUuid(f.chainId),
      Ascii("payload") := f.payload
    ])
  }

  /** The seven names are different, so each member is the one its name says. */
  lemma Members(f: Fields)
    ensures var m := CanonicalRow(f).members;
            && Ascii("occurred_at") in m && m[Ascii("occurred_at")] == String(Rfc3339(f.occurredAt))
            && Ascii("actor_class") in m && m[Ascii("actor_class")] == String(f.actorClass)
            && Ascii("actor_id") in m && m[Ascii("actor_id")] == OptionalUuid(f.actorId)
            && Ascii("tenant_id") in m && m[Ascii("tenant_id")] == OptionalUuid(f.tenantId)
            && Ascii("chain_kind") in m && m[Ascii("chain_kind")] == String(f.chainKind)
            && Ascii("chain_id") in m && m[Ascii("chain_id")] == OptionalUuid(f.chainId)
            && Ascii("payload") in m && m[Ascii("payload")] == f.payload
  {
    assert Ascii("occurred_at")[0] == 0x6F && Ascii("actor_class")[0] == 0x61;
    assert Ascii("actor_id")[0] == 0x61 && Ascii("chain_id")[0] == 0x63;
  }

  lemma CanonicalRowInjective(f: Fields, g: Fields)
    requires CanonicalRow(f) == CanonicalRow(g)
    ensures f == g
  {
    Members(f);
    Members(g);
    Rfc3339Injective(f.occurredAt, g.occurredAt);
    OptionalUuidInjective(f.actorId, g.actorId);
    OptionalUuidInjective(f.tenantId, g.tenantId);
    OptionalUuidInjective(f.chainId, g.chainId);
  }

  /** The second hasher update adds nothing when there is no previous hash. */
  function PrevBytes(prev: Option<Bytes>): Bytes {
    if prev.None? then [] else prev.value
  }

  ghost function HashedString(f: Fields, prev: Option<Bytes>): Bytes {
    Emit(CanonicalRow(f)) + PrevBytes(prev)
  }

  /** The hashed string determines the row and the previous hash, whatever the
      two are, because canonical objects are prefix-free: there is no third
      way to cut it. */
  lemma HashedStringDetermines(f: Fields, g: Fields, p: Option<Bytes>, q: Option<Bytes>)
    ensures HashedString(f, p) == HashedString(g, q) <==> f == g && PrevBytes(p) == PrevBytes(q)
    ensures HashedString(f, p) == HashedString(g, q) && p != Some([]) && q != Some([]) ==> p == q
  {
    if HashedString(f, p) == HashedString(g, q) {
      ObjectSplit(CanonicalRow(f), CanonicalRow(g), PrevBytes(p), PrevBytes(q));
      CanonicalRowInjective(f, g);
    }
  }

  // ---- The hash.

  /** A hash function with 32-byte results; nothing else is used of SHA-256. */
  ghost predicate Hashes32(h: Bytes -> Bytes) {
    forall x: Bytes :: |h(x)| == 32
  }

  /** `payload_hash`. */
  ghost function PayloadHash(h: Bytes -> Bytes, f: Fields, prev: Option<Bytes>): Bytes {
    h(HashedString(f, prev))
  }

  /** Two rows with the same hash are the same row, or their hashed strings
      are a collision. A previous hash is never empty: it is 32 bytes. */
  lemma SameHash(h: Bytes -> Bytes, f: Fields, g: Fields, p: Option<Bytes>, q: Option<Bytes>)
    ensures PayloadHash(h, f, p) == PayloadHash(h, g, q) && p != Some([]) && q != Some([]) ==>
              (f == g && p == q) || (HashedString(f, p) != HashedString(g, q) && h(HashedString(f, p)) == h(HashedString(g, q)))
  {
    HashedStringDetermines(f, g, p, q);
  }

  /** The hash does not tell an empty previous hash from none; only the column
      does. */
  lemma EmptyPrevLooksLikeNone(h: Bytes -> Bytes, f: Fields)
    ensures PayloadHash(h, f, Some([])) == PayloadHash(h, f, None)
  {
  }
}
