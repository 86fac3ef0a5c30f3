/** The text that is hashed for an audit row: its members by name, in order. */
module RowText {
  import opened Wrappers
  import opened Bytes
  import opened Json
  import opened JsonText
  import opened AuditHash
  import opened AuditText
  import opened DocumentText

  function Quoted(s: Bytes): Bytes {
    Ascii("\"") + (s + Ascii("\""))
  }

  lemma PlainQuoted(s: Bytes)
    requires PlainBytes(s)
    ensures EmitString(s) == Quoted(s)
  {
    PlainEscape(s);
    assert Ascii("\"") == [QUOTE];
  }

  function UuidOrNull(u: Option<Uuid>): Bytes {
    match u
    case None => Ascii("null")
    case Some(id) => Quoted(UuidText(id))
  }

  lemma UuidOrNullIs(u: Option<Uuid>)
    ensures Emit(OptionalUuid(u)) == UuidOrNull(u)
  {
    LiteralsAre([]);
    if u.Some? {
      UuidHasShape(u.value);
      PlainQuoted(UuidText(u.value));
    }
  }

  lemma {:induction false} DigitsArePlain(n: nat, w: nat)
    requires n < Pow10(w)
    ensures PlainBytes(Digits(n, w))
  {
    if w > 0 { DigitsArePlain(n / 10, w - 1); }
  }

  lemma {:induction false} FractionIsPlain(n: nat, w: nat)
    requires n < Pow10(w)
    ensures PlainBytes(Fraction(n, w))
  {
    if w > 0 && n % 10 == 0 { FractionIsPlain(n / 10, w - 1); } else { DigitsArePlain(n, w); }
  }

  lemma PlainField(a: Bytes, sep: string, b: Bytes)
    requires PlainBytes(a) && Plain(sep) && PlainBytes(b)
    ensures PlainBytes(a + (Ascii(sep) + b))
  {
    assert forall i | 0 <= i < |sep| :: sep[i] in sep;
  }

  lemma TimestampIsPlain(t: Utc)
    ensures PlainBytes(Rfc3339(t))
  {
    PowersOfTen();
    DigitsArePlain(t.year, 4);
    DigitsArePlain(t.month, 2);
    DigitsArePlain(t.day, 2);
    DigitsArePlain(t.hour, 2);
    DigitsArePlain(t.minute, 2);
    DigitsArePlain(t.second, 2);
    var e := Digits(t.minute, 2) + (Ascii(":") + Digits(t.second, 2));
    var d := Digits(t.hour, 2) + (Ascii(":") + e);
    var c := Digits(t.day, 2) + (Ascii("T") + d);
    var b := Digits(t.month, 2) + (Ascii("-") + c);
    PlainField(Digits(t.minute, 2), ":", Digits(t.second, 2));
    PlainField(Digits(t.hour, 2), ":", e);
    PlainField(Digits(t.day, 2), "T", d);
    PlainField(Digits(t.month, 2), "-", c);
    PlainField(Digits(t.year, 4), "-", b);
    MicrosArePlain(t.micro);
  }

  lemma MicrosArePlain(n: nat)
    requires n < Pow10(6)
    ensures PlainBytes(Micros(n) + Ascii("Z"))
  {
    FractionIsPlain(n, 6);
    assert PlainBytes(Ascii(".")) && PlainBytes(Ascii("Z"));
  }

  ghost function RowMembers(f: Fields): seq<(string, Bytes)> {
    [("actor_class", EmitString(f.actorClass)),
     ("actor_id", UuidOrNull(f.actorId)),
     ("chain_id", UuidOrNull(f.chainId)),
     ("chain_kind", EmitString(f.chainKind)),
     ("occurred_at", Quoted(Rfc3339(f.occurredAt))),
     ("payload", Emit(f.payload)),
     ("tenant_id", UuidOrNull(f.tenantId))]
  }

  lemma NamesArePlain()
    ensures Plain("actor_class") && Plain("actor_id") && Plain("chain_id") && Plain("chain_kind")
    ensures Plain("occurred_at") && Plain("payload") && Plain("tenant_id")
  {
  }

  lemma TimestampQuoted(t: Utc)
    ensures EmitString(Rfc3339(t)) == Quoted(Rfc3339(t))
  {
    TimestampIsPlain(t);
    PlainQuoted(Rfc3339(t));
  }

  predicate HoldsRow(m: map<Bytes, Json>, f: Fields) {
    && Ascii("actor_class") in m && m[Ascii("actor_class")] == String(f.actorClass)
    && Ascii("actor_id") in m && m[Ascii("actor_id")] == OptionalUuid(f.actorId)
    && Ascii("chain_id") in m && m[Ascii("chain_id")] == OptionalUuid(f.chainId)
    && Ascii("chain_kind") in m && m[Ascii("chain_kind")] == String(f.chainKind)
    && Ascii("occurred_at") in m && m[Ascii("occurred_at")] == String(Rfc3339(f.occurredAt))
    && Ascii("payload") in m && m[Ascii("payload")] == f.payload
    && Ascii("tenant_id") in m && m[Ascii("tenant_id")] == OptionalUuid(f.tenantId)
  }

  lemma RowIsListed(f: Fields, v: Json)
    requires v.Object? && HoldsRow(v.members, f)
    ensures Lists(RowMembers(f), v)
  {
    NamesArePlain();
    UuidOrNullIs(f.actorId);
    UuidOrNullIs(f.chainId);
    UuidOrNullIs(f.tenantId);
    TimestampQuoted(f.occurredAt);
  }

  lemma RowIsListedWhole(f: Fields)
    ensures forall k | k in CanonicalRow(f).members :: k in KeysOf(RowMembers(f))
  {
    var ks := KeysOf(RowMembers(f));
    assert ks[0] == Ascii("actor_class") && ks[1] == Ascii("actor_id") && ks[2] == Ascii("chain_id") && ks[3] == Ascii("chain_kind");
    assert ks[4] == Ascii("occurred_at") && ks[5] == Ascii("payload") && ks[6] == Ascii("tenant_id");
  }

  lemma NamesAreInOrder()
    ensures KeyBefore(Ascii("actor_class"), Ascii("actor_id")) && KeyBefore(Ascii("actor_id"), Ascii("chain_id"))
    ensures KeyBefore(Ascii("chain_id"), Ascii("chain_kind")) && KeyBefore(Ascii("chain_kind"), Ascii("occurred_at"))
    ensures KeyBefore(Ascii("occurred_at"), Ascii("payload")) && KeyBefore(Ascii("payload"), Ascii("tenant_id"))
  {
    NamesArePlain();
    AsciiBefore("actor_class", "actor_id", 6);
    AsciiBefore("actor_id", "chain_id", 0);
    AsciiBefore("chain_id", "chain_kind", 6);
    AsciiBefore("chain_kind", "occurred_at", 0);
    AsciiBefore("occurred_at", "payload", 0);
    AsciiBefore("payload", "tenant_id", 0);
  }

  lemma RowIsInOrder(f: Fields)
    ensures forall i | 0 < i < 7 :: KeyBefore(KeysOf(RowMembers(f))[i - 1], KeysOf(RowMembers(f))[i])
  {
    NamesAreInOrder();
  }

  /** The canonical text of every row: seven members in this order and no white
      space, a UUID or `null` where there may be none. */
  lemma RowTextIs(f: Fields)
    ensures Emit(CanonicalRow(f)) == Ascii("{") + Document(RowMembers(f), true)
  {
    AuditHash.Members(f);
    RowIsListed(f, CanonicalRow(f));
    RowIsListedWhole(f);
    RowIsInOrder(f);
    ObjectText(CanonicalRow(f), RowMembers(f));
  }

  /** What is hashed is that text, then the previous hash if there is one. */
  lemma HashedStringIs(f: Fields, prev: Option<Bytes>)
    ensures HashedString(f, prev) == Ascii("{") + Document(RowMembers(f), true) + match prev case None => [] case Some(p) => p
  {
    RowTextIs(f);
  }
}
