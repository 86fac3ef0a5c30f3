/** What the two payloads of the tenant handlers say, as the text that is hashed:
    every member, in order, and no other. */
module PayloadText {
  import opened Wrappers
  import opened Bytes
  import opened Json
  import opened JsonText
  import opened DocumentText
  import opened Tenants

  /** A document from its members. */
  function Text(ms: seq<(string, Bytes)>): Bytes {
    Ascii("{") + Document(ms, true)
  }

  lemma OneMember(m: map<Bytes, Json>, a: string, x: Json)
    requires Plain(a) && m == map[Ascii(a) := x]
    ensures Emit(Object(m)) == Text([(a, Emit(x))])
  {
    var ms := [(a, Emit(x))];
    assert KeysOf(ms)[0] == Ascii(a);
    ObjectText(Object(m), ms);
  }

  lemma TwoMembers(m: map<Bytes, Json>, a: string, x: Json, b: string, y: Json)
    requires Plain(a) && Plain(b) && KeyBefore(Ascii(a), Ascii(b)) && m == map[Ascii(a) := x, Ascii(b) := y]
    ensures Emit(Object(m)) == Text([(a, Emit(x)), (b, Emit(y))])
  {
    var ms := [(a, Emit(x)), (b, Emit(y))];
    KeyOrder(Ascii(a), Ascii(b));
    KeyOrder(Ascii(a), Ascii(a));
    assert KeysOf(ms)[0] == Ascii(a) && KeysOf(ms)[1] == Ascii(b);
    ObjectText(Object(m), ms);
  }

  lemma NamesArePlain()
    ensures Plain("from") && Plain("to") && Plain("name") && Plain("settings") && Plain("action") && Plain("changes") && Plain("deletion_reason")
  {
  }

  lemma NamesAreInOrder()
    ensures KeyBefore(Ascii("from"), Ascii("to")) && KeyBefore(Ascii("name"), Ascii("settings"))
    ensures KeyBefore(Ascii("action"), Ascii("changes")) && KeyBefore(Ascii("action"), Ascii("deletion_reason"))
  {
    NamesArePlain();
    AsciiBefore("from", "to", 0);
    AsciiBefore("name", "settings", 0);
    AsciiBefore("action", "changes", 0);
    AsciiBefore("action", "deletion_reason", 0);
  }

  /** What a field was and what it is. */
  function FromToText(from: Bytes, to: Bytes): Bytes {
    Text([("from", from), ("to", to)])
  }

  lemma FromToIs(from: Json, to: Json)
    ensures Emit(FromTo(from, to)) == FromToText(Emit(from), Emit(to))
  {
    NamesArePlain();
    NamesAreInOrder();
    TwoMembers(map[FROM := from, TO := to], "from", from, "to", to);
  }

  /** One member for each of name and settings that differs. */
  ghost function Changes(before: Tenant, after: Tenant): seq<(string, Bytes)> {
    (if before.name == after.name then [] else [("name", FromToText(EmitString(before.name), EmitString(after.name)))]) +
    (if before.settings == after.settings then [] else [("settings", FromToText(Emit(before.settings), Emit(after.settings)))])
  }

  lemma DiffMembers(before: Tenant, after: Tenant)
    ensures var x, y := FromTo(String(before.name), String(after.name)), FromTo(before.settings, after.settings);
            PatchDiff(before, after) ==
            if before.name != after.name then
              if before.settings != after.settings then map[NAME := x, SETTINGS := y] else map[NAME := x]
            else if before.settings != after.settings then map[SETTINGS := y] else map[]
  {
  }

  lemma Singles<T>(a: T, b: T)
    ensures [a] + [b] == [a, b] && [a] + [] == [a] && [] + [b] == [b]
  {
  }

  lemma ChangesAre(before: Tenant, after: Tenant)
    ensures Emit(Object(PatchDiff(before, after))) == Text(Changes(before, after))
  {
    NamesArePlain();
    NamesAreInOrder();
    DiffMembers(before, after);
    var x, y := FromTo(String(before.name), String(after.name)), FromTo(before.settings, after.settings);
    FromToIs(String(before.name), String(after.name));
    FromToIs(before.settings, after.settings);
    Singles(("name", Emit(x)), ("settings", Emit(y)));
    if before.name != after.name && before.settings != after.settings {
      TwoMembers(map[NAME := x, SETTINGS := y], "name", x, "settings", y);
    } else if before.name != after.name {
      OneMember(map[NAME := x], "name", x);
    } else if before.settings != after.settings {
      OneMember(map[SETTINGS := y], "settings", y);
    } else {
      ObjectText(Object(map[]), []);
    }
  }

  lemma UpdateActionIs()
    ensures Emit(String(Ascii("tenant.update"))) == Ascii("\"tenant.update\"")
  {
    PlainString("tenant.update");
    assert "\"" + "tenant.update" + "\"" == "\"tenant.update\"";
  }

  /** The payload of a PATCH. */
  lemma UpdatePayloadIs(before: Tenant, after: Tenant)
    ensures Emit(UpdatePayload(before, after)) == Text([("action", Ascii("\"tenant.update\"")), ("changes", Text(Changes(before, after)))])
  {
    NamesArePlain();
    NamesAreInOrder();
    ChangesAre(before, after);
    UpdateActionIs();
    TwoMembers(UpdatePayload(before, after).members, "action", String(Ascii("tenant.update")), "changes", Object(PatchDiff(before, after)));
  }

  lemma DeleteActionIs()
    ensures Emit(String(Ascii("tenant.delete"))) == Ascii("\"tenant.delete\"")
  {
    PlainString("tenant.delete");
    assert "\"" + "tenant.delete" + "\"" == "\"tenant.delete\"";
  }

  /** The payload of a DELETE. */
  lemma DeletePayloadIs(reason: Bytes)
    ensures Emit(DeletePayload(reason)) == Text([("action", Ascii("\"tenant.delete\"")), ("deletion_reason", EmitString(reason))])
  {
    NamesArePlain();
    NamesAreInOrder();
    DeleteActionIs();
    TwoMembers(DeletePayload(reason).members, "action", String(Ascii("tenant.delete")), "deletion_reason", String(reason));
  }
}
