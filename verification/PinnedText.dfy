/** The document whose canonical bytes the repository's tests pin
    (`serde_jcs_canonical_bytes_stable`). */
module PinnedText {
  import opened Bytes
  import opened Json
  import opened JsonText
  import opened DocumentText
  import PayloadText

  const NUMBER_ONE: Number := [0x31]
  const NUMBER_TWO: Number := [0x32]

  function PinnedNested(): Json {
    Object(map[Ascii("b") := Bool(true), Ascii("a") := Null])
  }

  function PinnedDocument(): Json {
    Object(map[
      Ascii("action") := String(Ascii("tenant.update")),
      Ascii("fields") := Array([String(Ascii("name")), String(Ascii("settings"))]),
      Ascii("z_last") := Num(NUMBER_ONE),
      Ascii("a_first") := Num(NUMBER_TWO),
      Ascii("nested") := PinnedNested()
    ])
  }

  lemma MemberJoins(sep: string, key: string, value: string, rest: string)
    ensures Member(sep, key, Ascii(value), Ascii(rest)) == Ascii(sep + ("\"" + key + "\":") + value + rest)
  {
    assert Ascii(value) + Ascii(rest) == Ascii(value + rest);
    AsciiJoins(sep, "\"" + key + "\":", value + rest);
    assert sep + ("\"" + key + "\":") + (value + rest) == sep + ("\"" + key + "\":") + value + rest;
  }

  /** Names and values, both as they are written. */
  function Spelled(ms: seq<(string, string)>, first: bool): string {
    if ms == [] then "}"
    else (if first then "" else ",") + ("\"" + ms[0].0 + "\":") + ms[0].1 + Spelled(ms[1..], false)
  }

  function InAscii(ms: seq<(string, string)>): seq<(string, Bytes)> {
    seq(|ms|, i requires 0 <= i < |ms| => (ms[i].0, Ascii(ms[i].1)))
  }

  lemma {:induction false} DocumentIsSpelled(ms: seq<(string, string)>, first: bool)
    ensures Document(InAscii(ms), first) == Ascii(Spelled(ms, first))
  {
    if ms != [] {
      assert InAscii(ms)[1..] == InAscii(ms[1..]);
      DocumentIsSpelled(ms[1..], false);
      MemberJoins(if first then "" else ",", ms[0].0, ms[0].1, Spelled(ms[1..], false));
    }
  }

  /** An object from what its members spell. */
  lemma ObjectIsSpelled(v: Json, ms: seq<(string, string)>, text: string)
    requires Emit(v) == Ascii("{") + Document(InAscii(ms), true) && Spelled(ms, true) == text
    ensures Emit(v) == Ascii("{" + text)
  {
    DocumentIsSpelled(ms, true);
    AsciiJoin("{", text);
  }

  /** An object has a member, spelled so. */
  ghost predicate HasMember(v: Json, m: (string, string)) {
    v.Object? && Plain(m.0) && Ascii(m.0) in v.members && Ascii(m.1) == Emit(v.members[Ascii(m.0)])
  }

  lemma ListsAll(v: Json, ms: seq<(string, string)>)
    requires v.Object? && forall i | 0 <= i < |ms| :: HasMember(v, ms[i])
    ensures Lists(InAscii(ms), v)
  {
    forall i | 0 <= i < |ms| ensures InAscii(ms)[i] == (ms[i].0, Ascii(ms[i].1)) && HasMember(v, ms[i]) {}
  }

  function NestedMembers(): seq<(string, string)> {
    [("a", "null"), ("b", "true")]
  }

  lemma NestedIsListed()
    ensures Lists(InAscii(NestedMembers()), PinnedNested())
  {
    var m := PinnedNested().members;
    assert Ascii("a")[0] != Ascii("b")[0];
    assert m[Ascii("a")] == Null && m[Ascii("b")] == Bool(true);
    LiteralsAre([]);
  }

  lemma NestedIsInOrder()
    ensures var ks := KeysOf(InAscii(NestedMembers()));
            |ks| == 2 && KeyBefore(ks[0], ks[1]) && forall k | k in PinnedNested().members :: k in ks
  {
    var ks := KeysOf(InAscii(NestedMembers()));
    AsciiBefore("a", "b", 0);
    assert ks[0] == Ascii("a") && ks[1] == Ascii("b");
  }

  lemma NestedDocument()
    ensures Emit(PinnedNested()) == Ascii("{") + Document(InAscii(NestedMembers()), true)
  {
    NestedIsListed();
    NestedIsInOrder();
    ObjectText(PinnedNested(), InAscii(NestedMembers()));
  }

  lemma NestedIsSpelled()
    ensures Spelled(NestedMembers(), true) == "\"a\":null,\"b\":true}"
  {
    assert NestedMembers()[1..] == [("b", "true")];
    assert Spelled(NestedMembers()[1..], false) == ",\"b\":true}";
  }

  const NESTED_TEXT := "{" + "\"a\":null,\"b\":true}"

  lemma PinnedNestedIs()
    ensures Emit(PinnedNested()) == Ascii(NESTED_TEXT)
  {
    NestedDocument();
    NestedIsSpelled();
    ObjectIsSpelled(PinnedNested(), NestedMembers(), "\"a\":null,\"b\":true}");
  }

  function DocumentMembers(): seq<(string, string)> {
    [("a_first", "2"), ("action", "\"tenant.update\""), ("fields", FIELDS_TEXT), ("nested", NESTED_TEXT), ("z_last", "1")]
  }

  lemma TwoItems(a: Json, b: Json, x: string, y: string)
    requires Emit(a) == Ascii(x) && Emit(b) == Ascii(y)
    ensures Emit(Array([a, b])) == Ascii("[" + x + "," + y + "]")
  {
    var ts := Texts([a, b]);
    ArrayIs([a, b]);
    assert ts[..1] == [Ascii(x)] && ts[1] == Ascii(y);
    assert Join(ts) == Ascii(x) + Ascii(",") + Ascii(y);
    AsciiJoin("[" + x + "," + y, "]");
    AsciiJoin("[" + x + ",", y);
    AsciiJoin("[" + x, ",");
    AsciiJoin("[", x);
    Brackets(Ascii("["), Ascii(x), Ascii(","), Ascii(y), Ascii("]"));
  }

  lemma Brackets(a: Bytes, b: Bytes, c: Bytes, d: Bytes, e: Bytes)
    ensures a + (b + c + d + e) == a + b + c + d + e
  {
  }

  const FIELDS_TEXT := "[" + "\"name\"" + "," + "\"settings\"" + "]"

  lemma PinnedFieldsAre()
    ensures Emit(Array([String(Ascii("name")), String(Ascii("settings"))])) == Ascii(FIELDS_TEXT)
  {
    PlainString("name");
    PlainString("settings");
    assert "\"" + "name" + "\"" == "\"name\"" && "\"" + "settings" + "\"" == "\"settings\"";
    TwoItems(String(Ascii("name")), String(Ascii("settings")), "\"name\"", "\"settings\"");
  }

  predicate HasPinned(m: map<Bytes, Json>) {
    && Ascii("a_first") in m && m[Ascii("a_first")] == Num(NUMBER_TWO)
    && Ascii("action") in m && m[Ascii("action")] == String(Ascii("tenant.update"))
    && Ascii("fields") in m && m[Ascii("fields")] == Array([String(Ascii("name")), String(Ascii("settings"))])
    && Ascii("nested") in m && m[Ascii("nested")] == PinnedNested()
    && Ascii("z_last") in m && m[Ascii("z_last")] == Num(NUMBER_ONE)
  }

  /** The names are different, so each member is the one its name says. */
  lemma PinnedMembers()
    ensures HasPinned(PinnedDocument().members)
  {
    assert Ascii("action")[0] == 0x61 && Ascii("fields")[0] == 0x66 && Ascii("z_last")[0] == 0x7A && Ascii("nested")[0] == 0x6E;
  }

  lemma PinnedNamesArePlain()
    ensures Plain("a_first") && Plain("action") && Plain("fields") && Plain("nested") && Plain("z_last")
  {
  }

  lemma HasNumbers(v: Json)
    requires v.Object? && HasPinned(v.members)
    ensures HasMember(v, ("a_first", "2")) && HasMember(v, ("z_last", "1"))
  {
    PinnedNamesArePlain();
    assert Ascii("1") == NUMBER_ONE && Ascii("2") == NUMBER_TWO;
  }

  lemma HasTexts(v: Json)
    requires v.Object? && HasPinned(v.members)
    ensures HasMember(v, ("action", "\"tenant.update\"")) && HasMember(v, ("fields", FIELDS_TEXT)) && HasMember(v, ("nested", NESTED_TEXT))
  {
    PinnedNamesArePlain();
    PayloadText.UpdateActionIs();
    PinnedFieldsAre();
    PinnedNestedIs();
  }

  lemma HasAll(v: Json, a: (string, string), b: (string, string), c: (string, string), d: (string, string), e: (string, string))
    requires HasMember(v, a) && HasMember(v, b) && HasMember(v, c) && HasMember(v, d) && HasMember(v, e)
    ensures Lists(InAscii([a, b, c, d, e]), v)
  {
    ListsAll(v, [a, b, c, d, e]);
  }

  lemma DocumentIsListed(v: Json)
    requires v.Object? && HasPinned(v.members)
    ensures Lists(InAscii(DocumentMembers()), v)
  {
    HasNumbers(v);
    HasTexts(v);
    HasAll(v, ("a_first", "2"), ("action", "\"tenant.update\""), ("fields", FIELDS_TEXT), ("nested", NESTED_TEXT), ("z_last", "1"));
  }

  lemma DocumentIsInOrder()
    ensures var ks := KeysOf(InAscii(DocumentMembers()));
            |ks| == 5 && (forall i | 0 < i < 5 :: KeyBefore(ks[i - 1], ks[i])) && forall k | k in PinnedDocument().members :: k in ks
  {
    var ks := KeysOf(InAscii(DocumentMembers()));
    AsciiBefore("a_first", "action", 1);
    AsciiBefore("action", "fields", 0);
    AsciiBefore("fields", "nested", 0);
    AsciiBefore("nested", "z_last", 0);
    assert ks[0] == Ascii("a_first") && ks[1] == Ascii("action") && ks[2] == Ascii("fields") && ks[3] == Ascii("nested") && ks[4] == Ascii("z_last");
  }

  lemma DocumentIs()
    ensures Emit(PinnedDocument()) == Ascii("{") + Document(InAscii(DocumentMembers()), true)
  {
    PinnedMembers();
    DocumentIsListed(PinnedDocument());
    DocumentIsInOrder();
    ObjectText(PinnedDocument(), InAscii(DocumentMembers()));
  }

  /** How one member is spelled. */
  predicate Spells(m: (string, string), first: bool, text: string) {
    (if first then "" else ",") + ("\"" + m.0 + "\":") + m.1 == text
  }

  lemma SpelledNext(m: (string, string), ms: seq<(string, string)>, first: bool, text: string)
    requires Spells(m, first, text)
    ensures Spelled([m] + ms, first) == text + Spelled(ms, false)
  {
    assert ([m] + ms)[1..] == ms;
  }

  lemma FiveSpelled(a: (string, string), b: (string, string), c: (string, string), d: (string, string), e: (string, string),
                    ta: string, tb: string, tc: string, td: string, te: string)
    requires Spells(a, true, ta) && Spells(b, false, tb) && Spells(c, false, tc) && Spells(d, false, td) && Spells(e, false, te)
    ensures Spelled([a, b, c, d, e], true) == ta + (tb + (tc + (td + (te + "}"))))
  {
    SpelledNext(e, [], false, te);
    SpelledNext(d, [e], false, td);
    SpelledNext(c, [d, e], false, tc);
    SpelledNext(b, [c, d, e], false, tb);
    SpelledNext(a, [b, c, d, e], true, ta);
    assert [e] + [] == [e] && [d] + [e] == [d, e] && [c] + [d, e] == [c, d, e] && [b] + [c, d, e] == [b, c, d, e];
    assert [a] + [b, c, d, e] == [a, b, c, d, e];
  }

  lemma SpelledNumbers()
    ensures Spells(("a_first", "2"), true, "\"a_first\":2") && Spells(("z_last", "1"), false, ",\"z_last\":1")
  {
  }

  lemma SpelledAction()
    ensures Spells(("action", "\"tenant.update\""), false, ",\"action\":\"tenant.update\"")
  {
  }

  lemma SpelledFields()
    ensures Spells(("fields", FIELDS_TEXT), false, ",\"fields\":[\"name\",\"settings\"]")
  {
  }

  lemma SpelledNested()
    ensures Spells(("nested", NESTED_TEXT), false, ",\"nested\":{\"a\":null,\"b\":true}")
  {
  }

  /** The document the repository pins, and its bytes. */
  lemma PinnedDocumentIs()
    ensures Emit(PinnedDocument()) ==
            Ascii("{" + ("\"a_first\":2" + (",\"action\":\"tenant.update\"" + (",\"fields\":[\"name\",\"settings\"]" +
                  (",\"nested\":{\"a\":null,\"b\":true}" + (",\"z_last\":1" + "}"))))))
  {
    DocumentIs();
    SpelledNumbers();
    SpelledAction();
    SpelledFields();
    SpelledNested();
    FiveSpelled(("a_first", "2"), ("action", "\"tenant.update\""), ("fields", FIELDS_TEXT), ("nested", NESTED_TEXT), ("z_last", "1"),
      "\"a_first\":2", ",\"action\":\"tenant.update\"", ",\"fields\":[\"name\",\"settings\"]", ",\"nested\":{\"a\":null,\"b\":true}", ",\"z_last\":1");
    ObjectIsSpelled(PinnedDocument(), DocumentMembers(), Spelled(DocumentMembers(), true));
  }
}
