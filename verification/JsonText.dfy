/** What the canonical text of a JSON value is (RFC 8785), told apart from the
    writer: its literals, its escapes, the order of its members. */
module JsonText {
  import opened Wrappers
  import opened Bytes
  import opened Json
  import opened Utf8

  // ---- Member order: by UTF-16 code units (section 3.2.3).

  /** The code units of a character (section 2.1 of RFC 2781). */
  function Units(c: Scalar): (u: seq<int>)
    ensures 1 <= |u| <= 2
  {
    if c < 0x1_0000 then [c as int] else [0xD800 + (c - 0x1_0000) / 0x400, 0xDC00 + (c - 0x1_0000) % 0x400]
  }

  function Utf16(cs: seq<Scalar>): seq<int> {
    if cs == [] then [] else Units(cs[0]) + Utf16(cs[1..])
  }

  lemma {:induction false} SameFront(p: seq<int>, a: seq<int>, b: seq<int>)
    ensures Before(p + a, p + b) <==> Before(a, b)
  {
    if p == [] {
      assert p + a == a && p + b == b;
    } else {
      assert (p + a)[1..] == p[1..] + a && (p + b)[1..] == p[1..] + b;
      SameFront(p[1..], a, b);
    }
  }

  /** The place of a character in the order: supplementary ones come between
      U+D7FF and U+E000. */
  function Place(c: Scalar): int {
    if c < 0xD800 then c else if c >= 0x1_0000 then c - 0x1_0000 + 0xD800 else c + 0x10_0000
  }

  lemma UnitsDiffer(c: Scalar, d: Scalar, x: seq<int>, y: seq<int>)
    requires c != d
    ensures Before(Units(c) + x, Units(d) + y) <==> Place(c) < Place(d)
  {
    var a, b := Units(c) + x, Units(d) + y;
    if Units(c)[0] != Units(d)[0] { FirstDifference(a, b, 0); } else { FirstDifference(a, b, 1); }
  }

  lemma RanksJoin(a: Bytes, b: Bytes)
    ensures Ranks(a + b) == Ranks(a) + Ranks(b)
  {
  }

  /** `e` stands for `c`, digit by digit. */
  predicate StandsFor(e: Bytes, c: int) {
    match |e|
    case 1 => e[0] < 0x80 && c == e[0] as int
    case 2 => 0xC0 <= e[0] < 0xE0 && Continuation(e[1]) && 0x80 <= c < 0x800 && c == (e[0] as int - 0xC0) * 0x40 + (e[1] as int - 0x80)
    case 3 =>
      && 0xE0 <= e[0] < 0xF0 && Continuation(e[1]) && Continuation(e[2]) && 0x800 <= c < 0x1_0000
      && c == (e[0] as int - 0xE0) * 0x1000 + (e[1] as int - 0x80) * 0x40 + (e[2] as int - 0x80)
    case 4 =>
      && 0xF0 <= e[0] < 0xF8 && Continuation(e[1]) && Continuation(e[2]) && Continuation(e[3]) && 0x1_0000 <= c < 0x11_0000
      && c == (e[0] as int - 0xF0) * 0x4_0000 + (e[1] as int - 0x80) * 0x1000 + (e[2] as int - 0x80) * 0x40 + (e[3] as int - 0x80)
    case _ => false
  }

  lemma EncodeStandsFor(c: Scalar)
    ensures StandsFor(Encode(c), c)
  {
    var e := Encode(c);
    DigitsOf(c);
    if c >= 0x1_0000 {
      DigitsOf(c / 0x40);
      assert |e| == 4 && e[1] == 0x80 + c / 0x1000 % 0x40 && e[2] == 0x80 + c / 0x40 % 0x40;
    } else if c >= 0x800 {
      assert |e| == 3 && e[1] == 0x80 + c / 0x40 % 0x40;
    }
  }

  /** The last six bits, and the six before them. */
  lemma DigitsOf(c: nat)
    ensures c == c / 0x1000 * 0x1000 + c / 0x40 % 0x40 * 0x40 + c % 0x40 && c / 0x40 / 0x1000 == c / 0x4_0000 && c / 0x40 / 0x40 == c / 0x1000
  {
  }

  /** Different first bytes decide. */
  lemma LeadDecides(e: Bytes, f: Bytes, c: Scalar, d: Scalar)
    requires StandsFor(e, c) && StandsFor(f, d) && e[0] != f[0]
    ensures Rank(e[0]) != Rank(f[0]) && (Rank(e[0]) < Rank(f[0]) <==> Place(c) < Place(d))
  {
  }

  /** After the same first byte the characters are on the same side of the
      surrogates. */
  lemma SameLead(e: Bytes, f: Bytes, c: Scalar, d: Scalar)
    requires StandsFor(e, c) && StandsFor(f, d) && e[0] == f[0]
    ensures |e| == |f| && (Place(c) < Place(d) <==> c < d)
  {
  }

  /** And the first different byte after it decides. */
  lemma LaterDecides(e: Bytes, f: Bytes, c: Scalar, d: Scalar) returns (i: nat)
    requires StandsFor(e, c) && StandsFor(f, d) && c != d && e[0] == f[0] && |e| == |f|
    ensures i < |e| && (forall j | 0 <= j < i :: e[j] == f[j]) && Rank(e[i]) != Rank(f[i]) && (Rank(e[i]) < Rank(f[i]) <==> c < d)
  {
    i := if e[1] != f[1] then 1 else if e[2] != f[2] then 2 else 3;
  }

  /** The first byte in which two encodings differ decides. */
  lemma DifferenceDecides(e: Bytes, f: Bytes, c: Scalar, d: Scalar) returns (i: nat)
    requires StandsFor(e, c) && StandsFor(f, d) && c != d
    ensures i < |e| && i < |f| && (forall j | 0 <= j < i :: e[j] == f[j]) && Rank(e[i]) != Rank(f[i])
    ensures Rank(e[i]) < Rank(f[i]) <==> Place(c) < Place(d)
  {
    if e[0] != f[0] {
      i := 0;
      LeadDecides(e, f, c, d);
    } else {
      SameLead(e, f, c, d);
      i := LaterDecides(e, f, c, d);
    }
  }

  lemma RanksDiffer(c: Scalar, d: Scalar, x: seq<int>, y: seq<int>)
    requires c != d
    ensures Before(Ranks(Encode(c)) + x, Ranks(Encode(d)) + y) <==> Place(c) < Place(d)
  {
    EncodeStandsFor(c);
    EncodeStandsFor(d);
    var i := DifferenceDecides(Encode(c), Encode(d), c, d);
    RanksAt(Encode(c), Encode(d), x, y, i);
  }

  lemma RanksAt(e: Bytes, f: Bytes, x: seq<int>, y: seq<int>, i: nat)
    requires i < |e| && i < |f| && Rank(e[i]) != Rank(f[i]) && forall j | 0 <= j < i :: e[j] == f[j]
    ensures Before(Ranks(e) + x, Ranks(f) + y) <==> Rank(e[i]) < Rank(f[i])
  {
    var a, b := Ranks(e) + x, Ranks(f) + y;
    assert forall j | 0 <= j < i :: a[j] == b[j];
    assert a[..i] == b[..i];
    FirstDifference(a, b, i);
  }

  /** Members are sorted by the UTF-16 code units of their keys. */
  lemma {:induction false} OrderIsUtf16(cs: seq<Scalar>, ds: seq<Scalar>)
    ensures KeyBefore(EncodeAll(cs), EncodeAll(ds)) <==> Before(Utf16(cs), Utf16(ds))
  {
    if cs != [] && ds != [] {
      RanksJoin(Encode(cs[0]), EncodeAll(cs[1..]));
      RanksJoin(Encode(ds[0]), EncodeAll(ds[1..]));
      if cs[0] == ds[0] {
        SameFront(Ranks(Encode(cs[0])), Ranks(EncodeAll(cs[1..])), Ranks(EncodeAll(ds[1..])));
        SameFront(Units(cs[0]), Utf16(cs[1..]), Utf16(ds[1..]));
        OrderIsUtf16(cs[1..], ds[1..]);
      } else {
        RanksDiffer(cs[0], ds[0], Ranks(EncodeAll(cs[1..])), Ranks(EncodeAll(ds[1..])));
        UnitsDiffer(cs[0], ds[0], Utf16(cs[1..]), Utf16(ds[1..]));
      }
    }
  }

  // ---- Escapes (section 3.2.2.2).

  const HEX := "0123456789abcdef"

  lemma HexDigitIs(n: int)
    requires 0 <= n < 16
    ensures HexDigit(n) == HEX[n] as int
  {
  }

  /** Every byte of a string is itself, but for the quote, the backslash and the
      control characters. Five of these have a letter; the rest are written with
      two lower-case hexadecimal digits. */
  lemma EscapeIs(b: byte)
    ensures EscapeByte(b) ==
            if b == '\"' as int then Ascii("\\\"")
            else if b == '\\' as int then Ascii("\\\\")
            else if b == 8 then Ascii("\\b")
            else if b == 9 then Ascii("\\t")
            else if b == 10 then Ascii("\\n")
            else if b == 12 then Ascii("\\f")
            else if b == 13 then Ascii("\\r")
            else if b <= 0x1F then Ascii("\\u00") + Ascii([HEX[b / 16], HEX[b % 16]])
            else [b]
  {
    if b <= 0x1F {
      HexDigitIs(b / 16);
      HexDigitIs(b % 16);
    }
  }

  /** The escapes of the bytes, one after the other. */
  lemma {:induction false} EscapeJoins(s: Bytes, t: Bytes)
    ensures Escape(s + t) == Escape(s) + Escape(t)
  {
    if s == [] {
      assert s + t == t && [] + Escape(t) == Escape(t);
    } else {
      EscapeJoins(s[1..], t);
      FrontOf(s, t);
      Assoc(EscapeByte(s[0]), Escape(s[1..]), Escape(t));
    }
  }

  lemma FrontOf(s: Bytes, t: Bytes)
    requires s != []
    ensures s + t != [] && (s + t)[0] == s[0] && (s + t)[1..] == s[1..] + t
  {
  }

  lemma EscapeOne(b: byte)
    ensures Escape([b]) == EscapeByte(b) && Escape([]) == []
  {
    assert [b][1..] == [] && EscapeByte(b) + [] == EscapeByte(b);
  }

  // ---- Values (section 3.2.2).

  /** The parts with a comma between any two. */
  function Join(parts: seq<Bytes>): Bytes {
    var n := |parts|;
    if n == 0 then [] else if n == 1 then parts[0] else Join(parts[..n - 1]) + Ascii(",") + parts[n - 1]
  }

  lemma {:induction false} JoinFirst(p: Bytes, parts: seq<Bytes>)
    ensures Join([p] + parts) == if parts == [] then p else p + Ascii(",") + Join(parts)
  {
    var all, n := [p] + parts, |parts|;
    if n == 0 {
      assert all == [p];
    } else {
      var front := parts[..n - 1];
      assert all[..n] == [p] + front && all[n] == parts[n - 1];
      JoinFirst(p, front);
      if n == 1 {
        assert front == [] && Join(parts) == parts[0];
      } else {
        Assoc(p + Ascii(","), Join(front), Ascii(","));
        Assoc(p + Ascii(","), Join(front) + Ascii(","), parts[n - 1]);
      }
    }
  }

  ghost function Texts(items: seq<Json>): (ts: seq<Bytes>)
    ensures |ts| == |items|
  {
    seq(|items|, i requires 0 <= i < |items| => Emit(items[i]))
  }

  /** A key, a colon and a value. */
  ghost function MemberTexts(members: map<Bytes, Json>, keys: seq<Bytes>): (ts: seq<Bytes>)
    requires forall k | k in keys :: k in members
    ensures |ts| == |keys|
  {
    seq(|keys|, i requires 0 <= i < |keys| => EmitString(keys[i]) + (Ascii(":") + Emit(members[keys[i]])))
  }

  /** What is left of a list after its opening: a comma unless it starts, the
      parts, the closing. */
  function Tail(first: bool, parts: seq<Bytes>, close: Bytes): Bytes {
    (if first || parts == [] then [] else Ascii(",")) + (Join(parts) + close)
  }

  lemma TailFirst(first: bool, p: Bytes, parts: seq<Bytes>, close: Bytes)
    ensures Tail(first, [p] + parts, close) == Separator(first) + (p + Tail(false, parts, close))
  {
    JoinFirst(p, parts);
    assert Ascii(",") == [COMMA];
    if parts == [] {
      assert [] + close == close && [] + ([] + close) == close;
    } else {
      assert (p + Ascii(",") + Join(parts)) + close == p + (Ascii(",") + (Join(parts) + close));
    }
  }

  lemma {:induction false} ItemsAre(items: seq<Json>, first: bool)
    ensures EmitItems(items, first) == Tail(first, Texts(items), Ascii("]"))
  {
    if items == [] {
      assert Ascii("]") == [CLOSE_BRACKET] && [] + ([] + Ascii("]")) == Ascii("]");
    } else {
      ItemsAre(items[1..], false);
      assert Texts(items) == [Emit(items[0])] + Texts(items[1..]);
      TailFirst(first, Emit(items[0]), Texts(items[1..]), Ascii("]"));
    }
  }

  lemma {:induction false} MembersAre(v: Json, keys: seq<Bytes>, first: bool)
    requires v.Object? && forall k | k in keys :: k in v.members
    ensures EmitMembers(v, keys, first) == Tail(first, MemberTexts(v.members, keys), Ascii("}"))
    decreases |keys|
  {
    if keys == [] {
      assert Ascii("}") == [CLOSE_BRACE] && [] + ([] + Ascii("}")) == Ascii("}");
    } else {
      var rest := MemberTexts(v.members, keys[1..]);
      var t := EmitString(keys[0]) + (Ascii(":") + Emit(v.members[keys[0]]));
      MembersAre(v, keys[1..], false);
      assert MemberTexts(v.members, keys) == [t] + rest;
      TailFirst(first, t, rest, Ascii("}"));
      MemberIs(v, keys, first);
    }
  }

  lemma MemberIs(v: Json, keys: seq<Bytes>, first: bool)
    requires v.Object? && keys != [] && forall k | k in keys :: k in v.members
    ensures EmitMembers(v, keys, first) ==
            Separator(first) + ((EmitString(keys[0]) + (Ascii(":") + Emit(v.members[keys[0]]))) + EmitMembers(v, keys[1..], false))
  {
    var k, e, more := EmitString(keys[0]), Emit(v.members[keys[0]]), EmitMembers(v, keys[1..], false);
    assert Ascii(":") == [COLON];
    Assoc(k, [COLON] + e, more);
    Assoc([COLON], e, more);
  }

  /** All keys, each once, in the order of their code units. */
  ghost predicate InKeyOrder(keys: seq<Bytes>, members: map<Bytes, Json>) {
    && (forall k :: k in keys <==> k in members)
    && forall i, j | 0 <= i < j < |keys| :: KeyBefore(keys[i], keys[j])
  }

  /** There is only one way to put them in order. */
  lemma {:induction false} OrderIsUnique(a: seq<Bytes>, b: seq<Bytes>)
    requires forall k :: k in a <==> k in b
    requires forall i, j | 0 <= i < j < |a| :: KeyBefore(a[i], a[j])
    requires forall i, j | 0 <= i < j < |b| :: KeyBefore(b[i], b[j])
    ensures a == b
  {
    if a != [] { HasSome(a, b); }
    if b != [] { HasSome(b, a); }
    if a != [] {
      SameFirst(a, b);
      forall k ensures k in a[1..] <==> k in b[1..] {
        RestHas(a, k);
        RestHas(b, k);
      }
      OrderIsUnique(a[1..], b[1..]);
      assert a == [a[0]] + a[1..] && b == [b[0]] + b[1..];
    }
  }

  lemma HasSome(a: seq<Bytes>, b: seq<Bytes>)
    requires a != [] && forall k :: k in a <==> k in b
    ensures b != []
  {
    assert a[0] in a;
  }

  lemma SameFirst(a: seq<Bytes>, b: seq<Bytes>)
    requires a != [] && b != [] && forall k :: k in a <==> k in b
    requires forall i, j | 0 <= i < j < |a| :: KeyBefore(a[i], a[j])
    requires forall i, j | 0 <= i < j < |b| :: KeyBefore(b[i], b[j])
    ensures a[0] == b[0]
  {
    assert a[0] in b && b[0] in a;
    var i :| 0 <= i < |b| && b[i] == a[0];
    var j :| 0 <= j < |a| && a[j] == b[0];
    KeyOrder(a[0], b[0]);
  }

  lemma RestHas(a: seq<Bytes>, k: Bytes)
    requires a != [] && forall i, j | 0 <= i < j < |a| :: KeyBefore(a[i], a[j])
    ensures k in a[1..] <==> k in a && k != a[0]
  {
    KeyOrder(a[0], a[0]);
    if k in a && k != a[0] {
      var i :| 0 <= i < |a| && a[i] == k;
      assert a[1..][i - 1] == k;
    }
  }

  lemma LiteralsAre(s: Bytes)
    ensures NULL == Ascii("null") && TRUE == Ascii("true") && FALSE == Ascii("false")
    ensures EmitString(s) == Ascii("\"") + (Escape(s) + Ascii("\""))
  {
    assert Ascii("\"") == [QUOTE];
  }

  lemma ArrayIs(items: seq<Json>)
    ensures Emit(Array(items)) == Ascii("[") + (Join(Texts(items)) + Ascii("]"))
  {
    assert Ascii("[") == [OPEN_BRACKET];
    ItemsAre(items, true);
    assert [] + (Join(Texts(items)) + Ascii("]")) == Join(Texts(items)) + Ascii("]");
  }

  lemma ObjectIs(members: map<Bytes, Json>, keys: seq<Bytes>)
    requires InKeyOrder(keys, members)
    ensures Emit(Object(members)) == Ascii("{") + (Join(MemberTexts(members, keys)) + Ascii("}"))
  {
    assert Ascii("{") == [OPEN_BRACE];
    OrderIsUnique(keys, Sorted(members.Keys));
    MembersAre(Object(members), keys, true);
    assert [] + (Join(MemberTexts(members, keys)) + Ascii("}")) == Join(MemberTexts(members, keys)) + Ascii("}");
  }

  /** The canonical text of every value. Nothing is written but this: no white
      space, no other literal, no other order. */
  lemma EmitIs(v: Json)
    ensures match v
            case Null => Emit(v) == Ascii("null")
            case Bool(b) => Emit(v) == Ascii(if b then "true" else "false")
            case Num(t) => Emit(v) == t
            case String(s) => Emit(v) == Ascii("\"") + (Escape(s) + Ascii("\""))
            case Array(items) => Emit(v) == Ascii("[") + (Join(Texts(items)) + Ascii("]"))
            case Object(members) =>
              forall keys | InKeyOrder(keys, members) :: Emit(v) == Ascii("{") + (Join(MemberTexts(members, keys)) + Ascii("}"))
  {
    match v
    case Null => LiteralsAre([]);
    case Bool(b) => LiteralsAre([]);
    case Num(_) =>
    case String(s) => LiteralsAre(s);
    case Array(items) => ArrayIs(items);
    case Object(members) => forall keys | InKeyOrder(keys, members) { ObjectIs(members, keys); }
  }
}
