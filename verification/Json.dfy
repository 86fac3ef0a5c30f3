/** JSON values and their canonical form (RFC 8785): one value, one byte
    string, and none the beginning of another. */
module Json {
  import opened Bytes

  predicate NumberByte(b: byte) {
    0x30 <= b <= 0x39 || b == 0x2D || b == 0x2B || b == 0x2E || b == 0x65 || b == 0x45
  }

  predicate IsNumber(t: Bytes) {
    |t| > 0 && (0x30 <= t[0] <= 0x39 || t[0] == 0x2D) && forall i | 0 <= i < |t| :: NumberByte(t[i])
  }

  /** A number is the token it is written as. */
  type Number = t: Bytes | IsNumber(t) witness [0x30]

  /** Strings are UTF-8 bytes; an object is a map, as in `serde_json`. */
  datatype Json =
    | Null
    | Bool(value: bool)
    | Num(token: Number)
    | String(text: Bytes)
    | Array(items: seq<Json>)
    | Object(members: map<Bytes, Json>)

  const QUOTE: byte := 0x22
  const BACKSLASH: byte := 0x5C
  const COMMA: byte := 0x2C
  const OPEN_BRACKET: byte := 0x5B
  const CLOSE_BRACKET: byte := 0x5D
  const OPEN_BRACE: byte := 0x7B
  const CLOSE_BRACE: byte := 0x7D
  const NULL: Bytes := [0x6E, 0x75, 0x6C, 0x6C]
  const TRUE: Bytes := [0x74, 0x72, 0x75, 0x65]
  const FALSE: Bytes := [0x66, 0x61, 0x6C, 0x73, 0x65]

  // ---- Strings (section 3.2.2.2).

  function HexDigit(n: int): byte
    requires 0 <= n < 16
  {
    if n < 10 then 0x30 + n else 0x57 + n
  }

  function EscapeByte(b: byte): (e: Bytes)
    ensures |e| > 0 && e[0] != QUOTE
  {
    if b == QUOTE then [BACKSLASH, QUOTE]
    else if b == BACKSLASH then [BACKSLASH, BACKSLASH]
    else if b == 0x08 then [BACKSLASH, 0x62]
    else if b == 0x09 then [BACKSLASH, 0x74]
    else if b == 0x0A then [BACKSLASH, 0x6E]
    else if b == 0x0C then [BACKSLASH, 0x66]
    else if b == 0x0D then [BACKSLASH, 0x72]
    else if b < 0x20 then [BACKSLASH, 0x75, 0x30, 0x30, HexDigit(b / 16), HexDigit(b % 16)]
    else [b]
  }

  function Escape(s: Bytes): Bytes {
    if s == [] then [] else EscapeByte(s[0]) + Escape(s[1..])
  }

  function EmitString(s: Bytes): Bytes {
    [QUOTE] + (Escape(s) + [QUOTE])
  }

  // ---- Key order (section 3.2.3).

  /** Lexicographic order. */
  predicate Before(a: seq<int>, b: seq<int>) {
    |b| > 0 && (|a| == 0 || a[0] < b[0] || (a[0] == b[0] && Before(a[1..], b[1..])))
  }

  /** Two sequences are ordered as they first differ. */
  lemma {:induction false} FirstDifference(a: seq<int>, b: seq<int>, i: nat)
    requires i < |a| && i < |b| && a[..i] == b[..i] && a[i] != b[i]
    ensures Before(a, b) <==> a[i] < b[i]
  {
    if i > 0 {
      assert a[0] == a[..i][0] == b[..i][0] == b[0];
      assert a[1..][..i - 1] == a[..i][1..] == b[..i][1..] == b[1..][..i - 1];
      FirstDifference(a[1..], b[1..], i - 1);
    }
  }

  lemma {:induction false} BeforeIsTotal(a: seq<int>, b: seq<int>)
    ensures Before(a, b) || Before(b, a) || a == b
    ensures !(Before(a, b) && Before(b, a)) && !Before(a, a)
  {
    if |a| > 0 && |b| > 0 {
      BeforeIsTotal(a[1..], b[1..]);
      if a[0] == b[0] && a[1..] == b[1..] {
        assert a == [a[0]] + a[1..] == [b[0]] + b[1..] == b;
      }
    }
    if |a| > 0 { BeforeIsTotal(a[1..], a[1..]); }
  }

  lemma {:induction false} BeforeIsTransitive(a: seq<int>, b: seq<int>, c: seq<int>)
    requires Before(a, b) && Before(b, c)
    ensures Before(a, c)
  {
    if |a| > 0 && a[0] == b[0] == c[0] {
      BeforeIsTransitive(a[1..], b[1..], c[1..]);
    }
  }

  /** Keys are ordered by their UTF-16 code units. In UTF-8 that is the order of
      the bytes, but for the characters from U+E000 to U+FFFF, whose first bytes
      these two are: they come after the surrogates. */
  function Rank(b: byte): int {
    if b == 0xEE || b == 0xEF then b as int + 0x100 else b as int
  }

  function Ranks(s: Bytes): seq<int> {
    seq(|s|, i requires 0 <= i < |s| => Rank(s[i]))
  }

  predicate KeyBefore(a: Bytes, b: Bytes) {
    Before(Ranks(a), Ranks(b))
  }

  lemma KeyOrder(a: Bytes, b: Bytes)
    ensures KeyBefore(a, b) || KeyBefore(b, a) || a == b
    ensures !(KeyBefore(a, b) && KeyBefore(b, a)) && !KeyBefore(a, a)
  {
    BeforeIsTotal(Ranks(a), Ranks(b));
    BeforeIsTotal(Ranks(a), Ranks(a));
    if Ranks(a) == Ranks(b) {
      assert |a| == |Ranks(a)| == |b|;
      forall i | 0 <= i < |a| ensures a[i] == b[i] { assert Rank(a[i]) == Ranks(a)[i] == Ranks(b)[i] == Rank(b[i]); }
    }
  }

  ghost predicate IsLeast(k: Bytes, keys: set<Bytes>) {
    k in keys && forall x | x in keys && x != k :: KeyBefore(k, x)
  }

  lemma {:induction false} LeastExists(keys: set<Bytes>) returns (k: Bytes)
    requires keys != {}
    ensures IsLeast(k, keys)
  {
    k :| k in keys;
    if keys != {k} {
      var l := LeastExists(keys - {k});
      KeyOrder(k, l);
      if KeyBefore(k, l) {
        forall x | x in keys && x != k ensures KeyBefore(k, x) {
          if x != l {
            assert x in keys - {k} && KeyBefore(l, x);
            BeforeIsTransitive(Ranks(k), Ranks(l), Ranks(x));
          }
        }
      } else {
        k := l;
      }
    }
  }

  lemma OneLeast(keys: set<Bytes>)
    requires keys != {}
    ensures exists k :: IsLeast(k, keys)
  {
    var k := LeastExists(keys);
  }

  /** The keys in order. */
  ghost function Sorted(keys: set<Bytes>): (s: seq<Bytes>)
    ensures |s| == |keys| && forall k :: k in keys <==> k in s
    ensures forall i, j | 0 <= i < j < |s| :: KeyBefore(s[i], s[j])
  {
    if keys == {} then []
    else
      OneLeast(keys);
      var k :| IsLeast(k, keys);
      [k] + Sorted(keys - {k})
  }

  // ---- Values.

  ghost function Emit(v: Json): Bytes
    decreases v, 1, 0
  {
    match v
    case Null => NULL
    case Bool(b) => if b then TRUE else FALSE
    case Num(t) => t
    case String(s) => EmitString(s)
    case Array(items) => [OPEN_BRACKET] + EmitItems(items, true)
    case Object(members) => [OPEN_BRACE] + EmitMembers(v, Sorted(members.Keys), true)
  }

  /** The rest of an array, closing bracket included. */
  ghost function EmitItems(items: seq<Json>, first: bool): Bytes
    decreases items, 0, 0
  {
    if items == [] then [CLOSE_BRACKET]
    else Separator(first) + (Emit(items[0]) + EmitItems(items[1..], false))
  }

  /** The rest of an object, closing brace included. */
  ghost function EmitMembers(v: Json, keys: seq<Bytes>, first: bool): Bytes
    requires v.Object? && forall k | k in keys :: k in v.members
    decreases v, 0, |keys|
  {
    if keys == [] then [CLOSE_BRACE]
    else Separator(first) + (EmitString(keys[0]) + ([COLON] + (Emit(v.members[keys[0]]) + EmitMembers(v, keys[1..], false))))
  }

  function Separator(first: bool): Bytes {
    if first then [] else [COMMA]
  }

  // ---- Nothing is the beginning of anything else.

  lemma EscapeByteSplit(a: byte, b: byte, x: Bytes, y: Bytes)
    requires EscapeByte(a) + x == EscapeByte(b) + y
    ensures a == b && x == y
  {
    var e, f := EscapeByte(a), EscapeByte(b);
    var s, t := e + x, f + y;
    assert s[0] == e[0] && t[0] == f[0];
    assert |e| > 1 && |f| > 1 ==> s[1] == e[1] && t[1] == f[1];
    if |e| == 6 && |f| == 6 {
      assert s[4] == e[4] && t[4] == f[4] && s[5] == e[5] && t[5] == f[5];
      assert a / 16 == b / 16 && a % 16 == b % 16;
    }
    assert a == b;
    SplitConcat(e, f, x, y);
  }

  lemma {:induction false} EscapeSplit(s: Bytes, t: Bytes, x: Bytes, y: Bytes)
    requires Escape(s) + ([QUOTE] + x) == Escape(t) + ([QUOTE] + y)
    ensures s == t && x == y
  {
    var u, w := [QUOTE] + x, [QUOTE] + y;
    assert (Escape(s) + u)[0] == if s == [] then QUOTE else EscapeByte(s[0])[0];
    assert (Escape(t) + w)[0] == if t == [] then QUOTE else EscapeByte(t[0])[0];
    if s == [] {
      assert Escape(s) + u == u && Escape(t) + w == w;
      SplitConcat([QUOTE], [QUOTE], x, y);
    } else {
      Assoc(EscapeByte(s[0]), Escape(s[1..]), u);
      Assoc(EscapeByte(t[0]), Escape(t[1..]), w);
      EscapeByteSplit(s[0], t[0], Escape(s[1..]) + u, Escape(t[1..]) + w);
      EscapeSplit(s[1..], t[1..], x, y);
      assert s == [s[0]] + s[1..] && t == [t[0]] + t[1..];
    }
  }

  lemma StringSplit(s: Bytes, t: Bytes, x: Bytes, y: Bytes)
    requires EmitString(s) + x == EmitString(t) + y
    ensures s == t && x == y
  {
    Assoc([QUOTE], Escape(s) + [QUOTE], x);
    Assoc([QUOTE], Escape(t) + [QUOTE], y);
    Assoc(Escape(s), [QUOTE], x);
    Assoc(Escape(t), [QUOTE], y);
    SplitConcat([QUOTE], [QUOTE], Escape(s) + ([QUOTE] + x), Escape(t) + ([QUOTE] + y));
    EscapeSplit(s, t, x, y);
  }

  /** What may follow a value inside a document. */
  predicate Follows(x: Bytes) {
    x == [] || x[0] == COMMA || x[0] == CLOSE_BRACKET || x[0] == CLOSE_BRACE
  }

  lemma NumberSplit(a: Number, b: Number, x: Bytes, y: Bytes)
    requires a + x == b + y && Follows(x) && Follows(y)
    ensures a == b && x == y
  {
    var s := a + x;
    assert forall i | 0 <= i < |a| :: s[i] == a[i] && NumberByte(s[i]);
    assert forall i | 0 <= i < |b| :: s[i] == b[i] && NumberByte(s[i]);
    assert |x| > 0 ==> s[|a|] == x[0];
    assert |y| > 0 ==> s[|b|] == y[0];
    assert |a| == |b|;
    SplitConcat(a, b, x, y);
  }

  /** The first byte tells what kind of value follows. */
  function Kind(b: byte): int {
    if b == 0x6E then 0 else if b == 0x74 then 1 else if b == 0x66 then 2
    else if b == QUOTE then 4 else if b == OPEN_BRACKET then 5 else if b == OPEN_BRACE then 6 else 3
  }

  lemma StartsWith(b: byte, rest: Bytes)
    ensures var e := [b] + rest; |e| > 0 && e[0] == b && (b != COMMA && b != CLOSE_BRACKET && b != CLOSE_BRACE ==> !Follows(e))
  {
  }

  lemma NumberStarts(t: Number)
    ensures |t| > 0 && Kind(t[0]) == 3 && !Follows(t)
  {
  }

  lemma StringStarts(s: Bytes)
    ensures |EmitString(s)| > 0 && EmitString(s)[0] == QUOTE && !Follows(EmitString(s))
  {
    StartsWith(QUOTE, Escape(s) + [QUOTE]);
  }

  lemma ArrayStarts(items: seq<Json>)
    ensures var e := Emit(Array(items)); |e| > 0 && e[0] == OPEN_BRACKET && !Follows(e)
  {
    StartsWith(OPEN_BRACKET, EmitItems(items, true));
  }

  lemma ObjectStarts(members: map<Bytes, Json>)
    ensures var e := Emit(Object(members)); |e| > 0 && e[0] == OPEN_BRACE && !Follows(e)
  {
    StartsWith(OPEN_BRACE, EmitMembers(Object(members), Sorted(members.Keys), true));
  }

  lemma FirstByte(v: Json)
    ensures var e := Emit(v);
            && |e| > 0 && !Follows(e)
            && Kind(e[0]) == match v
                 case Null => 0
                 case Bool(b) => if b then 1 else 2
                 case Num(_) => 3
                 case String(_) => 4
                 case Array(_) => 5
                 case Object(_) => 6
  {
    match v
    case Null =>
    case Bool(_) =>
    case Num(t) => NumberStarts(t);
    case String(s) => StringStarts(s);
    case Array(items) => ArrayStarts(items);
    case Object(members) => ObjectStarts(members);
  }

  /** A canonical value is determined by any text it begins, as long as what
      comes after could come after a value. */
  lemma {:induction false} EmitSplit(v: Json, w: Json, x: Bytes, y: Bytes)
    requires Emit(v) + x == Emit(w) + y && Follows(x) && Follows(y)
    ensures v == w && x == y
    decreases v, 1, 0
  {
    FirstByte(v);
    FirstByte(w);
    assert (Emit(v) + x)[0] == Emit(v)[0] && (Emit(w) + y)[0] == Emit(w)[0];
    match v
    case Null => SplitConcat(NULL, NULL, x, y);
    case Bool(_) => SplitConcat(Emit(v), Emit(w), x, y);
    case Num(_) => NumberSplit(v.token, w.token, x, y);
    case String(_) => StringSplit(v.text, w.text, x, y);
    case Array(_) =>
      Assoc([OPEN_BRACKET], EmitItems(v.items, true), x);
      Assoc([OPEN_BRACKET], EmitItems(w.items, true), y);
      SplitConcat([OPEN_BRACKET], [OPEN_BRACKET], EmitItems(v.items, true) + x, EmitItems(w.items, true) + y);
      ItemsSplit(v.items, w.items, true, x, y);
    case Object(_) => ObjectSplit(v, w, x, y);
  }

  lemma ItemsFollow(items: seq<Json>, x: Bytes)
    ensures Follows(EmitItems(items, false) + x)
  {
  }

  lemma {:induction false} ItemsSplit(a: seq<Json>, b: seq<Json>, first: bool, x: Bytes, y: Bytes)
    requires EmitItems(a, first) + x == EmitItems(b, first) + y
    ensures a == b && x == y
    decreases a, 0, 0
  {
    EmptyTogether(a, b, first, x, y);
    if a == [] {
      SplitConcat([CLOSE_BRACKET], [CLOSE_BRACKET], x, y);
    } else {
      var p, q := EmitItems(a[1..], false), EmitItems(b[1..], false);
      Assoc(Separator(first), Emit(a[0]) + p, x);
      Assoc(Separator(first), Emit(b[0]) + q, y);
      SplitConcat(Separator(first), Separator(first), Emit(a[0]) + p + x, Emit(b[0]) + q + y);
      Assoc(Emit(a[0]), p, x);
      Assoc(Emit(b[0]), q, y);
      ItemsFollow(a[1..], x);
      ItemsFollow(b[1..], y);
      EmitSplit(a[0], b[0], p + x, q + y);
      ItemsSplit(a[1..], b[1..], false, x, y);
      assert a == [a[0]] + a[1..] && b == [b[0]] + b[1..];
    }
  }

  /** The first byte tells whether an array has more items. */
  lemma EmptyTogether(a: seq<Json>, b: seq<Json>, first: bool, x: Bytes, y: Bytes)
    requires EmitItems(a, first) + x == EmitItems(b, first) + y
    ensures a == [] <==> b == []
  {
    if a != [] { FirstByte(a[0]); }
    if b != [] { FirstByte(b[0]); }
    assert (EmitItems(a, first) + x)[0] == EmitItems(a, first)[0];
    assert (EmitItems(b, first) + y)[0] == EmitItems(b, first)[0];
  }

  lemma MembersFollow(v: Json, keys: seq<Bytes>, x: Bytes)
    requires v.Object? && forall k | k in keys :: k in v.members
    ensures Follows(EmitMembers(v, keys, false) + x)
  {
  }

  /** One member: its key, a colon, its value. */
  lemma MemberSplit(k: Bytes, l: Bytes, v: Json, w: Json, p: Bytes, q: Bytes, x: Bytes, y: Bytes)
    requires EmitString(k) + ([COLON] + (Emit(v) + p)) + x == EmitString(l) + ([COLON] + (Emit(w) + q)) + y
    ensures k == l && Emit(v) + (p + x) == Emit(w) + (q + y)
  {
    Assoc(EmitString(k), [COLON] + (Emit(v) + p), x);
    Assoc(EmitString(l), [COLON] + (Emit(w) + q), y);
    Assoc([COLON], Emit(v) + p, x);
    Assoc([COLON], Emit(w) + q, y);
    StringSplit(k, l, [COLON] + (Emit(v) + p + x), [COLON] + (Emit(w) + q + y));
    SplitConcat([COLON], [COLON], Emit(v) + p + x, Emit(w) + q + y);
    Assoc(Emit(v), p, x);
    Assoc(Emit(w), q, y);
  }

  lemma {:induction false} MembersSplit(v: Json, w: Json, ks: seq<Bytes>, ls: seq<Bytes>, first: bool, x: Bytes, y: Bytes)
    requires v.Object? && w.Object? && (forall k | k in ks :: k in v.members) && (forall k | k in ls :: k in w.members)
    requires EmitMembers(v, ks, first) + x == EmitMembers(w, ls, first) + y
    ensures ks == ls && x == y && forall k | k in ks :: v.members[k] == w.members[k]
    decreases v, 0, |ks|
  {
    assert (EmitMembers(v, ks, first) + x)[0] == EmitMembers(v, ks, first)[0];
    assert (EmitMembers(w, ls, first) + y)[0] == EmitMembers(w, ls, first)[0];
    assert ks == [] <==> ls == [];
    if ks == [] {
      SplitConcat([CLOSE_BRACE], [CLOSE_BRACE], x, y);
    } else {
      var p, q := EmitMembers(v, ks[1..], false), EmitMembers(w, ls[1..], false);
      var m, n := v.members[ks[0]], w.members[ls[0]];
      var a, b := EmitString(ks[0]) + ([COLON] + (Emit(m) + p)), EmitString(ls[0]) + ([COLON] + (Emit(n) + q));
      Assoc(Separator(first), a, x);
      Assoc(Separator(first), b, y);
      SplitConcat(Separator(first), Separator(first), a + x, b + y);
      MemberSplit(ks[0], ls[0], m, n, p, q, x, y);
      MembersFollow(v, ks[1..], x);
      MembersFollow(w, ls[1..], y);
      EmitSplit(m, n, p + x, q + y);
      MembersSplit(v, w, ks[1..], ls[1..], false, x, y);
      assert ks == [ks[0]] + ks[1..] && ls == [ls[0]] + ls[1..];
    }
  }

  /** For an object nothing need be said about what comes after: canonical
      objects are prefix-free. */
  lemma {:induction false} ObjectSplit(v: Json, w: Json, x: Bytes, y: Bytes)
    requires v.Object? && w.Object? && Emit(v) + x == Emit(w) + y
    ensures v == w && x == y
    decreases v, 0, |v.members| + 1
  {
    var ks, ls := Sorted(v.members.Keys), Sorted(w.members.Keys);
    Assoc([OPEN_BRACE], EmitMembers(v, ks, true), x);
    Assoc([OPEN_BRACE], EmitMembers(w, ls, true), y);
    SplitConcat([OPEN_BRACE], [OPEN_BRACE], EmitMembers(v, ks, true) + x, EmitMembers(w, ls, true) + y);
    MembersSplit(v, w, ks, ls, true, x, y);
    SameMembers(v.members, w.members, ks);
  }

  lemma SameMembers(m: map<Bytes, Json>, n: map<Bytes, Json>, ks: seq<Bytes>)
    requires forall k :: (k in m.Keys <==> k in ks) && (k in n.Keys <==> k in ks)
    requires forall k | k in ks :: m[k] == n[k]
    ensures m == n
  {
    assert m.Keys == n.Keys;
  }
}
