/** The canonical text of an object whose members are listed by name. */
module DocumentText {
  import opened Bytes
  import opened Json
  import opened JsonText

  /** A plain string stands for itself between its quotes. */
  predicate Plain(s: string) {
    forall c | c in s :: ' ' <= c <= '~' && c != '\"' && c != '\\'
  }

  predicate PlainBytes(s: Bytes) {
    forall i | 0 <= i < |s| :: 0x20 <= s[i] && s[i] != QUOTE && s[i] != BACKSLASH
  }

  lemma {:induction false} PlainEscape(s: Bytes)
    requires PlainBytes(s)
    ensures Escape(s) == s
  {
    if s != [] {
      PlainEscape(s[1..]);
      assert EscapeByte(s[0]) == [s[0]] && s == [s[0]] + s[1..];
    }
  }

  lemma PlainString(s: string)
    requires Plain(s)
    ensures EmitString(Ascii(s)) == Ascii("\"" + s + "\"")
  {
    assert forall i | 0 <= i < |s| :: s[i] in s;
    PlainEscape(Ascii(s));
    assert Ascii("\"") == [QUOTE];
    AsciiJoins("\"", s, "\"");
  }

  lemma PlainRanks(a: string)
    requires Plain(a)
    ensures |Ranks(Ascii(a))| == |a| && forall j | 0 <= j < |a| :: Ranks(Ascii(a))[j] == a[j] as int
  {
    forall j | 0 <= j < |a| ensures Ranks(Ascii(a))[j] == a[j] as int {
      assert a[j] in a && Ranks(Ascii(a))[j] == Rank(Ascii(a)[j]);
    }
  }

  /** Keys in ASCII are ordered as they first differ. */
  lemma AsciiBefore(a: string, b: string, i: nat)
    requires Plain(a) && Plain(b) && i <= |a| && i < |b| && (forall j | 0 <= j < i :: a[j] == b[j]) && (i == |a| || a[i] < b[i])
    ensures KeyBefore(Ascii(a), Ascii(b))
  {
    var r, s := Ranks(Ascii(a)), Ranks(Ascii(b));
    PlainRanks(a);
    PlainRanks(b);
    assert r[..i] == s[..i];
    if i < |a| {
      FirstDifference(r, s, i);
    } else {
      assert r == s[..i] + [] && s == s[..i] + s[i..];
      SameFront(s[..i], [], s[i..]);
    }
  }

  /** Keys each before the next are in order. */
  lemma {:induction false} NextByNext(keys: seq<Bytes>)
    requires forall i | 0 < i < |keys| :: KeyBefore(keys[i - 1], keys[i])
    ensures forall i, j | 0 <= i < j < |keys| :: KeyBefore(keys[i], keys[j])
  {
    if keys != [] {
      var n := |keys| - 1;
      NextByNext(keys[..n]);
      forall i, j | 0 <= i < j < |keys| ensures KeyBefore(keys[i], keys[j]) {
        if j < n {
          assert KeyBefore(keys[..n][i], keys[..n][j]);
        } else if i < n - 1 {
          assert KeyBefore(keys[..n][i], keys[..n][n - 1]);
          BeforeIsTransitive(Ranks(keys[i]), Ranks(keys[n - 1]), Ranks(keys[n]));
        }
      }
    }
  }

  /** One more member of a document: its name, its value and what is left. */
  function Member(sep: string, key: string, value: Bytes, rest: Bytes): Bytes {
    Ascii(sep) + (Ascii("\"" + key + "\":") + (value + rest))
  }

  lemma Name(key: string, more: Bytes)
    ensures Ascii("\"" + key + "\"") + ([COLON] + more) == Ascii("\"" + key + "\":") + more
  {
    assert Ascii("\"" + key + "\"") + [COLON] == Ascii("\"" + key + "\":");
    Assoc(Ascii("\"" + key + "\""), [COLON], more);
  }

  /** The rest of a document: names with the texts of their values, in the order
      they are listed. */
  function Document(ms: seq<(string, Bytes)>, first: bool): Bytes {
    if ms == [] then Ascii("}")
    else Member(if first then "" else ",", ms[0].0, ms[0].1, Document(ms[1..], false))
  }

  function KeysOf(ms: seq<(string, Bytes)>): (ks: seq<Bytes>)
    ensures |ks| == |ms|
  {
    seq(|ms|, i requires 0 <= i < |ms| => Ascii(ms[i].0))
  }

  /** The list has the members of the object. */
  ghost predicate Lists(ms: seq<(string, Bytes)>, v: Json) {
    v.Object? && forall i | 0 <= i < |ms| :: Plain(ms[i].0) && Ascii(ms[i].0) in v.members && ms[i].1 == Emit(v.members[Ascii(ms[i].0)])
  }

  lemma {:induction false} DocumentIs(v: Json, ms: seq<(string, Bytes)>, first: bool)
    requires Lists(ms, v)
    ensures forall k | k in KeysOf(ms) :: k in v.members
    ensures EmitMembers(v, KeysOf(ms), first) == Document(ms, first)
  {
    assert forall k | k in KeysOf(ms) :: k in v.members;
    if ms == [] {
      assert Ascii("}") == [CLOSE_BRACE];
    } else {
      DocumentIs(v, ms[1..], false);
      assert KeysOf(ms)[1..] == KeysOf(ms[1..]);
      PlainString(ms[0].0);
      Name(ms[0].0, ms[0].1 + Document(ms[1..], false));
      assert Ascii("") == [] && Ascii(",") == [COMMA];
    }
  }

  /** An object listed in the order of its keys. */
  lemma ObjectText(v: Json, ms: seq<(string, Bytes)>)
    requires Lists(ms, v) && forall k | k in v.members :: k in KeysOf(ms)
    requires forall i | 0 < i < |ms| :: KeyBefore(KeysOf(ms)[i - 1], KeysOf(ms)[i])
    ensures Emit(v) == Ascii("{") + Document(ms, true)
  {
    DocumentIs(v, ms, true);
    NextByNext(KeysOf(ms));
    SortedIs(v, KeysOf(ms));
  }

  lemma SortedIs(v: Json, keys: seq<Bytes>)
    requires v.Object? && forall k :: k in keys <==> k in v.members
    requires forall i, j | 0 <= i < j < |keys| :: KeyBefore(keys[i], keys[j])
    ensures Emit(v) == Ascii("{") + EmitMembers(v, keys, true)
  {
    OrderIsUnique(keys, Sorted(v.members.Keys));
    assert Ascii("{") == [OPEN_BRACE];
  }
}
