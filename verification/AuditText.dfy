/** What the UUIDs and timestamps of an audit row look like, told apart from the
    writer by readers, and the timestamps that the repository's tests pin. */
module AuditText {
  import opened Wrappers
  import opened Bytes
  import opened Json
  import opened AuditHash

  // ---- UUIDs (section 4 of RFC 9562).

  predicate LowerHex(b: byte) {
    '0' as int <= b as int <= '9' as int || 'a' as int <= b as int <= 'f' as int
  }

  function Nibble(b: byte): (n: int)
    requires LowerHex(b)
    ensures 0 <= n < 16
  {
    if b as int <= '9' as int then b as int - '0' as int else b as int - 'a' as int + 10
  }

  predicate HyphenAt(i: int) {
    i == 8 || i == 13 || i == 18 || i == 23
  }

  /** Where the two digits of byte `k` start: 8, 4, 4, 4 and 12 digits. */
  function DigitsAt(k: nat): (i: nat)
    requires k < 16
    ensures i < 35 && !HyphenAt(i) && !HyphenAt(i + 1)
  {
    2 * k + (if k < 4 then 0 else if k < 6 then 1 else if k < 8 then 2 else if k < 10 then 3 else 4)
  }

  predicate UuidShape(t: Bytes) {
    |t| == 36 && forall i | 0 <= i < 36 :: if HyphenAt(i) then t[i] == '-' as int else LowerHex(t[i])
  }

  /** Reads a UUID in lower case, with its hyphens; anything else is none. */
  function ReadUuid(t: Bytes): Option<Uuid> {
    if !UuidShape(t) then None
    else Some(seq(16, k requires 0 <= k < 16 => (Nibble(t[DigitsAt(k)]) * 16 + Nibble(t[DigitsAt(k) + 1])) as byte))
  }

  lemma {:induction false} HexAt(u: Bytes, k: nat)
    requires k < |u|
    ensures Hex(u)[2 * k] == HexDigit(u[k] / 16) && Hex(u)[2 * k + 1] == HexDigit(u[k] % 16)
  {
    if k > 0 { HexAt(u[1..], k - 1); }
  }

  lemma NibbleOfDigit(n: int, b: byte)
    requires 0 <= n < 16
    ensures LowerHex(b) && Nibble(b) == n <==> b == HexDigit(n)
  {
  }

  lemma UuidAt(u: Uuid, i: nat)
    requires i < 36
    ensures |UuidText(u)| == 36
    ensures UuidText(u)[i] == if HyphenAt(i) then 0x2D else
                              Hex(u)[if i < 8 then i else if i < 13 then i - 1 else if i < 18 then i - 2 else if i < 23 then i - 3 else i - 4]
  {
  }

  lemma UuidDigits(u: Uuid, k: nat)
    requires k < 16
    ensures |UuidText(u)| == 36
    ensures UuidText(u)[DigitsAt(k)] == HexDigit(u[k] / 16) && UuidText(u)[DigitsAt(k) + 1] == HexDigit(u[k] % 16)
  {
    UuidAt(u, DigitsAt(k));
    UuidAt(u, DigitsAt(k) + 1);
    HexAt(u, k);
  }

  /** Every place is a hyphen or a digit of some byte. */
  function ByteOf(i: nat): (k: nat)
    requires i < 36 && !HyphenAt(i)
    ensures k < 16 && (i == DigitsAt(k) || i == DigitsAt(k) + 1)
  {
    (if i < 8 then i else if i < 13 then i - 1 else if i < 18 then i - 2 else if i < 23 then i - 3 else i - 4) / 2
  }

  lemma UuidHasShape(u: Uuid)
    ensures UuidShape(UuidText(u))
  {
    UuidAt(u, 0);
    forall i | 0 <= i < 36 ensures if HyphenAt(i) then UuidText(u)[i] == '-' as int else LowerHex(UuidText(u)[i]) {
      if HyphenAt(i) {
        UuidAt(u, i);
      } else {
        UuidDigits(u, ByteOf(i));
        NibbleOfDigit(u[ByteOf(i)] / 16, HexDigit(u[ByteOf(i)] / 16));
        NibbleOfDigit(u[ByteOf(i)] % 16, HexDigit(u[ByteOf(i)] % 16));
      }
    }
  }

  /** The text of a UUID is the one text that reads as it. */
  lemma UuidTextIff(t: Bytes, u: Uuid)
    ensures t == UuidText(u) <==> ReadUuid(t) == Some(u)
  {
    UuidHasShape(u);
    if UuidShape(t) {
      forall k | 0 <= k < 16
        ensures Nibble(t[DigitsAt(k)]) * 16 + Nibble(t[DigitsAt(k) + 1]) == u[k] as int <==>
                t[DigitsAt(k)] == UuidText(u)[DigitsAt(k)] && t[DigitsAt(k) + 1] == UuidText(u)[DigitsAt(k) + 1]
      {
        UuidDigits(u, k);
        NibbleOfDigit(u[k] / 16, t[DigitsAt(k)]);
        NibbleOfDigit(u[k] % 16, t[DigitsAt(k) + 1]);
      }
      if t == UuidText(u) {
        assert ReadUuid(t).value == u;
      }
      if ReadUuid(t) == Some(u) {
        forall i | 0 <= i < 36 ensures t[i] == UuidText(u)[i] {
          if !HyphenAt(i) { assert ReadUuid(t).value[ByteOf(i)] == u[ByteOf(i)]; }
        }
      }
    }
  }

  // ---- Timestamps (section 5.6 of RFC 3339).

  predicate IsDigit(b: byte) { '0' as int <= b as int <= '9' as int }

  /** The number decimal digits stand for. */
  function Decimal(s: Bytes): int {
    if s == [] then 0 else Decimal(s[..|s| - 1]) * 10 + (s[|s| - 1] as int - '0' as int)
  }

  predicate AreDigits(s: Bytes) {
    forall b | b in s :: IsDigit(b)
  }

  /** `w` digits with this value: there is one such text. */
  lemma {:induction false} DigitsIff(s: Bytes, n: nat, w: nat)
    requires n < Pow10(w)
    ensures s == Digits(n, w) <==> |s| == w && AreDigits(s) && Decimal(s) == n
  {
    if w == 0 {
    } else if |s| == w {
      var front, last := s[..w - 1], s[w - 1];
      DigitsIff(front, n / 10, w - 1);
      assert s == front + [last];
      assert Digits(n, w)[..w - 1] == Digits(n / 10, w - 1);
      if AreDigits(s) {
        assert AreDigits(front) by { assert forall b | b in front :: b in s; }
        assert IsDigit(last);
      }
    }
  }

  /** Digits of a fraction of `w` places: no more than that, and no zero at the
      end. */
  predicate IsFraction(f: Bytes, n: nat, w: nat) {
    && |f| <= w && AreDigits(f) && (f != [] ==> f[|f| - 1] != '0' as int)
    && Decimal(f) * Pow10(w - |f|) == n
  }

  lemma TimesTen(d: int, k: nat)
    requires k > 0
    ensures d * Pow10(k) == 10 * (d * Pow10(k - 1)) && (d * Pow10(k)) % 10 == 0 && (d * Pow10(k)) / 10 == d * Pow10(k - 1)
  {
    TenTimes(d, Pow10(k - 1));
    TenthOf(d * Pow10(k - 1));
  }

  lemma TenTimes(d: int, p: int)
    ensures d * (10 * p) == 10 * (d * p)
  {
  }

  lemma TenthOf(x: int)
    ensures (10 * x) % 10 == 0 && (10 * x) / 10 == x
  {
  }

  /** A number that ends in zero has the fraction of the number without it. */
  lemma FractionOfTens(f: Bytes, n: nat, w: nat)
    requires w > 0 && n % 10 == 0
    ensures IsFraction(f, n, w) <==> IsFraction(f, n / 10, w - 1)
  {
    if |f| < w {
      TimesTen(Decimal(f), w - |f|);
    } else if |f| == w && AreDigits(f) {
      assert f[w - 1] in f;
    }
  }

  /** Any other takes all its places. */
  lemma FractionOfOthers(f: Bytes, n: nat, w: nat)
    requires w > 0 && n % 10 != 0
    ensures IsFraction(f, n, w) <==> |f| == w && AreDigits(f) && Decimal(f) == n
  {
    if |f| < w { TimesTen(Decimal(f), w - |f|); }
  }

  lemma {:induction false} FractionIff(f: Bytes, n: nat, w: nat)
    requires n < Pow10(w)
    ensures f == Fraction(n, w) <==> IsFraction(f, n, w)
  {
    if w == 0 {
    } else if n % 10 == 0 {
      FractionOfTens(f, n, w);
      FractionIff(f, n / 10, w - 1);
    } else {
      FractionOfOthers(f, n, w);
      DigitsIff(f, n, w);
    }
  }

  /** What a timestamp says down to the second, place by place. */
  predicate ReadsAsSeconds(s: Bytes, t: Utc)
    requires |s| == 19
  {
    && s[4] == s[7] == '-' as int && s[10] == 'T' as int && s[13] == s[16] == ':' as int
    && AreDigits(s[..4]) && Decimal(s[..4]) == t.year
    && AreDigits(s[5..7]) && Decimal(s[5..7]) == t.month
    && AreDigits(s[8..10]) && Decimal(s[8..10]) == t.day
    && AreDigits(s[11..13]) && Decimal(s[11..13]) == t.hour
    && AreDigits(s[14..16]) && Decimal(s[14..16]) == t.minute
    && AreDigits(s[17..]) && Decimal(s[17..]) == t.second
  }

  /** And what it says in full: the fraction is there only when it is not zero,
      and the offset is `Z`. */
  predicate ReadsAs(s: Bytes, t: Utc) {
    && |s| >= 20 && ReadsAsSeconds(s[..19], t) && s[|s| - 1] == 'Z' as int
    && if t.micro == 0 then |s| == 20
       else |s| > 20 && s[19] == '.' as int && IsFraction(s[20..|s| - 1], t.micro, 6)
  }

  lemma Field(a: Bytes, sep: string, rest: Bytes)
    requires |sep| == 1
    ensures var s := a + (Ascii(sep) + rest);
            |s| == |a| + 1 + |rest| && s[..|a|] == a && s[|a|] == AsciiByte(sep[0]) && s[|a| + 1..] == rest
  {
  }

  lemma SameParts(s: Bytes, u: Bytes)
    requires |s| == |u| == 19
    requires s[..4] == u[..4] && s[5..7] == u[5..7] && s[8..10] == u[8..10] && s[11..13] == u[11..13] && s[14..16] == u[14..16]
    requires s[17..] == u[17..] && s[4] == u[4] && s[7] == u[7] && s[10] == u[10] && s[13] == u[13] && s[16] == u[16]
    ensures s == u
  {
    assert s == s[..4] + [s[4]] + s[5..7] + [s[7]] + s[8..10] + [s[10]] + s[11..13] + [s[13]] + s[14..16] + [s[16]] + s[17..];
    assert u == u[..4] + [u[4]] + u[5..7] + [u[7]] + u[8..10] + [u[10]] + u[11..13] + [u[13]] + u[14..16] + [u[16]] + u[17..];
  }

  lemma SecondsPlaces(t: Utc)
    requires Pow10(2) == 100 && Pow10(4) == 10000
    ensures var u := Seconds(t);
            && u[..4] == Digits(t.year, 4) && u[5..7] == Digits(t.month, 2) && u[8..10] == Digits(t.day, 2)
            && u[11..13] == Digits(t.hour, 2) && u[14..16] == Digits(t.minute, 2) && u[17..] == Digits(t.second, 2)
            && u[4] == u[7] == 0x2D && u[10] == 0x54 && u[13] == u[16] == 0x3A
  {
    var f := Digits(t.second, 2);
    var e := Digits(t.minute, 2) + (Ascii(":") + f);
    var d := Digits(t.hour, 2) + (Ascii(":") + e);
    var c := Digits(t.day, 2) + (Ascii("T") + d);
    var b := Digits(t.month, 2) + (Ascii("-") + c);
    Field(Digits(t.year, 4), "-", b);
    Field(Digits(t.month, 2), "-", c);
    Field(Digits(t.day, 2), "T", d);
    Field(Digits(t.hour, 2), ":", e);
    Field(Digits(t.minute, 2), ":", f);
    Inside(Seconds(t), 5, b);
    Inside(Seconds(t), 8, c);
    Inside(Seconds(t), 11, d);
    Inside(Seconds(t), 14, e);
    Inside(Seconds(t), 17, f);
  }

  lemma Inside(s: Bytes, i: nat, r: Bytes)
    requires i <= |s|
    ensures s[i..] == r && |s| >= i + 3 ==> s[i..i + 2] == r[..2] && s[i + 2] == r[2] && s[i + 3..] == r[3..]
  {
    if s[i..] == r && |s| >= i + 3 { assert s[i + 2] == s[i..][2]; }
  }

  lemma SecondsIff(s: Bytes, t: Utc)
    requires |s| == 19
    ensures s == Seconds(t) <==> ReadsAsSeconds(s, t)
  {
    PowersOfTen();
    SecondsPlaces(t);
    DigitsIff(s[..4], t.year, 4);
    DigitsIff(s[5..7], t.month, 2);
    DigitsIff(s[8..10], t.day, 2);
    DigitsIff(s[11..13], t.hour, 2);
    DigitsIff(s[14..16], t.minute, 2);
    DigitsIff(s[17..], t.second, 2);
    if ReadsAsSeconds(s, t) { SameParts(s, Seconds(t)); }
  }

  lemma MicrosIff(s: Bytes, n: nat)
    requires n < Pow10(6)
    ensures s == Micros(n) <==> if n == 0 then s == [] else |s| > 0 && s[0] == '.' as int && IsFraction(s[1..], n, 6)
  {
    if n != 0 && s != [] {
      FractionIff(s[1..], n, 6);
      assert Ascii(".") == ['.' as int];
      assert s == [s[0]] + s[1..];
      assert Micros(n)[1..] == Fraction(n, 6);
    }
  }

  /** The text of a timestamp is the one text that reads as it. */
  lemma Rfc3339Iff(s: Bytes, t: Utc)
    ensures s == Rfc3339(t) <==> ReadsAs(s, t)
  {
    PowersOfTen();
    var m := Micros(t.micro);
    assert Ascii("Z") == ['Z' as int];
    if |s| >= 20 {
      SecondsIff(s[..19], t);
      MicrosIff(s[19..|s| - 1], t.micro);
      Ends(s, Seconds(t), m, 'Z' as int);
      if |s| > 20 { assert s[20..|s| - 1] == s[19..|s| - 1][1..]; }
    }
  }

  lemma Ends(s: Bytes, a: Bytes, m: Bytes, z: byte)
    requires |a| == 19 && |s| >= 20
    ensures s == a + (m + [z]) <==> s[..19] == a && s[19..|s| - 1] == m && s[|s| - 1] == z
  {
    assert s == s[..19] + (s[19..|s| - 1] + [s[|s| - 1]]);
  }

  lemma TwoDigits(n: nat)
    requires n < 100
    ensures Pow10(2) == 100 && Digits(n, 2) == [0x30 + n / 10, 0x30 + n % 10]
  {
    PowersOfTen();
    assert Digits(n / 10, 1) == [0x30 + n / 10];
  }

  /** The two timestamps the repository pins. */
  lemma PinnedTimestamps()
    ensures Rfc3339(DateTime(2023, 11, 14, 22, 13, 20, 0)) == Ascii("2023-11-14T22:13:20Z")
    ensures Rfc3339(DateTime(2023, 11, 14, 22, 13, 20, 123456)) == Ascii("2023-11-14T22:13:20.123456Z")
  {
    PinnedSeconds();
    PinnedMicros();
    assert Ascii("2023-11-14T22:13:20") + ([] + Ascii("Z")) == Ascii("2023-11-14T22:13:20Z");
    assert Ascii("2023-11-14T22:13:20") + (Ascii(".123456") + Ascii("Z")) == Ascii("2023-11-14T22:13:20.123456Z");
  }

  lemma PinnedSeconds()
    ensures forall m: nat | m < 1_000_000 :: Seconds(DateTime(2023, 11, 14, 22, 13, 20, m)) == Ascii("2023-11-14T22:13:20")
  {
    PinnedParts();
    AsciiJoins("13", ":", "20");
    AsciiJoins("22", ":", "13:20");
    AsciiJoins("14", "T", "22:13:20");
    AsciiJoins("11", "-", "14T22:13:20");
    AsciiJoins("2023", "-", "11-14T22:13:20");
    PinnedStrings();
  }

  lemma PinnedParts()
    ensures Pow10(2) == 100 && Pow10(4) == 10000
    ensures Digits(2023, 4) == Ascii("2023") && Digits(11, 2) == Ascii("11") && Digits(14, 2) == Ascii("14")
    ensures Digits(22, 2) == Ascii("22") && Digits(13, 2) == Ascii("13") && Digits(20, 2) == Ascii("20")
  {
    PowersOfTen();
    TwoDigits(20);
    assert Digits(202, 3) == [0x32, 0x30, 0x32];
    assert Digits(2023, 4) == [0x32, 0x30, 0x32, 0x33];
    TwoDigits(11);
    TwoDigits(14);
    TwoDigits(22);
    TwoDigits(13);
    TwoDigits(20);
  }

  lemma PinnedStrings()
    ensures "13" + ":" + "20" == "13:20" && "22" + ":" + "13:20" == "22:13:20" && "14" + "T" + "22:13:20" == "14T22:13:20"
    ensures "11" + "-" + "14T22:13:20" == "11-14T22:13:20" && "2023" + "-" + "11-14T22:13:20" == "2023-11-14T22:13:20"
  {
  }

  lemma PinnedMicros()
    ensures Pow10(6) == 1_000_000 && Micros(0) == [] && Micros(123456) == Ascii(".123456")
  {
    PowersOfTen();
    TwoDigits(12);
    assert Digits(123, 3) == [0x31, 0x32, 0x33];
    assert Digits(1234, 4) == [0x31, 0x32, 0x33, 0x34];
    assert Digits(12345, 5) == [0x31, 0x32, 0x33, 0x34, 0x35];
    assert Digits(123456, 6) == Ascii("123456");
    assert Ascii(".") + Ascii("123456") == Ascii(".123456");
  }
}
