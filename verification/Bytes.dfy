/** Bytes, machine integers and their big-endian encoding, and the text types
    the repository builds byte strings from. */
module Bytes {

  type byte = n: int | 0 <= n < 0x100
  type Bytes = seq<byte>

  const TWO_31 := 0x8000_0000
  const TWO_32 := 0x1_0000_0000

  type u32 = n: int | 0 <= n < TWO_32
  type i32 = n: int | -TWO_31 <= n < TWO_31

  /** The separator of associated data and of JSON members. */
  const COLON: byte := 0x3A

  /** A UUID is its 16 bytes. */
  type Uuid = u: Bytes | |u| == 16 witness seq(16, _ => 0)

  /** Rust's `v as i32` on a `u32`: the same 32 bits, read as two's complement. */
  function AsI32(v: u32): i32 {
    if v < TWO_31 then v else v - TWO_32
  }

  /** Rust's `n as u32` on an `i32`: the same 32 bits, read as unsigned. */
  function AsU32(n: i32): u32 {
    if n < 0 then n + TWO_32 else n
  }

  /** The two casts keep the 32 bits: they undo each other and agree modulo
      2^32, with the sign at the top bit. */
  lemma CastsLoseNothing(v: u32, n: i32)
    ensures AsU32(AsI32(v)) == v && AsI32(v) % 0x1_0000_0000 == v && (AsI32(v) < 0 <==> v >= 0x8000_0000)
    ensures AsI32(AsU32(n)) == n && n % 0x1_0000_0000 == AsU32(n)
    ensures AsU32(-1) == 0xFFFF_FFFF
  {
  }

  /** `u32::to_be_bytes`. */
  function ToBigEndian(v: u32): (bs: Bytes)
    ensures |bs| == 4
  {
    var hi, lo := v / 0x1_0000, v % 0x1_0000;
    [hi / 0x100, hi % 0x100, lo / 0x100, lo % 0x100]
  }

  /** `u32::from_be_bytes`. */
  function FromBigEndian(bs: Bytes): (v: u32)
    requires |bs| == 4
  {
    Pair(bs[0], bs[1]) * 0x1_0000 + Pair(bs[2], bs[3])
  }

  /** Two bytes as a 16-bit number. */
  function Pair(a: byte, b: byte): (n: int)
    ensures 0 <= n < 0x1_0000 && n / 0x100 == a && n % 0x100 == b
  {
    a * 0x100 + b
  }

  /** The number bytes stand for, the most significant first. */
  function Unsigned(bs: Bytes): nat {
    if bs == [] then 0 else Unsigned(bs[..|bs| - 1]) * 0x100 + bs[|bs| - 1] as int
  }

  lemma UnsignedOfFour(bs: Bytes)
    requires |bs| == 4
    ensures Unsigned(bs) == Pair(bs[0], bs[1]) * 0x1_0000 + Pair(bs[2], bs[3])
  {
    var one, two, three := [bs[0]], [bs[0], bs[1]], [bs[0], bs[1], bs[2]];
    assert bs[..3] == three && three[..2] == two && two[..1] == one && one[..0] == [];
    assert Unsigned(one) == bs[0] as int;
    assert Unsigned(two) == Pair(bs[0], bs[1]);
    assert Unsigned(three) == Pair(bs[0], bs[1]) * 0x100 + bs[2] as int;
  }

  /** Four bytes and their number, both ways. */
  lemma BigEndianValue(v: u32, bs: Bytes)
    ensures Unsigned(ToBigEndian(v)) == v && |ToBigEndian(v)| == 4
    ensures |bs| == 4 ==> FromBigEndian(bs) == Unsigned(bs)
  {
    var b := ToBigEndian(v);
    BigEndianRoundTrip(v);
    UnsignedOfFour(b);
    assert FromBigEndian(b) == Pair(b[0], b[1]) * 0x1_0000 + Pair(b[2], b[3]);
    if |bs| == 4 {
      UnsignedOfFour(bs);
      assert FromBigEndian(bs) == Pair(bs[0], bs[1]) * 0x1_0000 + Pair(bs[2], bs[3]);
    }
  }

  lemma BigEndianRoundTrip(v: u32)
    ensures FromBigEndian(ToBigEndian(v)) == v
  {
    var hi, lo := v / 0x1_0000, v % 0x1_0000;
    assert Pair(hi / 0x100, hi % 0x100) == hi && Pair(lo / 0x100, lo % 0x100) == lo;
  }

  lemma BigEndianRoundTripBack(bs: Bytes)
    requires |bs| == 4
    ensures ToBigEndian(FromBigEndian(bs)) == bs
  {
    var hi, lo := Pair(bs[0], bs[1]), Pair(bs[2], bs[3]);
    var v := FromBigEndian(bs);
    assert v / 0x1_0000 == hi && v % 0x1_0000 == lo;
  }

  lemma BigEndianInjective(v: u32, w: u32)
    requires ToBigEndian(v) == ToBigEndian(w)
    ensures v == w
  {
    BigEndianRoundTrip(v);
    BigEndianRoundTrip(w);
  }

  /** The bytes of an ASCII literal such as `b"dek-wrap:"`. */
  function Ascii(s: string): (bs: Bytes)
    ensures |bs| == |s|
  {
    seq(|s|, i requires 0 <= i < |s| => AsciiByte(s[i]))
  }

  function AsciiByte(c: char): byte {
    if c as int < 0x80 then c as int else 0x3F
  }

  lemma AsciiJoin(a: string, b: string)
    ensures Ascii(a) + Ascii(b) == Ascii(a + b)
  {
  }

  lemma AsciiJoins(a: string, sep: string, b: string)
    ensures Ascii(a) + (Ascii(sep) + Ascii(b)) == Ascii(a + sep + b)
  {
  }

  lemma Assoc<T>(a: seq<T>, b: seq<T>, c: seq<T>)
    ensures (a + b) + c == a + (b + c)
  {
  }

  /** Two concatenations with equally long fronts agree part by part. */
  lemma SplitConcat<T>(a: seq<T>, b: seq<T>, x: seq<T>, y: seq<T>)
    requires |a| == |b| && a + x == b + y
    ensures a == b && x == y
  {
    assert a == (a + x)[..|a|] && b == (b + y)[..|b|];
    assert x == (a + x)[|a|..] && y == (b + y)[|b|..];
  }

  /** Two concatenations with equally long backs agree part by part. */
  lemma SplitConcatBack<T>(a: seq<T>, b: seq<T>, x: seq<T>, y: seq<T>)
    requires |x| == |y| && a + x == b + y
    ensures a == b && x == y
  {
    assert |a + x| == |b + y|;
    SplitConcat(a, b, x, y);
  }

  // ---- Text: a Rust `str` is a byte sequence that is valid UTF-8 (RFC 3629).

  predicate Continuation(b: byte) { 0x80 <= b < 0xC0 }

  /** The length of the UTF-8 character `s` starts with, or 0 when `s` does
      not start with one (section 4 of RFC 3629). */
  function CharLength(s: Bytes): (n: nat)
    ensures n <= |s|
  {
    if |s| == 0 then 0
    else if s[0] < 0x80 then 1
    else if 0xC2 <= s[0] < 0xE0 && |s| >= 2 && Continuation(s[1]) then 2
    else if 0xE0 <= s[0] < 0xF0 && |s| >= 3 && Continuation(s[1]) && Continuation(s[2])
            && (s[0] == 0xE0 ==> s[1] >= 0xA0) && (s[0] == 0xED ==> s[1] < 0xA0) then 3
    else if 0xF0 <= s[0] < 0xF5 && |s| >= 4 && Continuation(s[1]) && Continuation(s[2]) && Continuation(s[3])
            && (s[0] == 0xF0 ==> s[1] >= 0x90) && (s[0] == 0xF4 ==> s[1] < 0x90) then 4
    else 0
  }

  /** Whether `String::from_utf8` accepts `s`. */
  predicate IsUtf8(s: Bytes) {
    s == [] || (var n := CharLength(s); n > 0 && IsUtf8(s[n..]))
  }

  /** `s.chars().count()`: every character has exactly one byte that is not a
      continuation byte. */
  function CharCount(s: Bytes): nat {
    if s == [] then 0 else (if Continuation(s[0]) then 0 else 1) + CharCount(s[1..])
  }
}
