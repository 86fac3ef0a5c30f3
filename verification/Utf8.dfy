/** UTF-8 from the characters' side (RFC 3629): which byte strings are text, and
    how many characters they have. */
module Utf8 {
  import opened Bytes

  /** A Unicode scalar value: what a Rust `char` holds. */
  type Scalar = c: int | 0 <= c < 0x11_0000 && !(0xD800 <= c < 0xE000) witness 0

  /** Section 3 of RFC 3629. */
  function Encode(c: Scalar): (s: Bytes)
    ensures 1 <= |s| <= 4
  {
    if c < 0x80 then [c]
    else if c < 0x800 then [0xC0 + c / 0x40, 0x80 + c % 0x40]
    else if c < 0x1_0000 then [0xE0 + c / 0x1000, 0x80 + c / 0x40 % 0x40, 0x80 + c % 0x40]
    else [0xF0 + c / 0x4_0000, 0x80 + c / 0x1000 % 0x40, 0x80 + c / 0x40 % 0x40, 0x80 + c % 0x40]
  }

  function EncodeAll(cs: seq<Scalar>): Bytes {
    if cs == [] then [] else Encode(cs[0]) + EncodeAll(cs[1..])
  }

  lemma EncodeCons(c: Scalar, cs: seq<Scalar>)
    ensures EncodeAll([c] + cs) == Encode(c) + EncodeAll(cs)
  {
    assert ([c] + cs)[1..] == cs;
  }

  /** The number the first character's bytes stand for. */
  function Decode(s: Bytes): (c: Scalar)
    requires CharLength(s) > 0
  {
    match CharLength(s)
    case 1 => s[0] as int
    case 2 => (s[0] as int - 0xC0) * 0x40 + (s[1] as int - 0x80)
    case 3 => (s[0] as int - 0xE0) * 0x1000 + (s[1] as int - 0x80) * 0x40 + (s[2] as int - 0x80)
    case _ => (s[0] as int - 0xF0) * 0x4_0000 + (s[1] as int - 0x80) * 0x1000 + (s[2] as int - 0x80) * 0x40 + (s[3] as int - 0x80)
  }

  lemma DecodeThree(s: Bytes)
    requires CharLength(s) == 3
    ensures Encode(Decode(s)) == [s[0], s[1], s[2]]
  {
    var a, b := s[0] as int - 0xE0, s[1] as int - 0x80;
    assert Decode(s) / 0x40 == a * 0x40 + b && Decode(s) / 0x1000 == a;
  }

  lemma DecodeFour(s: Bytes)
    requires CharLength(s) == 4
    ensures Encode(Decode(s)) == [s[0], s[1], s[2], s[3]]
  {
    var a, b, d := s[0] as int - 0xF0, s[1] as int - 0x80, s[2] as int - 0x80;
    assert Decode(s) / 0x40 == a * 0x1000 + b * 0x40 + d && Decode(s) / 0x1000 == a * 0x40 + b;
  }

  /** A first character is the encoding of a scalar value. */
  lemma DecodeEncodes(s: Bytes) returns (c: Scalar)
    requires CharLength(s) > 0
    ensures Encode(c) == s[..CharLength(s)]
  {
    c := Decode(s);
    var n := CharLength(s);
    if n == 3 {
      DecodeThree(s);
      assert s[..3] == [s[0], s[1], s[2]];
    } else if n == 4 {
      DecodeFour(s);
      assert s[..4] == [s[0], s[1], s[2], s[3]];
    } else {
      assert s[..n] == if n == 1 then [s[0]] else [s[0], s[1]];
    }
  }

  /** And every encoding is a first character, whatever follows. */
  lemma EncodeIsChar(c: Scalar, x: Bytes)
    ensures CharLength(Encode(c) + x) == |Encode(c)|
  {
    var e := Encode(c);
    assert forall i | 0 <= i < |e| :: (e + x)[i] == e[i];
  }

  /** `String::from_utf8` accepts exactly the encodings of character sequences. */
  lemma {:induction false} Utf8Reads(s: Bytes) returns (cs: seq<Scalar>)
    requires IsUtf8(s)
    ensures EncodeAll(cs) == s
  {
    cs := [];
    if s != [] {
      var c := DecodeEncodes(s);
      var rest := Utf8Reads(s[CharLength(s)..]);
      EncodeCons(c, rest);
      cs := [c] + rest;
    }
  }

  lemma {:induction false} Utf8Iff(s: Bytes)
    ensures IsUtf8(s) <==> exists cs: seq<Scalar> :: EncodeAll(cs) == s
  {
    if IsUtf8(s) { var cs := Utf8Reads(s); }
    if cs: seq<Scalar> :| EncodeAll(cs) == s { EncodedIsUtf8(cs); }
  }

  lemma {:induction false} EncodedIsUtf8(cs: seq<Scalar>)
    ensures IsUtf8(EncodeAll(cs))
  {
    if cs != [] {
      var e, rest := Encode(cs[0]), EncodeAll(cs[1..]);
      EncodeIsChar(cs[0], rest);
      EncodedIsUtf8(cs[1..]);
      assert (e + rest)[|e|..] == rest;
    }
  }

  /** `chars().count()` counts characters. */
  lemma {:induction false} CharCountCounts(cs: seq<Scalar>)
    ensures CharCount(EncodeAll(cs)) == |cs|
  {
    if cs != [] {
      CharCountCounts(cs[1..]);
      CountFirst(cs[0], EncodeAll(cs[1..]));
    }
  }

  lemma CountFirst(c: Scalar, x: Bytes)
    ensures CharCount(Encode(c) + x) == 1 + CharCount(x)
  {
    var e := Encode(c);
    assert e == [e[0]] + e[1..] && !Continuation(e[0]);
    CountRest(e, x);
    CountTail(e[1..], x);
  }

  lemma CountRest(e: Bytes, x: Bytes)
    requires e != [] && !Continuation(e[0])
    ensures CharCount(e + x) == 1 + CharCount(e[1..] + x)
  {
    assert (e + x)[1..] == e[1..] + x;
  }

  lemma {:induction false} CountTail(e: Bytes, x: Bytes)
    requires forall b | b in e :: Continuation(b)
    ensures CharCount(e + x) == CharCount(x)
  {
    if e == [] {
      assert e + x == x;
    } else {
      assert (e + x)[1..] == e[1..] + x && e[0] in e;
      CountTail(e[1..], x);
    }
  }
}
