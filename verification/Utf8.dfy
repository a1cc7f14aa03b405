/** The test for UTF-8 accepts exactly the encodings of strings of Unicode scalar values (Unicode Standard, section 3.9). */
module Utf8 {
  import opened Arithmetic
  import opened Bytes
  import opened Newc

  /** A code point that is not a surrogate. */
  predicate Scalar(c: int) {
    0 <= c <= 0xD7FF || 0xE000 <= c <= 0x10FFFF
  }

  /** Its encoding: six bits a byte behind the first. */
  function Encoded(c: int): (s: seq<byte>)
    requires Scalar(c)
  {
    if c < 0x80 then [c]
    else if c < 0x800 then [0xC0 + c / 0x40, 0x80 + c % 0x40]
    else if c < 0x1_0000 then [0xE0 + c / 0x1000, 0x80 + c / 0x40 % 0x40, 0x80 + c % 0x40]
    else [0xF0 + c / 0x4_0000, 0x80 + c / 0x1000 % 0x40, 0x80 + c / 0x40 % 0x40, 0x80 + c % 0x40]
  }

  predicate Scalars(cs: seq<int>) {
    forall i :: 0 <= i < |cs| ==> Scalar(cs[i])
  }

  function EncodedAll(cs: seq<int>): seq<byte>
    requires Scalars(cs)
  {
    if cs == [] then [] else Encoded(cs[0]) + EncodedAll(cs[1..])
  }

  lemma EncodedThenValid(c: int, rest: seq<byte>)
    requires Scalar(c)
    ensures ValidUtf8(Encoded(c) + rest) <==> ValidUtf8(rest)
  {
    var s := Encoded(c) + rest;
    assert s[|Encoded(c)|..] == rest;
    assert forall i :: 0 <= i < |Encoded(c)| ==> s[i] == Encoded(c)[i];
  }

  lemma {:induction false} EncodedIsValid(cs: seq<int>)
    requires Scalars(cs)
    ensures ValidUtf8(EncodedAll(cs))
  {
    if cs != [] {
      hide ValidUtf8;
      EncodedIsValid(cs[1..]);
      EncodedThenValid(cs[0], EncodedAll(cs[1..]));
    } else {
      assert ValidUtf8([]);
    }
  }

  /** The first scalar value of a valid string. */
  lemma FirstScalar(s: seq<byte>) returns (c: int)
    requires s != [] && ValidUtf8(s)
    ensures Scalar(c) && Encoded(c) <= s
  {
    if s[0] < 0x80 {
      c := s[0];
    } else if s[0] < 0xE0 {
      c := Joined2(s[0], s[1]);
    } else if s[0] < 0xF0 {
      c := Joined3(s[0], s[1], s[2]);
    } else {
      c := Joined4(s[0], s[1], s[2], s[3]);
    }
  }

  lemma Joined2(a: byte, b: byte) returns (c: int)
    requires 0xC2 <= a <= 0xDF && Continuation(b)
    ensures Scalar(c) && Encoded(c) == [a, b]
  {
    c := (a as int - 0xC0) * 0x40 + (b as int - 0x80);
  }

  lemma Joined3(a: byte, b: byte, d: byte) returns (c: int)
    requires 0xE0 <= a <= 0xEF && Continuation(b) && Continuation(d)
    requires (a == 0xE0 ==> b >= 0xA0) && (a == 0xED ==> b <= 0x9F)
    ensures Scalar(c) && Encoded(c) == [a, b, d]
  {
    var t: nat, u: nat, v: nat := a as int - 0xE0, b as int - 0x80, d as int - 0x80;
    var x := 0x40 * t + u;
    c := 0x1000 * t + 0x40 * u + v;
    QuotientIs(x, 0x40, t, u);
    QuotientIs(c, 0x40, x, v);
    QuotientIs(c, 0x1000, t, 0x40 * u + v);
  }

  lemma Joined4(a: byte, b: byte, d: byte, e: byte) returns (c: int)
    requires 0xF0 <= a <= 0xF4 && Continuation(b) && Continuation(d) && Continuation(e)
    requires (a == 0xF0 ==> b >= 0x90) && (a == 0xF4 ==> b <= 0x8F)
    ensures Scalar(c) && Encoded(c) == [a, b, d, e]
  {
    var t: nat, u: nat, v: nat, w: nat := a as int - 0xF0, b as int - 0x80, d as int - 0x80, e as int - 0x80;
    var x, y := 0x40 * t + u, 0x1000 * t + 0x40 * u + v;
    c := 0x4_0000 * t + 0x1000 * u + 0x40 * v + w;
    QuotientIs(x, 0x40, t, u);
    QuotientIs(y, 0x40, x, v);
    QuotientIs(c, 0x40, y, w);
    QuotientIs(c, 0x1000, x, 0x40 * v + w);
    QuotientIs(c, 0x4_0000, t, 0x1000 * u + 0x40 * v + w);
    assert 0x1_0000 <= c <= 0x10FFFF;
    assert Encoded(c) == [0xF0 + t, 0x80 + u, 0x80 + v, 0x80 + w];
  }

  lemma {:induction false} ValidIsEncoded(s: seq<byte>) returns (cs: seq<int>)
    requires ValidUtf8(s)
    ensures Scalars(cs) && s == EncodedAll(cs)
  {
    if s == [] {
      cs := [];
    } else {
      hide ValidUtf8;
      var c := FirstScalar(s);
      var rest := s[|Encoded(c)|..];
      assert s == Encoded(c) + rest;
      EncodedThenValid(c, rest);
      var more := ValidIsEncoded(rest);
      cs := [c] + more;
      assert cs[1..] == more;
    }
  }

  /** A name decodes exactly when it is the encoding of some string. */
  lemma ValidUtf8Iff(s: seq<byte>)
    ensures ValidUtf8(s) <==> exists cs :: Scalars(cs) && s == EncodedAll(cs)
  {
    if ValidUtf8(s) {
      var cs := ValidIsEncoded(s);
    }
    if cs :| Scalars(cs) && s == EncodedAll(cs) {
      EncodedIsValid(cs);
    }
  }
}
