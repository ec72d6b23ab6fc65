/** Link targets of the bundle are UTF-8: the validator's byte test against the encoding of Unicode scalar values. */
module Utf8 {
  import opened ByteStrings
  import opened Bundle

  /** A Unicode scalar value: up to U+10FFFF, without the surrogates. */
  predicate Scalar(c: nat) {
    c <= 0x10ffff && !(0xd800 <= c <= 0xdfff)
  }

  predicate Scalars(cs: seq<nat>) {
    forall i :: 0 <= i < |cs| ==> Scalar(cs[i])
  }

  /** The encoding of one scalar value, section 3 of RFC 3629: six bits to a continuation byte. */
  function Encoded(c: nat): (s: seq<Byte>)
    requires Scalar(c)
    ensures 1 <= |s| <= 4
  {
    if c < 0x80 then [c]
    else if c < 0x800 then [0xc0 + c / 64, 0x80 + c % 64]
    else if c < 0x1_0000 then [0xe0 + c / 4096, 0x80 + c / 64 % 64, 0x80 + c % 64]
    else [0xf0 + c / 262144, 0x80 + c / 4096 % 64, 0x80 + c / 64 % 64, 0x80 + c % 64]
  }

  function EncodedAll(cs: seq<nat>): seq<Byte>
    requires Scalars(cs)
  {
    if cs == [] then [] else Encoded(cs[0]) + EncodedAll(cs[1..])
  }

  lemma Shifts(c: nat)
    ensures c / 4096 * 64 + c / 64 % 64 == c / 64 && c / 262144 * 64 + c / 4096 % 64 == c / 4096
    ensures c / 64 * 64 + c % 64 == c
  {}

  /** An encoded scalar value passes, and leaves what follows it to be tested. */
  lemma EncodedPasses(c: nat, rest: seq<Byte>)
    requires Scalar(c)
    ensures ValidUtf8(Encoded(c) + rest) == ValidUtf8(rest)
  {
    var u := Encoded(c);
    var s := u + rest;
    Shifts(c);
    assert s[|u|..] == rest;
    assert forall i :: 0 <= i < |u| ==> s[i] == u[i];
  }

  /** Six-bit digits of a number put together from them. */
  lemma Sixes(a: nat, b: nat, c: nat, d: nat)
    requires b < 64 && c < 64 && d < 64
    ensures
      var n := ((a * 64 + b) * 64 + c) * 64 + d;
      n / 262144 == a && n / 4096 == a * 64 + b && n / 4096 % 64 == b && n / 64 % 64 == c && n % 64 == d
  {
    var n2 := a * 64 + b;
    var n1 := n2 * 64 + c;
    var n := n1 * 64 + d;
    assert n / 64 == n1 && n1 / 64 == n2 && n2 / 64 == a;
    assert n / 4096 == n2 && n / 262144 == a;
  }

  lemma FirstOfTwo(s: seq<Byte>) returns (c: nat)
    requires s != [] && ValidUtf8(s) && 0xc2 <= s[0] <= 0xdf
    ensures Scalar(c) && Encoded(c) <= s && ValidUtf8(s[|Encoded(c)|..])
  {
    var b0: nat, b1: nat := s[0], s[1];
    c := (b0 - 0xc0) * 64 + (b1 - 0x80);
    Sixes(0, 0, b0 - 0xc0, b1 - 0x80);
    assert 0x80 <= c < 0x800;
    assert Encoded(c) == s[..2];
  }

  lemma FirstOfThree(s: seq<Byte>) returns (c: nat)
    requires s != [] && ValidUtf8(s) && 0xe0 <= s[0] <= 0xef
    ensures Scalar(c) && Encoded(c) <= s && ValidUtf8(s[|Encoded(c)|..])
  {
    var b0: nat, b1: nat, b2: nat := s[0], s[1], s[2];
    c := ((b0 - 0xe0) * 64 + (b1 - 0x80)) * 64 + (b2 - 0x80);
    Sixes(0, b0 - 0xe0, b1 - 0x80, b2 - 0x80);
    assert 0x800 <= c < 0x1_0000;
    assert Encoded(c) == s[..3];
  }

  lemma FirstOfFour(s: seq<Byte>) returns (c: nat)
    requires s != [] && ValidUtf8(s) && 0xf0 <= s[0] <= 0xf4
    ensures Scalar(c) && Encoded(c) <= s && ValidUtf8(s[|Encoded(c)|..])
  {
    var b0: nat, b1: nat, b2: nat, b3: nat := s[0], s[1], s[2], s[3];
    c := (((b0 - 0xf0) * 64 + (b1 - 0x80)) * 64 + (b2 - 0x80)) * 64 + (b3 - 0x80);
    Sixes(b0 - 0xf0, b1 - 0x80, b2 - 0x80, b3 - 0x80);
    assert 0x1_0000 <= c <= 0x10ffff;
    assert Encoded(c) == s[..4];
  }

  /** What passes starts with an encoded scalar value. */
  lemma FirstScalar(s: seq<Byte>) returns (c: nat)
    requires s != [] && ValidUtf8(s)
    ensures Scalar(c) && Encoded(c) <= s && ValidUtf8(s[|Encoded(c)|..])
  {
    if s[0] < 0x80 {
      c := s[0];
    } else if s[0] < 0xe0 {
      c := FirstOfTwo(s);
    } else if s[0] < 0xf0 {
      c := FirstOfThree(s);
    } else {
      c := FirstOfFour(s);
    }
  }

  lemma {:induction false} Decoded(s: seq<Byte>) returns (cs: seq<nat>)
    requires ValidUtf8(s)
    ensures Scalars(cs) && EncodedAll(cs) == s
    decreases |s|
  {
    hide ValidUtf8, Encoded, Scalar;
    cs := [];
    if s != [] {
      var c := FirstScalar(s);
      var rest := Decoded(s[|Encoded(c)|..]);
      cs := [c] + rest;
      assert cs[1..] == rest;
    }
  }

  lemma {:induction false} EncodedAllPasses(cs: seq<nat>)
    requires Scalars(cs)
    ensures ValidUtf8(EncodedAll(cs))
  {
    if cs != [] {
      EncodedAllPasses(cs[1..]);
      EncodedPasses(cs[0], EncodedAll(cs[1..]));
      hide ValidUtf8, Encoded;
    }
  }

  /** A byte string passes the test exactly when it encodes some sequence of Unicode scalar values. */
  lemma Utf8Iff(s: seq<Byte>)
    ensures ValidUtf8(s) <==> exists cs :: Scalars(cs) && EncodedAll(cs) == s
  {
    if ValidUtf8(s) {
      var cs := Decoded(s);
    }
    if cs :| Scalars(cs) && EncodedAll(cs) == s {
      EncodedAllPasses(cs);
    }
  }
}
