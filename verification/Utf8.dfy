/** Well-formed UTF-8 byte strings (section 4 of RFC 3629), as utf8.ValidString decides them. */
module Utf8 {
  import opened Octets

  predicate Continues(s: seq<byte>, i: nat) { i < |s| && 0x80 <= s[i] <= 0xbf }

  /** The length of the character at the front of s, 0 if there is no well-formed one. */
  function CharLength(s: seq<byte>): (n: nat)
    ensures n <= |s|
  {
    if s == [] then 0
    else if s[0] <= 0x7f then 1
    else if 0xc2 <= s[0] <= 0xdf && Continues(s, 1) then 2
    else if 0xe0 <= s[0] <= 0xef && Continues(s, 1) && Continues(s, 2)
      && (s[0] == 0xe0 ==> s[1] >= 0xa0) && (s[0] == 0xed ==> s[1] <= 0x9f) then 3
    else if 0xf0 <= s[0] <= 0xf4 && Continues(s, 1) && Continues(s, 2) && Continues(s, 3)
      && (s[0] == 0xf0 ==> s[1] >= 0x90) && (s[0] == 0xf4 ==> s[1] <= 0x8f) then 4
    else 0
  }

  predicate ValidUtf8(s: seq<byte>) {
    s == [] || (CharLength(s) > 0 && ValidUtf8(s[CharLength(s)..]))
  }

  lemma {:induction false} AsciiIsValid(s: seq<byte>)
    requires forall i | 0 <= i < |s| :: s[i] <= 0x7f
    ensures ValidUtf8(s)
  {
    if s != [] { AsciiIsValid(s[1..]); }
  }

  // ---------- the same by code points ----------

  /** A code point that is not a surrogate. */
  predicate Scalar(c: nat) { c < 0xd800 || 0xe000 <= c < 0x11_0000 }

  function EncodeChar(c: nat): (b: seq<byte>)
    requires Scalar(c)
  {
    if c < 0x80 then [c]
    else if c < 0x800 then [0xc0 + c / 64, 0x80 + c % 64]
    else if c < 0x1_0000 then [0xe0 + c / 4096, 0x80 + c / 64 % 64, 0x80 + c % 64]
    else [0xf0 + c / 262144, 0x80 + c / 4096 % 64, 0x80 + c / 64 % 64, 0x80 + c % 64]
  }

  function EncodeText(cs: seq<nat>): seq<byte>
    requires forall i | 0 <= i < |cs| :: Scalar(cs[i])
  {
    if cs == [] then [] else EncodeChar(cs[0]) + EncodeText(cs[1..])
  }

  lemma CharOfEncoded(c: nat, t: seq<byte>)
    requires Scalar(c)
    ensures CharLength(EncodeChar(c) + t) == |EncodeChar(c)| > 0
  {
    if 0x800 <= c < 0x1_0000 {
      TripleOfEncoded(c, t);
    } else if 0x1_0000 <= c {
      QuadrupleOfEncoded(c, t);
    }
  }

  lemma TripleOfEncoded(c: nat, t: seq<byte>)
    requires Scalar(c) && 0x800 <= c < 0x1_0000
    ensures CharLength(EncodeChar(c) + t) == |EncodeChar(c)| == 3
  {
    var h, m := c / 4096, c / 64 % 64;
    assert c / 64 == 64 * h + m && c == 64 * (c / 64) + c % 64;
    var s := EncodeChar(c) + t;
    assert s[0] == 0xe0 + h && s[1] == 0x80 + m && s[2] == 0x80 + c % 64;
    hide EncodeChar;
  }

  lemma QuadrupleOfEncoded(c: nat, t: seq<byte>)
    requires Scalar(c) && 0x1_0000 <= c
    ensures CharLength(EncodeChar(c) + t) == |EncodeChar(c)| == 4
  {
    var h, m := c / 262144, c / 4096 % 64;
    assert c / 4096 == 64 * h + m && c == 4096 * (c / 4096) + c % 4096;
    var s := EncodeChar(c) + t;
    assert s[0] == 0xf0 + h && s[1] == 0x80 + m && s[2] == 0x80 + c / 64 % 64 && s[3] == 0x80 + c % 64;
    hide EncodeChar;
  }

  function DecodeChar(s: seq<byte>): nat
    requires CharLength(s) > 0
  {
    var n := CharLength(s);
    if n == 1 then s[0]
    else if n == 2 then 64 * Bits(s[0], 0xc0) + Bits(s[1], 0x80)
    else if n == 3 then 4096 * Bits(s[0], 0xe0) + 64 * Bits(s[1], 0x80) + Bits(s[2], 0x80)
    else 262144 * Bits(s[0], 0xf0) + 4096 * Bits(s[1], 0x80) + 64 * Bits(s[2], 0x80) + Bits(s[3], 0x80)
  }

  /** What a byte adds to its mark. */
  function Bits(b: byte, mark: byte): nat
    requires b >= mark
  {
    b - mark
  }

  lemma BaseSixtyFour(h: nat, l: nat)
    requires l < 64
    ensures (64 * h + l) / 64 == h && (64 * h + l) % 64 == l
  {
  }

  lemma DigitsOfChar(a: nat, b: nat, c: nat, d: nat)
    requires b < 64 && c < 64 && d < 64
    ensures var n := 262144 * a + 4096 * b + 64 * c + d;
      n / 262144 == a && n / 4096 % 64 == b && n / 64 % 64 == c && n % 64 == d && n / 4096 == 64 * a + b
  {
    var n := 262144 * a + 4096 * b + 64 * c + d;
    DivisionIsUnique(n, 262144, a, 4096 * b + 64 * c + d);
    DivisionIsUnique(n, 4096, 64 * a + b, 64 * c + d);
    DivisionIsUnique(n, 64, 4096 * a + 64 * b + c, d);
    BaseSixtyFour(a, b);
    BaseSixtyFour(64 * a + b, c);
  }

  lemma EncodedChar(s: seq<byte>)
    requires CharLength(s) > 0
    ensures Scalar(DecodeChar(s)) && EncodeChar(DecodeChar(s)) == s[..CharLength(s)]
  {
    var n := CharLength(s);
    if n == 2 {
      EncodedPair(Bits(s[0], 0xc0), Bits(s[1], 0x80));
      assert s[..2] == [s[0], s[1]];
    } else if n == 3 {
      EncodedTriple(Bits(s[0], 0xe0), Bits(s[1], 0x80), Bits(s[2], 0x80));
      assert s[..3] == [s[0], s[1], s[2]];
    } else if n == 4 {
      EncodedQuadruple(Bits(s[0], 0xf0), Bits(s[1], 0x80), Bits(s[2], 0x80), Bits(s[3], 0x80));
      assert s[..4] == [s[0], s[1], s[2], s[3]];
    }
    hide EncodeChar;
  }

  lemma EncodedPair(c: nat, d: nat)
    requires 2 <= c < 32 && d < 64
    ensures EncodeChar(64 * c + d) == [0xc0 + c, 0x80 + d]
  {
    DigitsOfChar(0, 0, c, d);
  }

  lemma EncodedTriple(b: nat, c: nat, d: nat)
    requires b < 16 && c < 64 && d < 64 && (b == 0 ==> c >= 32) && (b == 13 ==> c < 32)
    ensures Scalar(4096 * b + 64 * c + d)
    ensures EncodeChar(4096 * b + 64 * c + d) == [0xe0 + b, 0x80 + c, 0x80 + d]
  {
    DigitsOfChar(0, b, c, d);
  }

  lemma EncodedQuadruple(a: nat, b: nat, c: nat, d: nat)
    requires a <= 4 && b < 64 && c < 64 && d < 64 && (a == 0 ==> b >= 16) && (a == 4 ==> b < 16)
    ensures Scalar(262144 * a + 4096 * b + 64 * c + d)
    ensures EncodeChar(262144 * a + 4096 * b + 64 * c + d) == [0xf0 + a, 0x80 + b, 0x80 + c, 0x80 + d]
  {
    DigitsOfChar(a, b, c, d);
  }

  lemma {:induction false} EncodedIsValid(cs: seq<nat>)
    requires forall i | 0 <= i < |cs| :: Scalar(cs[i])
    ensures ValidUtf8(EncodeText(cs))
  {
    if cs != [] {
      var rest := EncodeText(cs[1..]);
      CharOfEncoded(cs[0], rest);
      EncodedIsValid(cs[1..]);
      assert EncodeText(cs)[|EncodeChar(cs[0])|..] == rest;
    }
  }

  lemma {:induction false} ValidIsEncoded(s: seq<byte>) returns (cs: seq<nat>)
    requires ValidUtf8(s)
    ensures (forall i | 0 <= i < |cs| :: Scalar(cs[i])) && EncodeText(cs) == s
  {
    if s == [] {
      cs := [];
    } else {
      var n := CharLength(s);
      EncodedChar(s);
      var more := ValidIsEncoded(s[n..]);
      cs := [DecodeChar(s)] + more;
      assert cs[1..] == more && s == s[..n] + s[n..];
    }
  }

  /** Valid exactly if it is the encoding of some code points, none of them a surrogate. */
  lemma ValidExactly(s: seq<byte>)
    ensures ValidUtf8(s) <==>
      exists cs: seq<nat> :: (forall i | 0 <= i < |cs| :: Scalar(cs[i])) && EncodeText(cs) == s
  {
    hide CharLength, EncodeChar;
    if ValidUtf8(s) {
      var cs := ValidIsEncoded(s);
    }
    forall cs: seq<nat> | (forall i | 0 <= i < |cs| :: Scalar(cs[i])) && EncodeText(cs) == s ensures ValidUtf8(s) {
      EncodedIsValid(cs);
    }
  }
}
