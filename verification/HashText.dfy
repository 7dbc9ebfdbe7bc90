/** The text form of hashes: the hexadecimal string of the bytes in reverse, so that the text read
  * as a number is the array read little end first. One account for the sizes 20, 32 and 64. */
module HashText {
  import opened Octets

  /** ErrHashStrSize, or hex.InvalidByteError. */
  datatype TextError = TooLong | InvalidByte(b: byte)

  datatype Parsed = Hash(bytes: seq<byte>) | Invalid(error: TextError)

  // ---------- hexadecimal (section 8 of RFC 4648) ----------

  predicate IsHex(c: byte) { 48 <= c <= 57 || 65 <= c <= 70 || 97 <= c <= 102 }

  predicate AllHex(s: seq<byte>) { forall i | 0 <= i < |s| :: IsHex(s[i]) }

  function Digit(c: byte): (d: nat)
    ensures d < 16
  {
    if 48 <= c <= 57 then c - 48 else if 65 <= c <= 70 then c - 55 else if 97 <= c <= 102 then c - 87 else 0
  }

  function DigitChar(d: nat): (c: byte)
    requires d < 16
    ensures IsHex(c) && Digit(c) == d
  {
    if d < 10 then 48 + d else 87 + d
  }

  function Lower(c: byte): byte { if 65 <= c <= 90 then c + 32 else c }

  function AllLower(s: seq<byte>): (t: seq<byte>)
    ensures |t| == |s|
  {
    seq(|s|, i requires 0 <= i < |s| => Lower(s[i]))
  }

  /** hex.EncodeToString. */
  function Hex(b: seq<byte>): (s: seq<byte>)
    ensures |s| == 2 * |b|
  {
    if b == [] then []
    else
      var last := b[|b| - 1];
      Hex(b[..|b| - 1]) + [DigitChar(last / 16), DigitChar(last % 16)]
  }

  /** The bytes an even number of hex digits stands for. */
  function UnHex(s: seq<byte>): (b: seq<byte>)
    ensures 2 * |b| <= |s| <= 2 * |b| + 1
  {
    if |s| < 2 then [] else UnHex(s[..|s| - 2]) + [16 * Digit(s[|s| - 2]) + Digit(s[|s| - 1])]
  }

  function FirstInvalid(s: seq<byte>): byte
    requires !AllHex(s)
  {
    if IsHex(s[0]) then FirstInvalid(s[1..]) else s[0]
  }

  /** The number a hex text denotes. */
  function HexNumber(s: seq<byte>): nat {
    if s == [] then 0 else 16 * HexNumber(s[..|s| - 1]) + Digit(s[|s| - 1])
  }

  // ---------- the text form ----------

  function Reversed(s: seq<byte>): (r: seq<byte>)
    ensures |r| == |s|
  {
    seq(|s|, i requires 0 <= i < |s| => s[|s| - 1 - i])
  }

  function LittleEndian(b: seq<byte>): nat { BigEndian(Reversed(b)) }

  function Even(s: seq<byte>): (t: seq<byte>)
    ensures |t| % 2 == 0
  {
    if |s| % 2 == 0 then s else [48] + s
  }

  /** String: the hex text of the reversed bytes. */
  function TextOf(hash: seq<byte>): seq<byte> { Hex(Reversed(hash)) }

  /** NewShaHashFromStr and its siblings for size n: what a text means, whatever loop computes it. */
  function ParseText(n: nat, s: seq<byte>): Parsed {
    if |s| > 2 * n then Invalid(TooLong)
    else if !AllHex(s) then Invalid(InvalidByte(FirstInvalid(s)))
    else
      var buf := UnHex(Even(s));
      Hash(Reversed(buf) + Zeros(n - |buf|))
  }

  /** A text in lower case, left-padded with zeros to 2n characters. */
  function Normal(n: nat, s: seq<byte>): seq<byte>
    requires |s| <= 2 * n
  {
    seq(2 * n - |s|, _ => 48) + AllLower(s)
  }

  // ---------- laws ----------

  lemma ReversedTwice(s: seq<byte>)
    ensures Reversed(Reversed(s)) == s
  {
  }

  lemma ReversedPadded(s: seq<byte>, k: nat)
    ensures Reversed(Reversed(s) + Zeros(k)) == Zeros(k) + s
  {
    var r := Reversed(s) + Zeros(k);
    forall i | 0 <= i < |r| ensures Reversed(r)[i] == (Zeros(k) + s)[i] {
    }
  }

  lemma HexNext(b: seq<byte>, x: byte)
    ensures Hex(b + [x]) == Hex(b) + [DigitChar(x / 16), DigitChar(x % 16)]
  {
    hide DigitChar;
    assert (b + [x])[..|b|] == b;
  }

  lemma UnHexNext(s: seq<byte>, p: byte, q: byte)
    ensures UnHex(s + [p, q]) == UnHex(s) + [16 * Digit(p) + Digit(q)]
  {
    hide Digit;
    assert (s + [p, q])[..|s|] == s;
  }

  lemma {:induction false} UnHexOfHex(b: seq<byte>)
    ensures AllHex(Hex(b)) && UnHex(Hex(b)) == b
  {
    if b != [] {
      hide Digit, DigitChar, IsHex, UnHex, Hex;
      var init, last := b[..|b| - 1], b[|b| - 1];
      UnHexOfHex(init);
      var p, q := DigitChar(last / 16), DigitChar(last % 16);
      assert b == init + [last];
      HexNext(init, last);
      UnHexNext(Hex(init), p, q);
      assert 16 * (last / 16) + last % 16 == last;
    } else {
      assert Hex(b) == [];
    }
  }

  lemma HexOfDigits(b: seq<byte>, p: byte, q: byte)
    requires IsHex(p) && IsHex(q)
    ensures Hex(b + [16 * Digit(p) + Digit(q)]) == Hex(b) + [Lower(p), Lower(q)]
  {
    LowerOfDigit(p);
    LowerOfDigit(q);
    PairOfDigits(Digit(p), Digit(q));
    hide Lower, Digit, DigitChar, IsHex, Hex;
    HexNext(b, 16 * Digit(p) + Digit(q));
  }

  lemma {:induction false} HexOfUnHex(s: seq<byte>)
    requires |s| == 2 * |UnHex(s)| && AllHex(s)
    ensures Hex(UnHex(s)) == AllLower(s)
  {
    if s == [] {
      assert Hex([]) == [];
    } else {
      hide Lower, Digit, IsHex, Hex, UnHex, AllLower;
      var init, p, q := s[..|s| - 2], s[|s| - 2], s[|s| - 1];
      assert s == init + [p, q];
      UnHexNext(init, p, q);
      HexOfUnHex(init);
      HexOfDigits(UnHex(init), p, q);
      AllLowerAppend(init, [p, q]);
      LowerOfPair(p, q);
    }
  }

  lemma LowerOfPair(p: byte, q: byte)
    ensures AllLower([p, q]) == [Lower(p), Lower(q)]
  {
  }

  lemma PairOfDigits(p: nat, q: nat)
    requires p < 16 && q < 16
    ensures (16 * p + q) / 16 == p && (16 * p + q) % 16 == q
  {
  }

  lemma AllLowerAppend(s: seq<byte>, t: seq<byte>)
    ensures AllLower(s + t) == AllLower(s) + AllLower(t)
  {
  }

  lemma LowerOfDigit(c: byte)
    requires IsHex(c)
    ensures DigitChar(Digit(c)) == Lower(c)
  {
  }

  lemma {:induction false} HexOfZeros(k: nat, b: seq<byte>)
    ensures Hex(Zeros(k) + b) == seq(2 * k, _ => 48) + Hex(b)
    decreases |b|, k
  {
    var all := Zeros(k) + b;
    if b != [] {
      var init := b[..|b| - 1];
      assert all[..|all| - 1] == Zeros(k) + init;
      HexOfZeros(k, init);
    } else if k > 0 {
      assert all[..|all| - 1] == Zeros(k - 1) + [];
      HexOfZeros(k - 1, []);
    }
  }

  lemma {:induction false} LeadingZeros(k: nat, b: seq<byte>)
    ensures BigEndian(Zeros(k) + b) == BigEndian(b)
    decreases |b|, k
  {
    var all := Zeros(k) + b;
    if b != [] {
      assert all[..|all| - 1] == Zeros(k) + b[..|b| - 1];
      LeadingZeros(k, b[..|b| - 1]);
    } else if k > 0 {
      assert all[..|all| - 1] == Zeros(k - 1) + [];
      LeadingZeros(k - 1, []);
    }
  }

  lemma {:induction false} LeadingZeroDigit(s: seq<byte>)
    ensures HexNumber([48] + s) == HexNumber(s)
  {
    if s != [] {
      assert ([48] + s)[..|s|] == [48] + s[..|s| - 1];
      LeadingZeroDigit(s[..|s| - 1]);
    } else {
      assert [48] + s == [48] && [48][..0] == [];
    }
  }

  lemma {:induction false} UnHexValue(s: seq<byte>)
    requires |s| == 2 * |UnHex(s)|
    ensures BigEndian(UnHex(s)) == HexNumber(s)
  {
    if s != [] {
      hide Digit;
      var init, b := s[..|s| - 2], UnHex(s);
      UnHexValue(init);
      assert b[..|b| - 1] == UnHex(init);
      assert s[..|s| - 1][..|s| - 2] == init;
    }
  }

  predicate HexCharacter(c: byte) {
    || ('0' as int <= c <= '9' as int)
    || ('a' as int <= c <= 'f' as int)
    || ('A' as int <= c <= 'F' as int)
  }

  /** A text is accepted exactly when it has at most 2n characters, all of them digits or letters from
    * a to f in either case. Otherwise it is too long, or its first other character is reported. */
  lemma AcceptedTexts(n: nat, s: seq<byte>)
    ensures ParseText(n, s).Hash? <==> |s| <= 2 * n && forall i | 0 <= i < |s| ::
      '0' as int <= s[i] <= '9' as int || 'a' as int <= s[i] <= 'f' as int || 'A' as int <= s[i] <= 'F' as int
    ensures ParseText(n, s).Hash? ==> |ParseText(n, s).bytes| == n
    ensures |s| > 2 * n ==> ParseText(n, s) == Invalid(TooLong)
    ensures forall i | 0 <= i < |s| && !HexCharacter(s[i]) && (forall j | 0 <= j < i :: HexCharacter(s[j])) ::
              |s| <= 2 * n ==> ParseText(n, s) == Invalid(InvalidByte(s[i]))
  {
    assert forall c: byte :: IsHex(c) <==> HexCharacter(c);
    forall i | 0 <= i < |s| && !HexCharacter(s[i]) && (forall j | 0 <= j < i :: HexCharacter(s[j]))
      ensures |s| <= 2 * n ==> ParseText(n, s) == Invalid(InvalidByte(s[i]))
    {
      FirstInvalidAt(s, i);
    }
  }

  /** What a hexadecimal digit stands for, and which one stands for a number. */
  lemma DigitValues(d: nat)
    ensures d < 10 ==> Digit('0' as int + d) == d && DigitChar(d) == '0' as int + d
    ensures d < 6 ==> Digit('a' as int + d) == Digit('A' as int + d) == 10 + d && DigitChar(10 + d) == 'a' as int + d
  {
  }

  /** The first digit of a hexadecimal number is the most significant. */
  lemma {:induction false} FirstDigitIsHighest(c: byte, s: seq<byte>)
    ensures HexNumber([]) == 0 && HexNumber([c] + s) == Digit(c) * Pow16(|s|) + HexNumber(s)
  {
    hide Digit;
    var all := [c] + s;
    if s == [] {
      assert all[..0] == [];
    } else {
      var init := s[..|s| - 1];
      assert all[..|all| - 1] == [c] + init;
      FirstDigitIsHighest(c, init);
      assert 16 * (Digit(c) * Pow16(|init|)) == Digit(c) * Pow16(|s|);
    }
  }

  function Pow16(k: nat): nat { if k == 0 then 1 else 16 * Pow16(k - 1) }

  /** The value of a text, odd lengths included: the array, little end first, is the hex number. */
  lemma TextValue(n: nat, s: seq<byte>)
    requires |s| <= 2 * n && forall i | 0 <= i < |s| ::
      '0' as int <= s[i] <= '9' as int || 'a' as int <= s[i] <= 'f' as int || 'A' as int <= s[i] <= 'F' as int
    ensures ParseText(n, s).Hash? && LittleEndian(ParseText(n, s).bytes) == HexNumber(s)
  {
    AcceptedTexts(n, s);
    hide HexNumber, LittleEndian;
    AcceptedValue(n, s);
  }

  lemma AcceptedValue(n: nat, s: seq<byte>)
    requires ParseText(n, s).Hash?
    ensures LittleEndian(ParseText(n, s).bytes) == HexNumber(s)
  {
    var buf := UnHex(Even(s));
    EvenIsWhole(s);
    hide UnHex, BigEndian, HexNumber, Digit, IsHex, AllHex, Even, Reversed, Zeros;
    ReversedPadded(buf, n - |buf|);
    LeadingZeros(n - |buf|, buf);
    UnHexValue(Even(s));
    EvenValue(s);
  }

  lemma EvenValue(s: seq<byte>)
    ensures HexNumber(Even(s)) == HexNumber(s)
  {
    LeadingZeroDigit(s);
  }

  /** A text that is made even is decoded whole. */
  lemma EvenIsWhole(s: seq<byte>)
    ensures |Even(s)| == 2 * |UnHex(Even(s))| && |s| <= |Even(s)| <= |s| + 1
    ensures AllHex(s) ==> AllHex(Even(s))
  {
    hide UnHex;
  }

  /** Parsing the text of a hash gives it back. */
  lemma ParseOfText(hash: seq<byte>)
    ensures ParseText(|hash|, TextOf(hash)) == Hash(hash)
  {
    UnHexOfHex(Reversed(hash));
    ReversedTwice(hash);
    hide UnHex, Hex, IsHex, Reversed;
    assert hash + Zeros(0) == hash;
  }

  /** Printing a parsed text gives it in lower case, left-padded with zeros. */
  lemma TextOfParse(n: nat, s: seq<byte>)
    requires ParseText(n, s).Hash?
    ensures TextOf(ParseText(n, s).bytes) == Normal(n, s)
  {
    var even := Even(s);
    var buf := UnHex(even);
    var k := n - |buf|;
    EvenIsWhole(s);
    hide UnHex, Hex, Digit, IsHex, Even;
    ReversedPadded(buf, k);
    HexOfZeros(k, buf);
    HexOfUnHex(even);
    NormalOfEven(n, k, s);
  }

  lemma NormalOfEven(n: nat, k: nat, s: seq<byte>)
    requires |s| <= 2 * n && 2 * k == 2 * n - |Even(s)|
    ensures seq(2 * k, _ => 48) + AllLower(Even(s)) == Normal(n, s)
  {
  }

  /** Two accepted texts mean the same hash exactly when they agree after padding and lower-casing. */
  lemma SameHashSameText(n: nat, s: seq<byte>, t: seq<byte>)
    requires ParseText(n, s).Hash? && ParseText(n, t).Hash?
    ensures ParseText(n, s) == ParseText(n, t) <==> Normal(n, s) == Normal(n, t)
  {
    TextOfParse(n, s);
    TextOfParse(n, t);
    ParseOfText(ParseText(n, s).bytes);
    ParseOfText(ParseText(n, t).bytes);
  }

  // ---------- the array code ----------

  /** hex.EncodeToString. */
  method EncodeToString(b: seq<byte>) returns (s: seq<byte>)
    ensures s == Hex(b)
  {
    s := [];
    assert b[..0] == [];
    for i := 0 to |b|
      invariant s == Hex(b[..i])
    {
      assert b[..i + 1][..i] == b[..i];
      s := s + [DigitChar(b[i] / 16), DigitChar(b[i] % 16)];
    }
    assert b[..|b|] == b;
  }

  /** hex.DecodeString of a text of even length. */
  method DecodeString(s: seq<byte>) returns (b: seq<byte>, err: Option<TextError>)
    requires |s| % 2 == 0
    ensures if AllHex(s) then err.None? && b == UnHex(s) else err == Some(InvalidByte(FirstInvalid(s)))
  {
    b, err := [], None;
    var i := 0;
    assert s[..0] == [];
    while i < |s| / 2
      invariant i <= |s| / 2 && b == UnHex(s[..2 * i]) && AllHex(s[..2 * i])
    {
      var p, q := s[2 * i], s[2 * i + 1];
      if !IsHex(p) {
        FirstInvalidAt(s, 2 * i);
        return b, Some(InvalidByte(p));
      }
      if !IsHex(q) {
        FirstInvalidAt(s, 2 * i + 1);
        return b, Some(InvalidByte(q));
      }
      assert s[..2 * (i + 1)][..2 * i] == s[..2 * i];
      b := b + [16 * Digit(p) + Digit(q)];
      i := i + 1;
    }
    assert s[..2 * i] == s;
  }

  lemma {:induction false} FirstInvalidAt(s: seq<byte>, i: nat)
    requires i < |s| && !IsHex(s[i]) && forall j | 0 <= j < i :: IsHex(s[j])
    ensures !AllHex(s) && FirstInvalid(s) == s[i]
  {
    if i > 0 {
      assert s[1..][i - 1] == s[i];
      FirstInvalidAt(s[1..], i - 1);
    }
  }

  /** String: on a copy of the array, since the receiver is passed by value, the two halves are
    * swapped in place. */
  method ToText(hash: array<byte>) returns (s: seq<byte>)
    ensures s == TextOf(hash[..])
  {
    var n := hash.Length;
    var copied := new byte[n](i requires 0 <= i < n reads hash => hash[i]);
    var i := 0;
    while i < n / 2
      invariant 0 <= i <= n / 2
      invariant forall k | 0 <= k < i :: copied[k] == hash[n - 1 - k] && copied[n - 1 - k] == hash[k]
      invariant forall k | i <= k < n - i :: copied[k] == hash[k]
    {
      copied[i], copied[n - 1 - i] := copied[n - 1 - i], copied[i];
      i := i + 1;
    }
    assert copied[..] == Reversed(hash[..]);
    s := EncodeToString(copied[..]);
  }

  /** NewShaHashFromStr, NewRipeHashFromStr, NewPubKeyFromStr: the decoded bytes are mirrored into
    * the front of a zeroed array, two at a time from both ends. */
  method FromText(n: nat, hash: seq<byte>) returns (ret: array<byte>, err: Option<TextError>)
    ensures fresh(ret) && ret.Length == n
    ensures match ParseText(n, hash)
      case Hash(bytes) => err.None? && ret[..] == bytes
      case Invalid(e) => err == Some(e)
  {
    ret := new byte[n](_ => 0);
    if |hash| > 2 * n {
      err := Some(TooLong);
      return;
    }
    var text := if |hash| % 2 != 0 then [48] + hash else hash;
    EvenKeepsValidity(hash);
    var buf;
    buf, err := DecodeString(text);
    if err.Some? { return; }
    Unreverse(ret, buf);
  }

  /** The loop of FromText: from both ends of buf towards its middle, which is written once or, when
    * the length is odd, as its own mirror image. */
  method Unreverse(ret: array<byte>, buf: seq<byte>)
    requires |buf| <= ret.Length && forall k | 0 <= k < ret.Length :: ret[k] == 0
    modifies ret
    ensures ret[..] == Reversed(buf) + Zeros(ret.Length - |buf|)
  {
    var blen := |buf|;
    var mid := blen / 2;
    if blen % 2 != 0 {
      mid := mid + 1;
    }
    blen := blen - 1;
    var i := 0;
    while i < mid
      invariant 0 <= i <= mid
      invariant forall k | 0 <= k < i :: ret[k] == buf[blen - k] && ret[blen - k] == buf[k]
      invariant forall k | blen < k < ret.Length :: ret[k] == 0
    {
      ret[i], ret[blen - i] := buf[blen - i], buf[i];
      i := i + 1;
    }
    forall k | 0 <= k <= blen ensures ret[k] == buf[blen - k] {
      if k >= mid { assert ret[blen - (blen - k)] == buf[blen - k]; }
    }
    assert ret[..] == Reversed(buf) + Zeros(ret.Length - |buf|);
  }

  lemma EvenKeepsValidity(s: seq<byte>)
    ensures AllHex(Even(s)) <==> AllHex(s)
    ensures !AllHex(s) ==> FirstInvalid(Even(s)) == FirstInvalid(s)
  {
    if |s| % 2 != 0 {
      var e := Even(s);
      assert e[1..] == s;
      if !AllHex(s) {
        var i :| 0 <= i < |s| && !IsHex(s[i]);
        assert e[i + 1] == s[i];
      }
      assert forall i | 0 <= i < |s| :: e[i + 1] == s[i];
    }
  }

  /** SetBytes: copies into the receiver, or refuses a slice of the wrong length. */
  method SetBytes(hash: array<byte>, newHash: seq<byte>) returns (ok: bool)
    modifies hash
    ensures ok == (|newHash| == hash.Length)
    ensures hash[..] == if ok then newHash else old(hash[..])
  {
    ok := |newHash| == hash.Length;
    if ok {
      for i := 0 to hash.Length
        invariant forall k | 0 <= k < i :: hash[k] == newHash[k]
      {
        hash[i] := newHash[i];
      }
    }
  }
}
