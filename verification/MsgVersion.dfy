/** The version message: fixed fields, two addresses, a user agent and a list of stream numbers. */
module Versions {
  import opened Octets
  import opened Wire
  import opened Grammar
  import opened Stream
  import opened NetAddresses

  /** The fields of a MsgVersion. */
  datatype Version = Version(
    protocolVersion: i32, services: u64, timestamp: i64, addrYou: NetAddr, addrMe: NetAddr,
    nonce: u64, userAgent: Slice<byte>, streams: Slice<u64>)

  const NO_VERSION := Version(0, 0, ZERO_TIME, ZERO_ADDRESS, ZERO_ADDRESS, 0, [], [])

  /** MaxPayloadLength: 33 + 2 * 30 + 9 + 2000. */
  const MAX_VERSION_PAYLOAD: nat := 2102

  function VersionLayout(memory: nat): Layout { Layout(VersionKind, memory) }

  function Numbers(vs: seq<u64>): (items: seq<Item>)
    ensures |items| == |vs|
  {
    seq(|vs|, i requires 0 <= i < |vs| => Number(vs[i]))
  }

  function HeadFields(m: Version): seq<seq<byte>> {
    [I32Field(m.protocolVersion), U64Field(m.services), I64Field(m.timestamp)]
  }

  /** The items before the stream numbers. */
  function VersionHead(m: Version): (items: seq<Item>)
    ensures |items| == 6
  {
    [Fields(HeadFields(m)), Fields(AddressFields(m.addrYou, false)), Fields(AddressFields(m.addrMe, false)),
     Fields([U64Field(m.nonce)]), Text(m.userAgent), Number(|m.streams|)]
  }

  function VersionItems(m: Version): seq<Item> { VersionHead(m) + Numbers(m.streams) }

  function VersionEncoding(m: Version): Encoding {
    if |m.userAgent| > MAX_USER_AGENT_LEN then Encoding([], Some(MessageError(UserAgentTooLong)))
    else Encoding(VersionItems(m), None)
  }

  function AddressAt(items: seq<Item>, i: nat): NetAddr { AddressOfItem(At(items, i)) }

  function AddressOfItem(item: Item): NetAddr {
    if item.Fields? && Widths(item.fields) == AddressWidths(false) then AddressOf(item.fields, false) else ZERO_ADDRESS
  }

  function StreamsFrom(items: seq<Item>): (vs: seq<u64>)
    ensures |vs| == if |items| <= 6 then 0 else |items| - 6
  {
    if |items| <= 6 then [] else seq(|items| - 6, i requires 0 <= i < |items| - 6 => items[6 + i].Num())
  }

  /** The message these items were read into; every field is assigned. */
  function VersionFrom(items: seq<Item>): Version
    requires |items| - 6 <= MAX_INT && |At(items, 4).Str()| <= MAX_INT
  {
    var head := At(items, 0);
    Version(AsI32(head.Field(0)), AsU64(head.Field(1)), AsI64(head.Field(2)), AddressAt(items, 1), AddressAt(items, 2),
            AsU64(At(items, 3).Field(0)), At(items, 4).Str(), StreamsFrom(items))
  }

  function DecodeVersion(memory: nat, s: seq<byte>): Run<Version> {
    match Parse(VersionLayout(memory), [], s)
    case Err(e, t) => Err(e, t)
    case Ok(items, t) =>
      ParseConforms(VersionLayout(memory), s);
      VersionShape(memory, items);
      Ok(VersionFrom(items), t)
  }

  // ---------- laws ----------

  lemma VersionShape(memory: nat, items: seq<Item>)
    requires Conforms(VersionLayout(memory), items)
    ensures |items| >= 6 && !EndsWithTail(VersionLayout(memory), items)
    ensures items[0].Fields? && Widths(items[0].fields) == [4, 8, 8]
    ensures forall i | 1 <= i <= 2 :: items[i].Fields? && Widths(items[i].fields) == [8, 16, 2]
    ensures items[3].Fields? && Widths(items[3].fields) == [8]
    ensures items[4].Text? && |items[4].text| <= MAX_USER_AGENT_LEN
    ensures items[5].Number? && |items| == 6 + items[5].number && Allocatable(memory, items[5].number, 8)
    ensures forall i | 6 <= i < |items| :: items[i].Number?
  {
    hide NextOp;
    var l := VersionLayout(memory);
    assert forall i | 0 <= i <= |items| :: NextOp(l, items, i) == NextInVersion(memory, items, i) by {
      VersionLayoutIs(memory, items);
    }
    assert NextOp(l, items, 0) == Expect(Fixed([4, 8, 8]));
    assert |items| >= 6;
    assert NextOp(l, items, 1) == NextOp(l, items, 2) == Expect(Fixed([8, 16, 2]));
    assert NextOp(l, items, 3) == Expect(Fixed([8])) && NextOp(l, items, 4).Expect?;
    assert NextOp(l, items, 5) == Expect(VarInt);
    assert NextOp(l, items, 6) == if !Allocatable(memory, items[5].number, 8) then Refuse(Panic)
      else if items[5].number == 0 then Done else Expect(VarInt);
    if |items| > 6 {
      assert NextOp(l, items, |items| - 1).Expect?;
    }
  }

  lemma VersionLayoutIs(memory: nat, items: seq<Item>)
    ensures forall i | 0 <= i <= |items| :: NextOp(VersionLayout(memory), items, i) == NextInVersion(memory, items, i)
  {
  }

  lemma VersionConforms(memory: nat, m: Version)
    requires |m.userAgent| <= MAX_USER_AGENT_LEN && Allocatable(memory, |m.streams|, 8)
    ensures Conforms(VersionLayout(memory), VersionItems(m)) && !EndsWithTail(VersionLayout(memory), VersionItems(m))
  {
    hide NextOp, I32Field, U64Field, I64Field, AddressFields;
    var l, items := VersionLayout(memory), VersionItems(m);
    VersionLayoutIs(memory, items);
    assert Widths(HeadFields(m)) == [4, 8, 8] && Widths([U64Field(m.nonce)]) == [8];
    forall i | 0 <= i < |items|
      ensures NextOp(l, items, i).Expect? && Matches(NextOp(l, items, i).op, items[i])
    {
      assert NextOp(l, items, i) == NextInVersion(memory, items, i);
    }
  }

  /** Every complete item list is the encoding of the message it decodes to. */
  lemma VersionReencodes(memory: nat, items: seq<Item>)
    requires Conforms(VersionLayout(memory), items)
    ensures !EndsWithTail(VersionLayout(memory), items)
    ensures |items| - 6 <= MAX_INT && |At(items, 4).Str()| <= MAX_INT
    ensures VersionEncoding(VersionFrom(items)) == Encoding(items, None)
  {
    VersionShape(memory, items);
    hide Conforms, EndsWithTail, VersionHead, Numbers, StreamsFrom;
    var m := VersionFrom(items);
    HeadReencodes(items);
    StreamsReencode(items);
    assert items == items[..6] + items[6..];
  }

  lemma HeadReencodes(items: seq<Item>)
    requires |items| >= 6 && |items| - 6 <= MAX_INT && items[5] == Number(|items| - 6)
    requires items[0].Fields? && Widths(items[0].fields) == [4, 8, 8]
    requires forall i | 1 <= i <= 2 :: items[i].Fields? && Widths(items[i].fields) == [8, 16, 2]
    requires items[3].Fields? && Widths(items[3].fields) == [8]
    requires items[4].Text? && |items[4].text| <= MAX_USER_AGENT_LEN
    ensures VersionHead(VersionFrom(items)) == items[..6]
  {
    HeadOfFields(items[0].fields);
    AddressReencodes(items[1]);
    AddressReencodes(items[2]);
    NonceReencodes(items[3]);
    hide I32Field, U64Field, I64Field, AsI32, AsU64, AsI64, AddressFields, AddressOfItem, Widths;
    var head := VersionHead(VersionFrom(items));
    assert head[0] == items[0] && head[1] == items[1] && head[2] == items[2] && head[3] == items[3];
  }

  lemma AddressReencodes(item: Item)
    requires item.Fields? && Widths(item.fields) == [8, 16, 2]
    ensures Fields(AddressFields(AddressOfItem(item), false)) == item
  {
    FieldsOfAddress(item.fields, false);
  }

  lemma NonceReencodes(item: Item)
    requires item.Fields? && Widths(item.fields) == [8]
    ensures Fields([U64Field(AsU64(item.Field(0)))]) == item
  {
    FieldWidth(item.fields, [8], 0);
    UnsignedFields(0, 0, 0, item.fields[0]);
    assert item.fields == [item.fields[0]];
  }

  lemma StreamsReencode(items: seq<Item>)
    requires |items| >= 6 && forall i | 6 <= i < |items| :: items[i].Number?
    ensures Numbers(StreamsFrom(items)) == items[6..]
  {
  }

  lemma HeadOfFields(fields: seq<seq<byte>>)
    requires Widths(fields) == [4, 8, 8]
    ensures [I32Field(AsI32(fields[0])), U64Field(AsU64(fields[1])), I64Field(AsI64(fields[2]))] == fields
  {
    hide I32Field, U64Field, I64Field, AsI32, AsU64, AsI64, Widths;
    ThreeWidths(fields, 4, 8, 8);
    SignedFields(0, 0, fields[0]);
    UnsignedFields(0, 0, 0, fields[1]);
    SignedFields(0, 0, fields[2]);
    ThreeFields(fields, I32Field(AsI32(fields[0])), U64Field(AsU64(fields[1])), I64Field(AsI64(fields[2])));
  }

  /** What is left of an address after a journey in a version message, which carries no time. */
  function Untimed(a: NetAddr): NetAddr {
    NetAddr(ZERO_TIME, a.services, WireIP(a.ip), a.port)
  }

  lemma AddressSurvives(a: NetAddr)
    ensures AddressOfItem(Fields(AddressFields(a, false))) == Untimed(a)
  {
    hide AddressFields, AddressOf;
    AddressRoundTrip(a, false, []);
    ReadFieldsOfConcat(AddressFields(a, false), []);
  }

  lemma StreamsOfNumbers(head: seq<Item>, vs: seq<u64>)
    requires |head| == 6
    ensures StreamsFrom(head + Numbers(vs)) == vs
  {
  }

  lemma VersionFromItems(m: Version)
    ensures VersionFrom(VersionItems(m)) == m.(addrYou := Untimed(m.addrYou), addrMe := Untimed(m.addrMe))
  {
    SignedFields(m.protocolVersion, m.timestamp, []);
    UnsignedFields(0, 0, m.services, []);
    UnsignedFields(0, 0, m.nonce, []);
    AddressSurvives(m.addrYou);
    AddressSurvives(m.addrMe);
    StreamsOfNumbers(VersionHead(m), m.streams);
    hide I32Field, U64Field, I64Field, AsI32, AsU64, AsI64, AddressFields, AddressOfItem, Untimed, StreamsFrom, Numbers;
    var items, head := VersionItems(m), VersionHead(m);
    assert forall i | 0 <= i < 6 :: items[i] == head[i];
  }

  /** A message with a valid user agent is read back from its encoding, whatever follows: all but
    * the times of its addresses, whose IPs come back in 16-byte form. */
  lemma VersionRoundTrip(memory: nat, m: Version, t: seq<byte>)
    requires |m.userAgent| <= MAX_USER_AGENT_LEN && Allocatable(memory, |m.streams|, 8)
    ensures DecodeVersion(memory, Print(VersionItems(m)) + t) ==
      Ok(m.(addrYou := Untimed(m.addrYou), addrMe := Untimed(m.addrMe)), t)
  {
    VersionConforms(memory, m);
    ParseOfPrint(VersionLayout(memory), VersionItems(m), t);
    VersionFromItems(m);
  }

  /** An accepted payload re-encodes into no more bytes, which decode to the same message. */
  lemma VersionNormalises(memory: nat, s: seq<byte>, t: seq<byte>)
    requires DecodeVersion(memory, s).Ok?
    ensures var r := DecodeVersion(memory, s);
      var e := VersionEncoding(r.value);
      e.fault.None? && |Print(e.items)| <= |s| - |r.rest| && DecodeVersion(memory, Print(e.items) + t) == Ok(r.value, t)
  {
    ParseConforms(VersionLayout(memory), s);
    VersionReencodes(memory, Parse(VersionLayout(memory), [], s).value);
    Normalise(VersionLayout(memory), s, t);
  }

  // ---------- the payload limit ----------

  /** The encoded size of a list of varints. */
  function VarIntsSize(vs: seq<u64>): (n: nat)
    ensures |vs| <= n <= 9 * |vs|
  {
    if vs == [] then 0 else VarIntSize(vs[0]) + VarIntsSize(vs[1..])
  }

  lemma {:induction false} NumbersLength(vs: seq<u64>)
    ensures |Print(Numbers(vs))| == VarIntsSize(vs)
  {
    if vs != [] {
      assert Numbers(vs)[1..] == Numbers(vs[1..]);
      NumbersLength(vs[1..]);
    }
  }

  /** The encoded size: 80 bytes of fixed fields, the user agent and the stream numbers. */
  lemma VersionLength(m: Version)
    ensures |Print(VersionItems(m))| ==
      80 + VarIntSize(|m.userAgent|) + |m.userAgent| + VarIntSize(|m.streams|) + VarIntsSize(m.streams)
  {
    hide VarIntSize, VarIntBytes, Numbers, AddressFields, Concat, Print, I32Field, U64Field, I64Field;
    var h := VersionHead(m);
    NumbersLength(m.streams);
    PrintAppend(h, Numbers(m.streams));
    ConcatOfThree(I32Field(m.protocolVersion), U64Field(m.services), I64Field(m.timestamp));
    UntimedLength(m.addrYou);
    UntimedLength(m.addrMe);
    ConcatOf1(U64Field(m.nonce));
    assert |ItemBytes(h[0])| == 20 && |ItemBytes(h[1])| == |ItemBytes(h[2])| == 26 && |ItemBytes(h[3])| == 8;
    assert |ItemBytes(h[4])| == VarIntSize(|m.userAgent|) + |m.userAgent|;
    assert |ItemBytes(h[5])| == VarIntSize(|m.streams|);
    PrintOfSix(h[0], h[1], h[2], h[3], h[4], h[5]);
  }

  lemma UntimedLength(a: NetAddr)
    ensures |Concat(AddressFields(a, false))| == 26
  {
    hide AddressFields;
    ConcatLength(AddressFields(a, false));
    assert [8, 16, 2][1..] == [16, 2] && [16, 2][1..] == [2] && [2][1..] == [];
    assert Sum([2]) == 2 && Sum([16, 2]) == 18;
  }

  /** With a valid user agent and at most two streams the message fits its payload limit. */
  lemma TwoStreamsFit(m: Version)
    requires |m.userAgent| <= MAX_USER_AGENT_LEN && |m.streams| <= 2
    ensures |Print(VersionItems(m))| <= MAX_VERSION_PAYLOAD
  {
    VersionLength(m);
  }

  /** The limit is tight: two streams can fill it, and three can pass it. */
  lemma LimitIsTight()
    ensures exists m: Version ::
      |m.userAgent| <= MAX_USER_AGENT_LEN && |m.streams| == 2 && |Print(VersionItems(m))| == MAX_VERSION_PAYLOAD
    ensures exists m: Version ::
      |m.userAgent| <= MAX_USER_AGENT_LEN && |m.streams| == 3 && |Print(VersionItems(m))| > MAX_VERSION_PAYLOAD
  {
    var big: u64 := 0x1_0000_0000;
    var two := NO_VERSION.(userAgent := Zeros(MAX_USER_AGENT_LEN), streams := [big, big]);
    var three := NO_VERSION.(userAgent := Zeros(MAX_USER_AGENT_LEN), streams := [big, big, big]);
    VersionLength(two);
    VersionLength(three);
    assert [big, big][1..] == [big] && [big][1..] == [] && [big, big, big][1..] == [big, big];
    assert |two.userAgent| <= MAX_USER_AGENT_LEN && |two.streams| == 2;
    assert |Print(VersionItems(two))| == MAX_VERSION_PAYLOAD;
    assert |three.userAgent| <= MAX_USER_AGENT_LEN && |three.streams| == 3;
    assert |Print(VersionItems(three))| > MAX_VERSION_PAYLOAD;
  }

  /** A payload within the limit holds at most 2018 stream numbers, minimal varints or not. */
  lemma AtMost2018Streams(memory: nat, s: seq<byte>)
    requires DecodeVersion(memory, s).Ok? && |s| <= MAX_VERSION_PAYLOAD
    ensures |DecodeVersion(memory, s).value.streams| <= 2018
  {
    VersionNormalises(memory, s, []);
    VersionLength(DecodeVersion(memory, s).value);
  }

  lemma {:induction false} OneByteEach(vs: seq<u64>)
    requires forall i | 0 <= i < |vs| :: vs[i] < 0xfd
    ensures VarIntsSize(vs) == |vs|
  {
    if vs != [] { OneByteEach(vs[1..]); }
  }

  /** And 2018 are possible. */
  lemma TwoThousandEighteenReached(memory: nat)
    requires memory >= MAX_MESSAGE_PAYLOAD
    ensures exists s ::
      |s| <= MAX_VERSION_PAYLOAD && DecodeVersion(memory, s).Ok? && |DecodeVersion(memory, s).value.streams| == 2018
  {
    hide Print, VersionItems, ZeroNumbers, DecodeVersion, Untimed;
    var m := NO_VERSION.(streams := ZeroNumbers(2018));
    ZerosFillTheLimit(m);
    StreamsReadBack(memory, m);
    var s := Print(VersionItems(m));
    assert |s| <= MAX_VERSION_PAYLOAD && DecodeVersion(memory, s).Ok?;
  }

  lemma ZerosFillTheLimit(m: Version)
    requires m.userAgent == [] && m.streams == ZeroNumbers(2018)
    ensures |Print(VersionItems(m))| == MAX_VERSION_PAYLOAD
  {
    OneByteEach(m.streams);
    hide Print, VersionItems, ZeroNumbers, VarIntsSize;
    VersionLength(m);
  }

  lemma StreamsReadBack(memory: nat, m: Version)
    requires |m.userAgent| <= MAX_USER_AGENT_LEN && Allocatable(memory, |m.streams|, 8)
    ensures var s := Print(VersionItems(m));
      DecodeVersion(memory, s).Ok? && DecodeVersion(memory, s).value.streams == m.streams
  {
    VersionRoundTrip(memory, m, []);
    hide Print, VersionItems, DecodeVersion, Untimed;
    assert Print(VersionItems(m)) + [] == Print(VersionItems(m));
  }

  lemma AddressAtPrefix(a: seq<Item>, b: seq<Item>, i: nat)
    requires i < |a| && i < |b| && a[i] == b[i]
    ensures AddressAt(a, i) == AddressAt(b, i)
  {
  }

  // ---------- the receiver of a decoder, whether or not it succeeds ----------

  /** The receiver after decoding from s: the fields of fixed width that are there, each in its
    * place; then the user agent, if it is valid; then as many stream numbers as are counted, those
    * that could not be read being zero. */
  function VersionAfter(memory: nat, m: Version, s: seq<byte>): Version {
    var n := FixedAfter(m, s);
    if |s| < 80 then n
    else
      var agent := ReadCounted(MAX_MESSAGE_PAYLOAD, MessageError(StringTooLong), s[80..]);
      if agent.Err? || |agent.value| > MAX_USER_AGENT_LEN then n
      else n.(userAgent := agent.value, streams := StreamsAfter(memory, m.streams, agent.rest))
  }

  function FixedAfter(m: Version, s: seq<byte>): Version {
    m.(protocolVersion := if |s| < 4 then m.protocolVersion else AsI32(s[..4]),
       services := if |s| < 12 then m.services else AsU64(s[4..12]),
       timestamp := if |s| < 20 then m.timestamp else AsI64(s[12..20]),
       addrYou := if |s| < 46 then m.addrYou else AddressIn(s[20..46]),
       addrMe := if |s| < 72 then m.addrMe else AddressIn(s[46..72]),
       nonce := if |s| < 80 then m.nonce else AsU64(s[72..80]))
  }

  /** The address in 26 bytes. */
  function AddressIn(b: seq<byte>): NetAddr
    requires |b| == 26
  {
    NetAddr(ZERO_TIME, AsU64(b[..8]), b[8..24], AsU16(b[24..26]))
  }

  function StreamsAfter(memory: nat, before: Slice<u64>, s: seq<byte>): Slice<u64> {
    var count := ReadVarInt(s);
    if count.Err? || !Allocatable(memory, count.value, 8) then before
    else
      var vs := NumbersIn(count.value, count.rest);
      vs + ZeroNumbers(count.value - |vs|)
  }

  function ZeroNumbers(n: nat): (vs: seq<u64>)
    ensures |vs| == n
  {
    seq(n, _ => 0)
  }

  /** The numbers among the first n at the front of s, up to the first that cannot be read. */
  function NumbersIn(n: nat, s: seq<byte>): (vs: seq<u64>)
    ensures |vs| <= n
  {
    if n == 0 || ReadVarInt(s).Err? then []
    else [ReadVarInt(s).value] + NumbersIn(n - 1, ReadVarInt(s).rest)
  }

  // ---------- the message object ----------

  /** validateUserAgent. */
  method ValidateUserAgent(userAgent: seq<byte>) returns (err: Option<Error>)
    ensures err == if |userAgent| > 2000 then Some(MessageError(UserAgentTooLong)) else None
  {
    if |userAgent| > MAX_USER_AGENT_LEN {
      return Some(MessageError(UserAgentTooLong));
    }
    return None;
  }

  lemma SlicesOfTake(s: seq<byte>)
    requires |s| >= 26
    ensures s[..26][..8] == s[..8] && s[..26][8..24] == s[8..24] && s[..26][24..26] == s[24..26]
  {
  }

  /** Midway through the stream numbers, vs being those read: the items so far, what the receiver's
    * list of n holds, and what the numbers come to. */
  function WithNumbers(head: seq<Item>, vs: seq<u64>): seq<Item> { head + Numbers(vs) }

  function PartlyRead(vs: seq<u64>, n: nat): seq<u64>
    requires |vs| <= n
  {
    vs + ZeroNumbers(n - |vs|)
  }

  function Continued(vs: seq<u64>, n: nat, s: seq<byte>): seq<u64>
    requires |vs| <= n
  {
    vs + NumbersIn(n - |vs|, s)
  }

  lemma NoNumbers(head: seq<Item>, n: nat, s: seq<byte>)
    ensures WithNumbers(head, []) == head && PartlyRead([], n) == ZeroNumbers(n)
    ensures Continued([], n, s) == NumbersIn(n, s)
  {
    hide ZeroNumbers, NumbersIn;
    assert [] + ZeroNumbers(n) == ZeroNumbers(n) && [] + NumbersIn(n, s) == NumbersIn(n, s);
  }

  lemma ZeroFilled(vs: seq<u64>, n: nat, v: u64)
    requires |vs| < n
    ensures |PartlyRead(vs, n)| == n && PartlyRead(vs, n)[|vs| := v] == PartlyRead(vs + [v], n)
    ensures v == 0 ==> PartlyRead(vs + [v], n) == PartlyRead(vs, n) == vs + ZeroNumbers(n - |vs|)
  {
  }

  /** One round of the decoder's loop: the stream numbers read so far are vs. */
  lemma StreamStep(memory: nat, head: seq<Item>, vs: seq<u64>, s: seq<byte>)
    requires |head| == 6 && head[5].Number? && |vs| < head[5].number && Allocatable(memory, head[5].number, 8)
    ensures var l, n, v := VersionLayout(memory), head[5].number, ReadVarInt(s);
      && (v.Err? ==> Parse(l, WithNumbers(head, vs), s) == Err(v.error, v.rest) && Continued(vs, n, s) == vs)
      && (v.Ok? ==>
            && Parse(l, WithNumbers(head, vs), s) == Parse(l, WithNumbers(head, vs + [v.value]), v.rest)
            && Continued(vs, n, s) == Continued(vs + [v.value], n, v.rest))
  {
    hide Parse, Collected, NextOp, ReadVarInt, NumbersIn, Numbers;
    var l, items, v := VersionLayout(memory), WithNumbers(head, vs), ReadVarInt(s);
    VersionLayoutIs(memory, items);
    ParseNumber(l, items, s);
    NumbersStep(head, vs, head[5].number - |vs|, s);
  }

  lemma NumbersStep(head: seq<Item>, vs: seq<u64>, n: nat, s: seq<byte>)
    requires n > 0
    ensures var v := ReadVarInt(s);
      && (v.Err? ==> vs + NumbersIn(n, s) == vs)
      && (v.Ok? ==>
            && head + Numbers(vs) + [Number(v.value)] == head + Numbers(vs + [v.value])
            && vs + NumbersIn(n, s) == vs + [v.value] + NumbersIn(n - 1, v.rest))
  {
    hide ReadVarInt;
    var v := ReadVarInt(s);
    if v.Ok? {
      assert Numbers(vs + [v.value]) == Numbers(vs) + [Number(v.value)];
    }
  }

  lemma StreamsEnd(memory: nat, head: seq<Item>, vs: seq<u64>, s: seq<byte>)
    requires |head| == 6 && head[5].Number? && head[5].number == |vs| && Allocatable(memory, |vs|, 8)
    ensures Parse(VersionLayout(memory), WithNumbers(head, vs), s) == Ok(WithNumbers(head, vs), s)
    ensures StreamsFrom(WithNumbers(head, vs)) == vs && head <= WithNumbers(head, vs)
    ensures Continued(vs, |vs|, s) == vs && PartlyRead(vs, |vs|) == vs == vs + ZeroNumbers(0)
  {
    hide Parse, Collected, NextOp;
    VersionLayoutIs(memory, head + Numbers(vs));
    ParseStops(VersionLayout(memory), head + Numbers(vs), s);
  }

  class MsgVersion {
    var ProtocolVersion: i32
    var Services: u64
    var Timestamp: i64
    const AddrYou: NetAddress
    const AddrMe: NetAddress
    var Nonce: u64
    var UserAgent: Slice<byte>
    var StreamNumbers: Slice<u64>

    /** The two addresses are parts of the message: they are not shared. */
    ghost predicate Valid() {
      AddrYou != AddrMe
    }

    ghost function Value(): Version
      reads this, AddrYou, AddrMe
    {
      Version(ProtocolVersion, Services, Timestamp, AddrYou.Value(), AddrMe.Value(), Nonce, UserAgent, StreamNumbers)
    }

    constructor (m: Version)
      ensures Valid() && fresh(AddrYou) && fresh(AddrMe) && Value() == m
    {
      ProtocolVersion, Services, Timestamp := m.protocolVersion, m.services, m.timestamp;
      Nonce, UserAgent, StreamNumbers := m.nonce, m.userAgent, m.streams;
      AddrYou := new NetAddress.From(m.addrYou);
      AddrMe := new NetAddress.From(m.addrMe);
    }

    method Get() returns (m: Version)
      ensures m == Value()
    {
      var you := AddrYou.Get();
      var me := AddrMe.Get();
      m := Version(ProtocolVersion, Services, Timestamp, you, me, Nonce, UserAgent, StreamNumbers);
    }

    /** Decode, in a process that can allocate `memory` bytes at once: the stream numbers are
      * allocated from their unchecked count before they are read. */
    method Decode(r: Reader, memory: nat) returns (err: Option<Error>)
      requires Valid() && r.Valid()
      modifies this, AddrYou, AddrMe, r`pos
      ensures r.Valid()
      ensures var run := DecodeVersion(memory, old(r.Rest()));
        && r.Rest() == run.rest
        && (run.Ok? ==> err.None? && Value() == run.value)
        && (run.Err? ==> err == Some(run.error))
      ensures Value() == VersionAfter(memory, old(Value()), old(r.Rest()))
    {
      hide Parse, NextOp, ReadCounted, AddressAt, AsI32, AsU64, AsI64, StreamsFrom, FixedAfter, StreamsAfter;
      ghost var l, s := VersionLayout(memory), r.Rest();
      ghost var items;
      err, items := DecodeFixedPart(r, memory);
      if err.Some? { return; }
      VersionLayoutIs(memory, items);
      ParseText(l, items, r.Rest(), MAX_MESSAGE_PAYLOAD, MessageError(StringTooLong));
      var userAgent;
      userAgent, err := ReadVarString(r);
      if err.Some? { return; }
      items := items + [Text(userAgent)];
      err := ValidateUserAgent(userAgent);
      if err.Some? {
        VersionLayoutIs(memory, items);
        ParseStops(l, items, r.Rest());
        return;
      }
      UserAgent := userAgent;
      err := DecodeStreams(r, memory, items);
      if err.None? {
        ghost var all := Parse(l, [], s).value;
        assert forall j | 0 <= j < 5 :: all[j] == items[j];
        AddressAtPrefix(all, items, 1);
        AddressAtPrefix(all, items, 2);
        AddressAtPrefix(items, items[..4], 1);
        AddressAtPrefix(items, items[..4], 2);
        assert Value() == VersionFrom(all);
      }
    }

    /** The fixed-width part of Decode: header, both addresses and nonce. */
    method DecodeFixedPart(r: Reader, ghost memory: nat) returns (err: Option<Error>, ghost items: seq<Item>)
      requires Valid() && r.Valid()
      modifies this`ProtocolVersion, this`Services, this`Timestamp, this`Nonce, AddrYou, AddrMe, r`pos
      ensures r.Valid()
      ensures var l := VersionLayout(memory);
        && (err.Some? ==> Parse(l, [], old(r.Rest())) == Err(err.value, r.Rest()))
        && (err.None? ==> |items| == 4 && Parse(l, [], old(r.Rest())) == Parse(l, items, r.Rest()))
      ensures err.None? ==>
        && ProtocolVersion == AsI32(items[0].Field(0)) && Services == AsU64(items[0].Field(1))
        && Timestamp == AsI64(items[0].Field(2)) && Nonce == AsU64(items[3].Field(0))
        && AddrYou.Value() == AddressAt(items, 1) && AddrMe.Value() == AddressAt(items, 2)
      ensures Value() == FixedAfter(old(Value()), old(r.Rest()))
      ensures err.Some? <==> |old(r.Rest())| < 80
      ensures err.None? ==> r.Rest() == old(r.Rest())[80..]
    {
      hide Parse, Collected, NextOp, ReadFields, AddressIn, AddressOfItem, AsI32, AsU64, AsI64;
      ghost var l, s := VersionLayout(memory), r.Rest();
      items := [];
      ghost var head, you, me;
      err, head := DecodeHead(r, memory);
      if err.Some? { return; }
      SliceOfDrop(s, 20, 26, 26);
      SliceOfDrop(s, 20, 52, 0);
      err, you, me := DecodeAddresses(r, memory, head);
      if err.Some? { return; }
      SliceOfDrop(s, 72, 8, 0);
      ghost var last;
      err, last := DecodeNonce(r, memory, [head, you, me]);
      items := [head, you, me, last];
    }

    method DecodeNonce(r: Reader, ghost memory: nat, ghost items: seq<Item>)
      returns (err: Option<Error>, ghost item: Item)
      requires r.Valid() && |items| == 3
      modifies this`Nonce, r`pos
      ensures r.Valid()
      ensures var l, s := VersionLayout(memory), old(r.Rest());
        && (err.Some? <==> |s| < 8)
        && (err.Some? ==> Parse(l, items, s) == Err(err.value, r.Rest()))
        && (err.None? ==>
              && r.Rest() == s[8..] && item == Fields([s[..8]])
              && Parse(l, items, s) == Parse(l, [items[0], items[1], items[2], item], s[8..]))
        && Nonce == if |s| < 8 then old(Nonce) else AsU64(s[..8])
    {
      hide Parse, Collected, NextOp, ReadFields, AsU64;
      ghost var l, s := VersionLayout(memory), r.Rest();
      VersionLayoutIs(memory, items);
      OneField(8, s);
      ParseFixed(l, items, s, [8]);
      var fields;
      fields, err := ReadElements(r, [8]);
      item := Fields(fields);
      if err.Some? { return; }
      assert items + [item] == [items[0], items[1], items[2], item];
      Nonce := AsU64(fields[0]);
    }

    /** Both addresses. */
    method DecodeAddresses(r: Reader, ghost memory: nat, ghost head: Item)
      returns (err: Option<Error>, ghost you: Item, ghost me: Item)
      requires Valid() && r.Valid()
      modifies AddrYou, AddrMe, r`pos
      ensures r.Valid()
      ensures var l, s := VersionLayout(memory), old(r.Rest());
        && (err.Some? <==> |s| < 52)
        && (err.Some? ==> Parse(l, [head], s) == Err(err.value, r.Rest()))
        && (err.None? ==>
              && r.Rest() == s[52..] && Parse(l, [head], s) == Parse(l, [head, you, me], s[52..])
              && AddrYou.Value() == AddressOfItem(you) && AddrMe.Value() == AddressOfItem(me))
        && AddrYou.Value() == (if |s| < 26 then old(AddrYou.Value()) else AddressIn(s[..26]))
        && AddrMe.Value() == if |s| < 52 then old(AddrMe.Value()) else AddressIn(s[26..52])
    {
      hide Parse, NextOp, AddressIn, AddressOfItem;
      ghost var l, s := VersionLayout(memory), r.Rest();
      me := head;
      VersionLayoutIs(memory, [head]);
      err, you := DecodeAddress(r, AddrYou, l, [head]);
      if err.Some? { return; }
      assert [head] + [you] == [head, you];
      VersionLayoutIs(memory, [head, you]);
      SliceOfDrop(s, 26, 26, 0);
      err, me := DecodeAddress(r, AddrMe, l, [head, you]);
      assert [head, you] + [me] == [head, you, me];
    }

    /** The first call of Decode: three fields, each assigned if it is read - but the time only if all are. */
    method DecodeHead(r: Reader, ghost memory: nat) returns (err: Option<Error>, ghost item: Item)
      requires r.Valid()
      modifies this`ProtocolVersion, this`Services, this`Timestamp, r`pos
      ensures r.Valid()
      ensures var l, s := VersionLayout(memory), old(r.Rest());
        && (err.Some? <==> |s| < 20)
        && (err.Some? ==> Parse(l, [], s) == Err(err.value, r.Rest()))
        && (err.None? ==>
              && r.Rest() == s[20..] && item == Fields([s[..4], s[4..12], s[12..20]])
              && Parse(l, [], s) == Parse(l, [item], s[20..]))
        && ProtocolVersion == (if |s| < 4 then old(ProtocolVersion) else AsI32(s[..4]))
        && Services == (if |s| < 12 then old(Services) else AsU64(s[4..12]))
        && Timestamp == if |s| < 20 then old(Timestamp) else AsI64(s[12..20])
    {
      hide Parse, Collected, NextOp, ReadFields, FieldsRead, AsI32, AsU64, AsI64;
      ghost var s := r.Rest();
      VersionLayoutIs(memory, []);
      ParseFixed(VersionLayout(memory), [], s, [4, 8, 8]);
      ThreeSlices(4, 8, 8, s);
      var fields;
      fields, err := ReadElements(r, [4, 8, 8]);
      item := Fields(fields);
      if |fields| > 0 { ProtocolVersion := AsI32(fields[0]); }
      if |fields| > 1 { Services := AsU64(fields[1]); }
      if err.Some? { return; }
      Timestamp := AsI64(fields[2]);
      assert [] + [item] == [item];
    }

    /** One of the two addresses, assigned if it is read. */
    method DecodeAddress(r: Reader, na: NetAddress, ghost l: Layout, ghost items: seq<Item>)
      returns (err: Option<Error>, ghost item: Item)
      requires r.Valid() && NextOp(l, items, |items|) == Expect(Fixed([8, 16, 2]))
      modifies na, r`pos
      ensures r.Valid()
      ensures var s := old(r.Rest());
        && (err.Some? <==> |s| < 26)
        && (err.Some? ==> Parse(l, items, s) == Err(err.value, r.Rest()) && na.Value() == old(na.Value()))
        && (err.None? ==>
              && r.Rest() == s[26..] && Parse(l, items, s) == Parse(l, items + [item], s[26..])
              && na.Value() == AddressIn(s[..26]) == AddressOfItem(item))
    {
      hide Parse, Collected, NextOp, ReadFields, AsU64, AsU16;
      ghost var s := r.Rest();
      ParseFixed(l, items, s, [8, 16, 2]);
      ThreeSlices(8, 16, 2, s);
      if |s| >= 26 { SlicesOfTake(s); }
      item := Fields([s[..Min(8, |s|)], s[Min(8, |s|)..Min(24, |s|)], s[Min(24, |s|)..Min(26, |s|)]]);
      err := ReadNetAddress(r, na, false);
    }

    /** The stream numbers: a count, an allocation, and a loop of varints. */
    method DecodeStreams(r: Reader, memory: nat, ghost start: seq<Item>) returns (err: Option<Error>)
      requires r.Valid() && |start| == 5 && |start[4].Str()| <= MAX_USER_AGENT_LEN
      modifies this`StreamNumbers, r`pos
      ensures r.Valid()
      ensures var run := Parse(VersionLayout(memory), start, old(r.Rest()));
        && r.Rest() == run.rest
        && (run.Ok? ==> err.None? && start <= run.value && StreamNumbers == StreamsFrom(run.value))
        && (run.Err? ==> err == Some(run.error))
      ensures StreamNumbers == StreamsAfter(memory, old(StreamNumbers), old(r.Rest()))
    {
      hide Parse, NextOp, ReadVarInt, NumbersIn, StreamsFrom, ZeroNumbers;
      ghost var l, s := VersionLayout(memory), r.Rest();
      VersionLayoutIs(memory, start);
      ParseNumber(l, start, s);
      var streamLen;
      streamLen, err := ReadUvarint(r);
      if err.Some? { return; }
      ghost var head := start + [Number(streamLen)];
      VersionLayoutIs(memory, head);
      ParseStops(l, head, r.Rest());
      if !Allocatable(memory, streamLen, 8) {
        return Some(Panic);
      }
      StreamNumbers := ZeroNumbers(streamLen);
      err := ReadStreams(r, streamLen, memory, head);
    }

    method ReadStreams(r: Reader, streamLen: u64, ghost memory: nat, ghost head: seq<Item>)
      returns (err: Option<Error>)
      requires r.Valid() && |head| == 6 && head[5] == Number(streamLen) && Allocatable(memory, streamLen, 8)
      requires StreamNumbers == ZeroNumbers(streamLen)
      modifies this`StreamNumbers, r`pos
      ensures r.Valid()
      ensures var run := Parse(VersionLayout(memory), head, old(r.Rest()));
        && r.Rest() == run.rest
        && (run.Ok? ==> err.None? && head <= run.value && StreamNumbers == StreamsFrom(run.value))
        && (run.Err? ==> err == Some(run.error))
      ensures var vs := NumbersIn(streamLen, old(r.Rest()));
        StreamNumbers == vs + ZeroNumbers(streamLen - |vs|)
    {
      hide Parse, NextOp, ReadVarInt, NumbersIn, StreamsFrom, ZeroNumbers, WithNumbers, PartlyRead, Continued;
      ghost var l, s := VersionLayout(memory), r.Rest();
      ghost var vs := [];
      NoNumbers(head, streamLen, s);
      var i := 0;
      while i < streamLen
        invariant i == |vs| <= streamLen && r.Valid() && |StreamNumbers| == streamLen
        invariant StreamNumbers == PartlyRead(vs, streamLen)
        invariant NumbersIn(streamLen, s) == Continued(vs, streamLen, r.Rest())
        invariant Parse(l, head, s) == Parse(l, WithNumbers(head, vs), r.Rest())
      {
        StreamStep(memory, head, vs, r.Rest());
        var v;
        v, err := ReadUvarint(r);
        ZeroFilled(vs, streamLen, v);
        StreamNumbers := StreamNumbers[i := v];
        if err.Some? { return; }
        vs := vs + [v];
        i := i + 1;
      }
      StreamsEnd(memory, head, vs, r.Rest());
      return None;
    }

    method Encode(w: Writer) returns (err: Option<Error>)
      requires w.Valid()
      modifies w`out
      ensures w.Valid()
      ensures (w.State(), err) == PourEncoding(VersionEncoding(Value()), old(w.State()))
    {
      hide Pour, PourItems, AddressFields, I32Field, U64Field, I64Field, VersionHead;
      err := ValidateUserAgent(UserAgent);
      if err.Some? {
        PourEnds([], w.State());
        return;
      }
      ghost var m := Value();
      PourEncodingAppend(VersionHead(m), Numbers(m.streams), None, w.State());
      err := EncodeHead(w);
      if err.Some? { return; }
      ghost var items, before := Numbers(m.streams), w.State();
      var i := 0;
      while i < |StreamNumbers|
        invariant i <= |StreamNumbers| && w.Valid() && m == Value()
        invariant PourItems(items, 0, before) == PourItems(items, i, w.State())
      {
        PourStep(items, i, w.State());
        err := WriteVarInt(w, StreamNumbers[i]);
        if err.Some? { return; }
        i := i + 1;
      }
      PourEnds(items, w.State());
      return None;
    }

    method EncodeHead(w: Writer) returns (err: Option<Error>)
      requires w.Valid()
      modifies w`out
      ensures w.Valid()
      ensures (w.State(), err) == PourItems(VersionHead(Value()), 0, old(w.State()))
    {
      hide Pour, PourItems, AddressFields, I32Field, U64Field, I64Field;
      ghost var items := VersionHead(Value());
      PourStep(items, 0, w.State());
      err := WriteElements(w, [I32Field(ProtocolVersion), U64Field(Services), I64Field(Timestamp)]);
      if err.Some? { return; }
      PourStep(items, 1, w.State());
      err := WriteNetAddress(w, AddrYou, false);
      if err.Some? { return; }
      PourStep(items, 2, w.State());
      err := WriteNetAddress(w, AddrMe, false);
      if err.Some? { return; }
      PourStep(items, 3, w.State());
      err := WriteElements(w, [U64Field(Nonce)]);
      if err.Some? { return; }
      PourStep(items, 4, w.State());
      err := WriteVarString(w, UserAgent);
      if err.Some? { return; }
      PourStep(items, 5, w.State());
      err := WriteVarInt(w, |StreamNumbers|);
      PourEnds(items, w.State());
    }
  }
}
