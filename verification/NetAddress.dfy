/** Peer addresses: readNetAddress and writeNetAddress. */
module NetAddresses {
  import opened Octets
  import opened Wire
  import opened Stream

  /** The fields of a NetAddress. A time is its Unix second; a nil IP is the empty one. */
  datatype NetAddr = NetAddr(timestamp: i64, services: u64, ip: seq<byte>, port: u16)

  /** time.Time{}.Unix(): the first second of year 1. */
  const ZERO_TIME: i64 := -62135596800

  const ZERO_ADDRESS := NetAddr(ZERO_TIME, 0, [], 0)

  /** net.IP.To16: a 4-byte address as its IPv4-mapped form (section 2.5.5.2 of RFC 4291), a
    * 16-byte address unchanged, nil otherwise. */
  function To16(ip: seq<byte>): Option<seq<byte>> {
    if |ip| == 4 then Some(Zeros(10) + [0xff, 0xff] + ip)
    else if |ip| == 16 then Some(ip)
    else None
  }

  /** The 16 bytes an IP is written as. */
  function WireIP(ip: seq<byte>): (b: seq<byte>)
    ensures |b| == 16
  {
    match To16(ip) case None => Zeros(16) case Some(b) => b
  }

  function AddressWidths(ts: bool): seq<nat> {
    if ts then [4, 8, 16, 2] else [8, 16, 2]
  }

  /** The fields written for an address. */
  function AddressFields(a: NetAddr, ts: bool): (fields: seq<seq<byte>>)
    ensures Widths(fields) == AddressWidths(ts)
  {
    PowValues();
    var stamp := if ts then [U32Field(Unsigned(a.timestamp, 4))] else [];
    stamp + [U64Field(a.services), WireIP(a.ip), U16Field(a.port)]
  }

  /** The address that was read as these fields. */
  function AddressOf(fields: seq<seq<byte>>, ts: bool): NetAddr
    requires Widths(fields) == AddressWidths(ts)
  {
    var skip := if ts then 1 else 0;
    NetAddr(if ts then AsU32(fields[0]) else ZERO_TIME,
            AsU64(fields[skip]), fields[skip + 1], AsU16(fields[skip + 2]))
  }

  lemma FieldWidth(fields: seq<seq<byte>>, widths: seq<nat>, i: nat)
    requires Widths(fields) == widths && i < |widths|
    ensures |fields[i]| == widths[i]
  {
    assert Widths(fields)[i] == |fields[i]|;
  }

  lemma ThreeWidths(fields: seq<seq<byte>>, a: nat, b: nat, c: nat)
    requires Widths(fields) == [a, b, c]
    ensures |fields| == 3 && |fields[0]| == a && |fields[1]| == b && |fields[2]| == c
  {
    FieldWidth(fields, [a, b, c], 0);
    FieldWidth(fields, [a, b, c], 1);
    FieldWidth(fields, [a, b, c], 2);
  }

  lemma ThreeFields(fields: seq<seq<byte>>, a: seq<byte>, b: seq<byte>, c: seq<byte>)
    requires |fields| == 3 && fields[0] == a && fields[1] == b && fields[2] == c
    ensures fields == [a, b, c]
  {
  }

  /** What survives being written and read: the services and port always; the time modulo 2^32
    * when it is sent, so exactly when it is not negative and before 2106, and not at all
    * otherwise; a 4-byte IP as its mapped form, a 16-byte IP, and zeros for anything else. */
  lemma AddressRoundTrip(a: NetAddr, ts: bool, t: seq<byte>)
    ensures var r := ReadFields(AddressWidths(ts), Concat(AddressFields(a, ts)) + t);
      && r.Ok? && r.rest == t && Widths(r.value) == AddressWidths(ts)
      && AddressOf(r.value, ts) ==
         NetAddr(if ts then a.timestamp % 0x1_0000_0000 else -62135596800, a.services,
                 if |a.ip| == 4 then Zeros(10) + [0xff, 0xff] + a.ip else if |a.ip| == 16 then a.ip else Zeros(16),
                 a.port)
      && AddressOf(r.value, ts) == NetAddr(if ts then a.timestamp % 0x1_0000_0000 else ZERO_TIME,
                                           a.services, WireIP(a.ip), a.port)
      && (ts ==> (AddressOf(r.value, ts).timestamp == a.timestamp <==> 0 <= a.timestamp < 0x1_0000_0000))
      && (AddressOf(r.value, ts).ip == a.ip <==> |a.ip| == 16)
  {
    PowValues();
    ReadFieldsOfConcat(AddressFields(a, ts), t);
    UnsignedFields(a.port, Unsigned(a.timestamp, 4), a.services, []);
  }

  /** A 4-byte IP mapped into 16 bytes, a 16-byte IP as it is, and zeros for any other. */
  function SixteenBytes(ip: seq<byte>): seq<byte> {
    if |ip| == 4 then [0, 0, 0, 0, 0, 0, 0, 0, 0, 0, 255, 255] + ip
    else if |ip| == 16 then ip
    else [0, 0, 0, 0, 0, 0, 0, 0, 0, 0, 0, 0, 0, 0, 0, 0]
  }

  lemma IPOnTheWire(ip: seq<byte>)
    ensures WireIP(ip) == SixteenBytes(ip)
  {
  }

  /** The bytes of an address: the time in four bytes if it is sent, the services in eight, the IP in
    * sixteen and the port in two, numbers big end first. */
  lemma AddressBytes(a: NetAddr, ts: bool)
    ensures Concat(AddressFields(a, ts)) ==
      (if ts then PutBig(a.timestamp % 0x1_0000_0000, 4) else [])
      + (PutBig(a.services, 8) + (SixteenBytes(a.ip) + PutBig(a.port, 2)))
  {
    PowValues();
    IPOnTheWire(a.ip);
    var body := [U64Field(a.services), WireIP(a.ip), U16Field(a.port)];
    ConcatOfThree(body[0], body[1], body[2]);
    if ts {
      assert AddressFields(a, ts)[1..] == body;
    } else {
      assert AddressFields(a, ts) == body;
    }
    hide PutBig, SixteenBytes;
  }

  /** The fields read are the fields that writing the address gives. */
  lemma FieldsOfAddress(fields: seq<seq<byte>>, ts: bool)
    requires Widths(fields) == AddressWidths(ts)
    ensures AddressFields(AddressOf(fields, ts), ts) == fields
  {
    var skip := if ts then 1 else 0;
    FieldWidth(fields, AddressWidths(ts), 0);
    FieldWidth(fields, AddressWidths(ts), skip);
    FieldWidth(fields, AddressWidths(ts), skip + 1);
    FieldWidth(fields, AddressWidths(ts), skip + 2);
    UnsignedFields(0, 0, 0, fields[0]);
    UnsignedFields(0, 0, 0, fields[skip]);
    UnsignedFields(0, 0, 0, fields[skip + 2]);
    UnsignedOfSmall(AsU32(fields[0]));
    hide U16Field, U32Field, U64Field, AsU16, AsU32, AsU64, Unsigned, Widths;
    var again := AddressFields(AddressOf(fields, ts), ts);
    assert |again| == |fields| == |AddressWidths(ts)|;
    assert forall i | 0 <= i < |again| :: again[i] == fields[i];
  }

  lemma UnsignedOfSmall(x: u32)
    ensures Unsigned(x, 4) == x
  {
    PowValues();
    DivisionIsUnique(x, Pow256(4), 0, x);
  }

  class NetAddress {
    var Timestamp: i64
    var Services: u64
    var IP: seq<byte>
    var Port: u16

    ghost function Value(): NetAddr
      reads this
    {
      NetAddr(Timestamp, Services, IP, Port)
    }

    constructor ()
      ensures Value() == ZERO_ADDRESS
    {
      Timestamp, Services, IP, Port := ZERO_TIME, 0, [], 0;
    }

    constructor From(a: NetAddr)
      ensures Value() == a
    {
      Timestamp, Services, IP, Port := a.timestamp, a.services, a.ip, a.port;
    }

    method Get() returns (a: NetAddr)
      ensures a == Value()
    {
      a := NetAddr(Timestamp, Services, IP, Port);
    }

    method SetAddress(ip: seq<byte>, port: u16)
      modifies this
      ensures Value() == old(Value()).(ip := ip, port := port)
    {
      IP := ip;
      Port := port;
    }
  }

  /** A read in two parts. */
  lemma SplitRead(v: seq<nat>, w: seq<nat>, s: seq<byte>)
    ensures var first := ReadFields(v, s);
      && (first.Err? ==> ReadFields(v + w, s) == first)
      && (first.Ok? ==>
            var second := ReadFields(w, first.rest);
            && (second.Err? ==> ReadFields(v + w, s) == second)
            && (second.Ok? ==> ReadFields(v + w, s) == Ok(first.value + second.value, second.rest)))
  {
    ReadFieldsConcat(v, w, s);
  }

  lemma AddressOfParts(stamp: seq<seq<byte>>, body: seq<seq<byte>>, ts: bool)
    requires Widths(stamp) == (if ts then [4] else []) && Widths(body) == [8, 16, 2]
    ensures Widths(stamp + body) == AddressWidths(ts)
    ensures AddressOf(stamp + body, ts) ==
      NetAddr(if ts then AsU32(stamp[0]) else ZERO_TIME, AsU64(body[0]), body[1], AsU16(body[2]))
  {
    assert ts ==> Widths(stamp)[0] == 4;
    assert Widths(body)[0] == 8 && Widths(body)[1] == 16 && Widths(body)[2] == 2;
    assert forall i | 0 <= i < |AddressWidths(ts)| :: Widths(stamp + body)[i] == AddressWidths(ts)[i];
  }

  /** The part of an address every message has: services and IP in one call, then the port. */
  method ReadServicesIPPort(r: Reader) returns (body: seq<seq<byte>>, err: Option<Error>)
    requires r.Valid()
    modifies r`pos
    ensures r.Valid()
    ensures Agrees(ReadFields([8, 16, 2], old(r.Rest())), body, err, r.Rest())
  {
    assert [8, 16] + [2] == [8, 16, 2];
    SplitRead([8, 16], [2], r.Rest());
    body, err := ReadElements(r, [8, 16]);
    if err.Some? { return; }
    var last;
    last, err := ReadElements(r, [2]);
    body := body + last;
  }

  /** readNetAddress: a failed read changes nothing in the target. */
  method ReadNetAddress(r: Reader, na: NetAddress, ts: bool) returns (err: Option<Error>)
    requires r.Valid()
    modifies r`pos, na
    ensures r.Valid()
    ensures var run := ReadFields(AddressWidths(ts), old(r.Rest()));
      && r.Rest() == run.rest
      && (run.Err? ==> err == Some(run.error) && na.Value() == old(na.Value()))
      && (run.Ok? ==> err.None? && Widths(run.value) == AddressWidths(ts) && na.Value() == AddressOf(run.value, ts))
  {
    ghost var first: seq<nat> := if ts then [4] else [];
    assert first + [8, 16, 2] == AddressWidths(ts);
    SplitRead(first, [8, 16, 2], r.Rest());
    var stamp: seq<seq<byte>> := [];
    if ts {
      FieldsWhenRead([4], r.Rest());
      stamp, err := ReadElements(r, [4]);
      if err.Some? { return; }
    }
    FieldsWhenRead([8, 16, 2], r.Rest());
    var body;
    body, err := ReadServicesIPPort(r);
    if err.Some? { return; }
    AddressOfParts(stamp, body, ts);
    na.Timestamp := if ts then AsU32(stamp[0]) else ZERO_TIME;
    na.Services := AsU64(body[0]);
    na.SetAddress(body[1], AsU16(body[2]));
  }

  lemma FieldsWhenRead(widths: seq<nat>, s: seq<byte>)
    ensures ReadFields(widths, s).Ok? ==> Widths(ReadFields(widths, s).value) == widths
  {
    if ReadFields(widths, s).Ok? { FieldsAreConsumed(widths, s); }
  }

  /** writeNetAddress. */
  method WriteNetAddress(w: Writer, na: NetAddress, ts: bool) returns (err: Option<Error>)
    requires w.Valid()
    modifies w`out
    ensures w.Valid()
    ensures (w.State(), err) == Pour(AddressFields(na.Value(), ts), old(w.State()))
  {
    PowValues();
    ghost var s := w.State();
    ghost var stamp := [U32Field(Unsigned(na.Timestamp, 4))];
    var ip := WireIP(na.IP);
    ghost var body := [U64Field(na.Services), ip];
    ghost var last := [U16Field(na.Port)];
    if ts {
      assert AddressFields(na.Value(), ts) == stamp + (body + last);
      PourAppend(stamp, body + last, s);
      err := WriteElements(w, [U32Field(Unsigned(na.Timestamp, 4))]);
      if err.Some? { return; }
    } else {
      assert AddressFields(na.Value(), ts) == body + last;
    }
    PourAppend(body, last, w.State());
    err := WriteElements(w, [U64Field(na.Services), ip]);
    if err.Some? { return; }
    err := WriteElements(w, [U16Field(na.Port)]);
  }
}
