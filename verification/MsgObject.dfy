/** What the objects - getpubkey and pubkey - have in common: nonce, expiry, type, version and stream. */
module Objects {
  import opened Octets
  import opened Wire
  import opened Grammar
  import opened Stream
  import opened NetAddresses

  /** The fields every decoder of an object reads first. */
  datatype Start = Start(nonce: u64, expires: i64, objectType: u32, version: u64, stream: u64)

  /** What every object starts with. */
  function ObjectHeader(nonce: u64, expires: i64, objectType: u32): seq<seq<byte>> {
    [U64Field(nonce), I64Field(expires), U32Field(objectType)]
  }

  function StartItems(o: Start): (items: seq<Item>)
    ensures |items| == 3
  {
    [Fields(ObjectHeader(o.nonce, o.expires, o.objectType)), Number(o.version), Number(o.stream)]
  }

  function StartFrom(fields: seq<seq<byte>>, version: u64, stream: u64): Start
    requires |fields| == 3
  {
    Start(AsU64(fields[0]), AsI64(fields[1]), AsU32(fields[2]), version, stream)
  }

  function ReadStart(objectType: nat, s: seq<byte>): Run<Start> {
    match ReadFields([8, 8, 4], s)
    case Err(e, t) => Err(e, t)
    case Ok(fields, t) =>
      if AsU32(fields[2]) != objectType then Err(MessageError(WrongObjectType), t)
      else match ReadVarInt(t)
        case Err(e, u) => Err(e, u)
        case Ok(version, u) =>
          match ReadVarInt(u)
          case Err(e, v) => Err(e, v)
          case Ok(stream, v) => Ok(StartFrom(fields, version, stream), v)
  }

  // ---------- laws ----------

  lemma HeaderOfFields(fields: seq<seq<byte>>)
    requires Widths(fields) == [8, 8, 4]
    ensures ObjectHeader(AsU64(fields[0]), AsI64(fields[1]), AsU32(fields[2])) == fields
  {
    hide U32Field, U64Field, I64Field, AsU32, AsU64, AsI64, Widths;
    ThreeWidths(fields, 8, 8, 4);
    UnsignedFields(0, 0, 0, fields[0]);
    SignedFields(0, 0, fields[1]);
    UnsignedFields(0, 0, 0, fields[2]);
    ThreeFields(fields, U64Field(AsU64(fields[0])), I64Field(AsI64(fields[1])), U32Field(AsU32(fields[2])));
  }

  lemma FieldsOfHeader(nonce: u64, expires: i64, objectType: u32)
    ensures var h := ObjectHeader(nonce, expires, objectType);
      && Widths(h) == [8, 8, 4] && BigEndian(h[2]) == objectType
      && AsU64(h[0]) == nonce && AsI64(h[1]) == expires && AsU32(h[2]) == objectType
  {
    UnsignedFields(0, objectType, nonce, []);
    SignedFields(0, expires, []);
  }

  /** The type peeked at is the type written. */
  lemma PeekedType(o: Start, more: seq<Item>)
    ensures var p := Print(StartItems(o) + more);
      |p| >= 20 && AsU32(p[16..20]) == o.objectType
  {
    hide Print, U64Field, I64Field, U32Field, AsU32, AsU64, AsI64;
    var header := ObjectHeader(o.nonce, o.expires, o.objectType);
    var a, b, c := header[0], header[1], header[2];
    var items := StartItems(o) + more;
    assert items[0..] == items && Print(items) + [] == Print(items);
    PrintStep(items, 0, []);
    ConcatOfThree(a, b, c);
    var t := Print(items[1..]) + [];
    assert Print(items) == a + (b + c) + t;
    assert Print(items)[16..20] == c;
    FieldsOfHeader(o.nonce, o.expires, o.objectType);
  }

  /** An object whose type is not its decoder's is refused right after the header. */
  lemma WrongTypeIsRefused(l: Layout, items: seq<Item>, t: seq<byte>)
    requires l.kind.GetPubKeyKind? || l.kind.PubKeyKind?
    requires |items| > 0 && items[0].Fields? && Widths(items[0].fields) == [8, 8, 4]
    requires NextOp(l, items, 1) == Refuse(MessageError(WrongObjectType))
    ensures !Conforms(l, items)
    ensures Parse(l, [], Print(items) + t) == Err(MessageError(WrongObjectType), Print(items[1..]) + t)
  {
    var one := [items[0]];
    assert NextOp(l, [], 0) == Expect(Fixed([8, 8, 4]));
    PrintStep(items, 0, t);
    assert items[0..] == items && [] + one == one;
    ReadOpOfBytes(Fixed([8, 8, 4]), items[0], Print(items[1..]) + t);
    ParseStep(l, [], Print(items) + t, Fixed([8, 8, 4]));
    OnlyThePrefixMatters(l, one, items, 1);
  }

  /** The grammar of an object begins with the start its decoder reads. */
  lemma ObjectStart(l: Layout, objectType: nat, s: seq<byte>)
    requires || (l.kind.GetPubKeyKind? && objectType == GETPUBKEY_TYPE)
             || (l.kind.PubKeyKind? && objectType == PUBKEY_TYPE)
    ensures var r := ReadStart(objectType, s);
      && (r.Err? ==> Parse(l, [], s) == Err(r.error, r.rest))
      && (r.Ok? ==> r.value.objectType == objectType && Parse(l, [], s) == Parse(l, StartItems(r.value), r.rest))
  {
    hide Parse, ReadFields, ReadVarInt;
    ParseFixed(l, [], s, [8, 8, 4]);
    var head := ReadFields([8, 8, 4], s);
    if head.Err? { return; }
    FieldWidth(head.value, [8, 8, 4], 2);
    HeaderOfFields(head.value);
    var one := [Fields(head.value)];
    assert [] + one == one;
    if AsU32(head.value[2]) != objectType {
      ParseStops(l, one, head.rest);
      return;
    }
    ParseNumber(l, one, head.rest);
    var version := ReadVarInt(head.rest);
    if version.Err? { return; }
    var two := [Fields(head.value), Number(version.value)];
    assert one + [Number(version.value)] == two;
    ParseNumber(l, two, version.rest);
    var stream := ReadVarInt(version.rest);
    if stream.Ok? {
      assert two + [Number(stream.value)] == StartItems(StartFrom(head.value, version.value, stream.value));
    }
  }

  /** The start a receiver has after decoding from s, whether or not that succeeded: each field is
    * assigned as soon as it is read - the expiry only once the type is known to be right - and
    * a varint that cannot be read is assigned zero. */
  function StartAfter(o: Start, objectType: nat, s: seq<byte>): Start {
    if |s| < 8 then o
    else if |s| < 20 then o.(nonce := AsU64(s[..8]))
    else
      var n := o.(nonce := AsU64(s[..8]), objectType := AsU32(s[16..20]));
      if n.objectType != objectType then n
      else
        var version := ReadVarInt(s[20..]);
        if version.Err? then n.(expires := AsI64(s[8..16]), version := 0)
        else
          var stream := ReadVarInt(version.rest);
          n.(expires := AsI64(s[8..16]), version := version.value, stream := if stream.Ok? then stream.value else 0)
  }

  /** On success nothing of the receiver's former start is left. */
  lemma StartAfterSuccess(o: Start, objectType: nat, s: seq<byte>)
    ensures ReadStart(objectType, s).Ok? ==> StartAfter(o, objectType, s) == ReadStart(objectType, s).value
  {
    hide ReadFields, ReadVarInt, AsU64, AsI64, AsU32;
    ThreeSlices(8, 8, 4, s);
  }

  /** The assignments to a receiver's start while decoding, in the source's order: `before` is what
    * it was, `start` what it is on return. */
  method ReadObjectStart(r: Reader, objectType: nat, before: Start) returns (start: Start, err: Option<Error>)
    requires r.Valid()
    modifies r`pos
    ensures r.Valid()
    ensures Agrees(ReadStart(objectType, old(r.Rest())), start, err, r.Rest())
    ensures start == StartAfter(before, objectType, old(r.Rest()))
  {
    hide ReadFields, FieldsRead, ReadVarInt, AsU64, AsI64, AsU32;
    ThreeSlices(8, 8, 4, r.Rest());
    StartAfterSuccess(before, objectType, r.Rest());
    start := before;
    var fields;
    fields, err := ReadElements(r, [8, 8, 4]);
    if |fields| > 0 {
      start := start.(nonce := AsU64(fields[0]));
    }
    if err.Some? { return; }
    start := start.(objectType := AsU32(fields[2]));
    if start.objectType != objectType {
      return start, Some(MessageError(WrongObjectType));
    }
    start := start.(expires := AsI64(fields[1]));
    var version, stream;
    version, err := ReadUvarint(r);
    start := start.(version := version);
    if err.Some? { return; }
    stream, err := ReadUvarint(r);
    start := start.(stream := stream);
  }

  method WriteObjectStart(w: Writer, o: Start) returns (err: Option<Error>)
    requires w.Valid()
    modifies w`out
    ensures w.Valid()
    ensures (w.State(), err) == PourItems(StartItems(o), 0, old(w.State()))
  {
    hide Pour, PourItems;
    ghost var items := StartItems(o);
    PourStep(items, 0, w.State());
    err := WriteElements(w, ObjectHeader(o.nonce, o.expires, o.objectType));
    if err.Some? { return; }
    PourStep(items, 1, w.State());
    err := WriteVarInt(w, o.version);
    if err.Some? { return; }
    PourStep(items, 2, w.State());
    err := WriteVarInt(w, o.stream);
    PourEnds(items, w.State());
  }
}
