/** The getpubkey object: two layouts, chosen by the version. */
module GetPubKeys {
  import opened Octets
  import opened Wire
  import opened Grammar
  import opened Stream
  import opened NetAddresses
  import opened Objects

  /** The fields of a MsgGetPubKey; ripe and tag may be nil. */
  datatype GetPubKey = GetPubKey(
    nonce: u64, expires: i64, objectType: u32, version: u64, stream: u64,
    ripe: Option<RipeHash>, tag: Option<ShaHash>)

  const NO_GETPUBKEY := GetPubKey(0, ZERO_TIME, 0, 0, 0, None, None)
  const TAG_BASED_RIPE_VERSION: u64 := 4
  const GETPUBKEY_LAYOUT := Layout(GetPubKeyKind, 0)

  function GetPubKeyEncoding(m: GetPubKey): Encoding {
    var head := StartItems(Start(m.nonce, m.expires, m.objectType, m.version, m.stream));
    var last: Option<seq<byte>> := if m.version >= TAG_BASED_RIPE_VERSION then m.tag else m.ripe;
    match last
    case None => Encoding(head + [], Some(Panic))
    case Some(h) => Encoding(head + [Fields([h])], None)
  }

  /** The receiver m after a payload of these items was decoded into it. */
  function GetPubKeyFrom(m: GetPubKey, items: seq<Item>): GetPubKey {
    var head, last := At(items, 0), At(items, 3).Field(0);
    var n := m.(nonce := AsU64(head.Field(0)), expires := AsI64(head.Field(1)), objectType := AsU32(head.Field(2)),
                version := At(items, 1).Num(), stream := At(items, 2).Num());
    if n.version >= TAG_BASED_RIPE_VERSION then n.(tag := Some(AsSha(last))) else n.(ripe := Some(AsRipe(last)))
  }

  function DecodeGetPubKey(m: GetPubKey, s: seq<byte>): Run<GetPubKey> {
    match Parse(GETPUBKEY_LAYOUT, [], s)
    case Err(e, t) => Err(e, t)
    case Ok(items, t) => Ok(GetPubKeyFrom(m, items), t)
  }

  // ---------- laws ----------

  /** Every complete item list is the encoding of the message it decodes to, whatever the receiver. */
  lemma GetPubKeyReencodes(m: GetPubKey, items: seq<Item>)
    requires Conforms(GETPUBKEY_LAYOUT, items)
    ensures !EndsWithTail(GETPUBKEY_LAYOUT, items)
    ensures GetPubKeyEncoding(GetPubKeyFrom(m, items)) == Encoding(items, None)
  {
    var l := GETPUBKEY_LAYOUT;
    assert |items| >= 4;
    EndsWhereDone(l, items, 4);
    assert NextOp(l, items, 0).Expect? && NextOp(l, items, 3).Expect?;
    HeaderOfFields(items[0].fields);
    FieldWidth(items[3].fields, [if items[1].number >= 4 then 32 else 20], 0);
    assert items[3].fields == [items[3].fields[0]];
    assert items == [items[0], items[1], items[2]] + [items[3]];
  }

  /** Encoding, then decoding: the message comes back with the fields of its own layout, the
    * other layout's field keeping the receiver's value - unless its object type is not the
    * getpubkey type, which Encode writes all the same and Decode then refuses. */
  lemma GetPubKeyRoundTrip(into: GetPubKey, m: GetPubKey, t: seq<byte>)
    requires GetPubKeyEncoding(m).fault.None?
    ensures Conforms(GETPUBKEY_LAYOUT, GetPubKeyEncoding(m).items) <==> m.objectType == GETPUBKEY_TYPE
    ensures DecodeGetPubKey(into, Print(GetPubKeyEncoding(m).items) + t) ==
      if m.objectType == GETPUBKEY_TYPE then
        Ok(if m.version >= TAG_BASED_RIPE_VERSION then m.(ripe := into.ripe) else m.(tag := into.tag), t)
      else
        Err(MessageError(WrongObjectType), Print(GetPubKeyEncoding(m).items[1..]) + t)
  {
    hide Parse, Print, Conforms, EndsWithTail, ReadOp;
    var l, items := GETPUBKEY_LAYOUT, GetPubKeyEncoding(m).items;
    FieldsOfHeader(m.nonce, m.expires, m.objectType);
    if m.objectType == GETPUBKEY_TYPE {
      GetPubKeyConforms(m);
      ParseOfPrint(l, items, t);
    } else {
      WrongTypeIsRefused(l, items, t);
    }
  }

  lemma GetPubKeyConforms(m: GetPubKey)
    requires GetPubKeyEncoding(m).fault.None? && m.objectType == GETPUBKEY_TYPE
    ensures Conforms(GETPUBKEY_LAYOUT, GetPubKeyEncoding(m).items)
    ensures !EndsWithTail(GETPUBKEY_LAYOUT, GetPubKeyEncoding(m).items)
  {
    var l, items := GETPUBKEY_LAYOUT, GetPubKeyEncoding(m).items;
    FieldsOfHeader(m.nonce, m.expires, m.objectType);
    assert Widths(items[3].fields) == [if m.version >= TAG_BASED_RIPE_VERSION then 32 else 20];
    assert forall i | 0 <= i < 4 :: NextOp(l, items, i).Expect? && Matches(NextOp(l, items, i).op, items[i]);
  }

  /** An accepted payload re-encodes into no more bytes, which decode to the same message. */
  lemma GetPubKeyNormalises(into: GetPubKey, s: seq<byte>, t: seq<byte>)
    requires DecodeGetPubKey(into, s).Ok?
    ensures var r := DecodeGetPubKey(into, s);
      var e := GetPubKeyEncoding(r.value);
      e.fault.None? && |Print(e.items)| <= |s| - |r.rest| && DecodeGetPubKey(into, Print(e.items) + t) == Ok(r.value, t)
  {
    var items := Parse(GETPUBKEY_LAYOUT, [], s).value;
    ParseConforms(GETPUBKEY_LAYOUT, s);
    GetPubKeyReencodes(into, items);
    Normalise(GETPUBKEY_LAYOUT, s, t);
  }

  lemma GetPubKeyTyped(into: GetPubKey, s: seq<byte>)
    requires DecodeGetPubKey(into, s).Ok?
    ensures DecodeGetPubKey(into, s).value.objectType == GETPUBKEY_TYPE
  {
    GetPubKeyNormalises(into, s, []);
    GetPubKeyRoundTrip(into, DecodeGetPubKey(into, s).value, []);
  }

  /** After the start: one field, whose width the version chooses, and the end. */
  lemma GetPubKeyLastField(m: GetPubKey, o: Start, fields: seq<seq<byte>>)
    requires o.objectType == GETPUBKEY_TYPE && |fields| == 1
    ensures var items := StartItems(o);
      && NextOp(GETPUBKEY_LAYOUT, items, 3) == Expect(Fixed([if o.version >= TAG_BASED_RIPE_VERSION then 32 else 20]))
      && NextOp(GETPUBKEY_LAYOUT, items + [Fields(fields)], 4).Done?
      && GetPubKeyFrom(m, items + [Fields(fields)]) ==
         if o.version >= TAG_BASED_RIPE_VERSION
         then GetPubKey(o.nonce, o.expires, o.objectType, o.version, o.stream, m.ripe, Some(AsSha(fields[0])))
         else GetPubKey(o.nonce, o.expires, o.objectType, o.version, o.stream, Some(AsRipe(fields[0])), m.tag)
  {
    FieldsOfHeader(o.nonce, o.expires, o.objectType);
  }

  /** The receiver after decoding from s, whether or not that succeeded: its start as far as it was
    * read, and then a hash that what there is of it was read into. */
  function GetPubKeyAfter(m: GetPubKey, s: seq<byte>): GetPubKey {
    var o := StartAfter(Start(m.nonce, m.expires, m.objectType, m.version, m.stream), GETPUBKEY_TYPE, s);
    var n := GetPubKey(o.nonce, o.expires, o.objectType, o.version, o.stream, m.ripe, m.tag);
    var start := ReadStart(GETPUBKEY_TYPE, s);
    if start.Err? then n
    else if o.version >= TAG_BASED_RIPE_VERSION then n.(tag := Some(Filled(HASH_SIZE, start.rest)))
    else n.(ripe := Some(Filled(RIPE_HASH_SIZE, start.rest)))
  }

  /** The decoder's stages: the start, then one full read. If they succeed the receiver is the
    * message decoded. */
  lemma GetPubKeyRun(m: GetPubKey, s: seq<byte>)
    ensures var start, run := ReadStart(GETPUBKEY_TYPE, s), DecodeGetPubKey(m, s);
      var o := Start(m.nonce, m.expires, m.objectType, m.version, m.stream);
      && (start.Err? ==> run == Err(start.error, start.rest))
      && (start.Ok? ==>
            && start.value == StartAfter(o, GETPUBKEY_TYPE, s)
            && var last := ReadFull(if start.value.version >= TAG_BASED_RIPE_VERSION then 32 else 20, start.rest);
               run == if last.Err? then Err(last.error, last.rest) else Ok(GetPubKeyAfter(m, s), last.rest))
  {
    hide Parse, Collected, ReadFields, ReadStart, NextOp, GetPubKeyFrom, StartItems, StartAfter;
    var l, start := GETPUBKEY_LAYOUT, ReadStart(GETPUBKEY_TYPE, s);
    ObjectStart(l, GETPUBKEY_TYPE, s);
    StartAfterSuccess(Start(m.nonce, m.expires, m.objectType, m.version, m.stream), GETPUBKEY_TYPE, s);
    if start.Ok? {
      var items, t := StartItems(start.value), start.rest;
      var size := if start.value.version >= TAG_BASED_RIPE_VERSION then 32 else 20;
      GetPubKeyLastField(m, start.value, [[]]);
      ParseFixed(l, items, t, [size]);
      OneField(size, t);
      if |t| >= size {
        GetPubKeyLastField(m, start.value, [t[..size]]);
        ParseStops(l, items + [Fields([t[..size]])], t[size..]);
      }
    }
  }

  class MsgGetPubKey {
    var Nonce: u64
    var ExpiresTime: i64
    var ObjectType: u32
    var Version: u64
    var StreamNumber: u64
    var Ripe: Option<RipeHash>
    var Tag: Option<ShaHash>

    ghost function Value(): GetPubKey
      reads this
    {
      GetPubKey(Nonce, ExpiresTime, ObjectType, Version, StreamNumber, Ripe, Tag)
    }

    constructor (m: GetPubKey)
      ensures Value() == m
    {
      Nonce, ExpiresTime, ObjectType, Version, StreamNumber, Ripe, Tag :=
        m.nonce, m.expires, m.objectType, m.version, m.stream, m.ripe, m.tag;
    }

    method Get() returns (m: GetPubKey)
      ensures m == Value()
    {
      m := GetPubKey(Nonce, ExpiresTime, ObjectType, Version, StreamNumber, Ripe, Tag);
    }

    method Decode(r: Reader) returns (err: Option<Error>)
      requires r.Valid()
      modifies this, r`pos
      ensures r.Valid()
      ensures var run := DecodeGetPubKey(old(Value()), old(r.Rest()));
        && r.Rest() == run.rest
        && (run.Ok? ==> err.None? && Value() == run.value)
        && (run.Err? ==> err == Some(run.error))
      ensures Value() == GetPubKeyAfter(old(Value()), old(r.Rest()))
    {
      hide DecodeGetPubKey, ReadStart, StartAfter, Wire.ReadFull, Filled;
      GetPubKeyRun(Value(), r.Rest());
      var start;
      start, err := ReadObjectStart(r, GETPUBKEY_TYPE, Start(Nonce, ExpiresTime, ObjectType, Version, StreamNumber));
      Nonce, ExpiresTime, ObjectType := start.nonce, start.expires, start.objectType;
      Version, StreamNumber := start.version, start.stream;
      if err.Some? { return; }
      var hash;
      if Version >= TAG_BASED_RIPE_VERSION {
        hash, err := ReadArray(r, HASH_SIZE);
        Tag := Some(hash);
      } else {
        hash, err := ReadArray(r, RIPE_HASH_SIZE);
        Ripe := Some(hash);
      }
    }

    method Encode(w: Writer) returns (err: Option<Error>)
      requires w.Valid()
      modifies w`out
      ensures w.Valid()
      ensures (w.State(), err) == PourEncoding(GetPubKeyEncoding(Value()), old(w.State()))
    {
      hide Pour, PourItems, PourEncoding, StartItems;
      var start := Start(Nonce, ExpiresTime, ObjectType, Version, StreamNumber);
      var last: Option<seq<byte>> := if Version >= TAG_BASED_RIPE_VERSION then Tag else Ripe;
      ghost var e := GetPubKeyEncoding(Value());
      ghost var items := if last.None? then [] else [Fields([last.value])];
      assert e == Encoding(StartItems(start) + items, e.fault);
      PourEncodingAppend(StartItems(start), items, e.fault, w.State());
      err := WriteObjectStart(w, start);
      if err.Some? { return; }
      PourBody(items, e.fault, w.State());
      if last.None? {
        return Some(Panic);
      }
      err := WriteElements(w, [last.value]);
    }
  }
}
