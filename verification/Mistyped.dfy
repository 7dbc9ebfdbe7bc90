/** Objects whose object type is not that of the message they are: Encode writes them all the same,
  * and the reader, which dispatches on what was written, takes them for something else. */
module Mistyped {
  import opened Octets
  import opened Wire
  import opened Grammar
  import opened Objects
  import opened GetPubKeys
  import opened PubKeys
  import opened Messages
  import opened Framing
  import opened FrameLaws
  import opened Sessions

  /** What an object says its type is. */
  function WrittenType(m: Message): u32
    requires m.GetPubKeyMessage? || m.PubKeyMessage?
  {
    if m.GetPubKeyMessage? then m.getPubKey.objectType else m.pubKey.objectType
  }

  /** A getpubkey read as a pubkey: with a tag, one with nothing encrypted. */
  function AsPubKey(g: GetPubKey): PubKeyObject {
    NO_PUBKEY.(nonce := g.nonce, expires := g.expires, objectType := g.objectType, version := g.version,
               stream := g.stream, tag := g.tag)
  }

  /** A pubkey read as a getpubkey: its tag, or the front of its keys for a ripe. */
  function AsGetPubKey(p: PubKeyObject): GetPubKey {
    var g := GetPubKey(p.nonce, p.expires, p.objectType, p.version, p.stream, None, None);
    if p.version >= TAG_BASED_RIPE_VERSION then g.(tag := p.tag)
    else g.(ripe := Some(AsRipe(U32Field(p.behavior) + if p.signingKey.Some? then p.signingKey.value[..16] else [])))
  }

  /** The message of the other type that the reader takes an object for; none if the bytes are too few. */
  function TakenFor(m: Message): Option<Message>
    requires m.GetPubKeyMessage? || m.PubKeyMessage?
  {
    if m.PubKeyMessage? then Some(GetPubKeyMessage(AsGetPubKey(m.pubKey)))
    else if m.getPubKey.version >= TAG_BASED_RIPE_VERSION then Some(PubKeyMessage(AsPubKey(m.getPubKey)))
    else None
  }

  // ---------- the other decoder ----------

  lemma TaggedGetPubKeyAsPubKey(memory: nat, g: GetPubKey)
    requires GetPubKeyEncoding(g).fault.None? && g.objectType == PUBKEY_TYPE && g.version >= TAG_BASED_RIPE_VERSION
    ensures DecodePubKey(memory, NO_PUBKEY, Print(GetPubKeyEncoding(g).items)) == Ok(AsPubKey(g), [])
  {
    hide Print, Parse, StartItems;
    var p, items := AsPubKey(g), GetPubKeyEncoding(g).items;
    PubKeyRoundTrip(memory, NO_PUBKEY, p, []);
    assert PubKeyEncoding(p).items == items + [Tail([])];
    PrintAppend(items, [Tail([])]);
    PrintOfOne(Tail([]));
    assert Print(items) + [] + [] == Print(items);
  }

  lemma RipeGetPubKeyAsPubKey(memory: nat, g: GetPubKey)
    requires GetPubKeyEncoding(g).fault.None? && g.objectType == PUBKEY_TYPE && g.version < TAG_BASED_RIPE_VERSION
    ensures DecodePubKey(memory, NO_PUBKEY, Print(GetPubKeyEncoding(g).items)) == Err(UnexpectedEOF, [])
  {
    hide Print, Parse, Collected, NextOp, StartItems;
    var l, ripe := PubKeyLayout(memory), g.ripe.value;
    var o := Start(g.nonce, g.expires, g.objectType, g.version, g.stream);
    PrintAppend(StartItems(o), [Fields([ripe])]);
    PrintOfOne(Fields([ripe]));
    ConcatOf1(ripe);
    assert StartItems(o)[..3] == StartItems(o);
    StartConforms(l, StartItems(o), o);
    ParseOfStarted(l, StartItems(o), ripe);
    PubKeyFourth(memory, o);
    ParseFixed(l, StartItems(o), ripe, [4, 64, 64]);
    KeysCutShort(ripe);
  }

  lemma KeysCutShort(ripe: RipeHash)
    ensures ReadFields([4, 64, 64], ripe) == Err(UnexpectedEOF, [])
  {
    assert [4, 64, 64][1..] == [64, 64];
    assert ReadFields([64, 64], ripe[4..]) == Err(UnexpectedEOF, []);
  }

  lemma PubKeyAsGetPubKey(p: PubKeyObject)
    requires PubKeyEncoding(p).fault.None? && p.objectType == GETPUBKEY_TYPE
    ensures var r := DecodeGetPubKey(NO_GETPUBKEY, Print(PubKeyEncoding(p).items));
      r.Ok? && r.value == AsGetPubKey(p)
  {
    hide Print, Parse, StartItems, AsRipe, U32Field;
    var g := AsGetPubKey(p);
    var t := if p.version >= ENCRYPTED_PUBKEY_VERSION then p.encrypted
      else p.signingKey.value[16..] + p.encryptKey.value + Print(PubKeyEncoding(p).items[4..]);
    SharedFront(p);
    GetPubKeyRoundTrip(NO_GETPUBKEY, g, t);
  }

  /** The bytes of a pubkey begin with those of the getpubkey it is taken for. */
  lemma SharedFront(p: PubKeyObject)
    requires PubKeyEncoding(p).fault.None?
    ensures GetPubKeyEncoding(AsGetPubKey(p)).fault.None?
    ensures Print(PubKeyEncoding(p).items) == Print(GetPubKeyEncoding(AsGetPubKey(p)).items) +
      if p.version >= ENCRYPTED_PUBKEY_VERSION then p.encrypted
      else p.signingKey.value[16..] + p.encryptKey.value + Print(PubKeyEncoding(p).items[4..])
  {
    hide Print, StartItems;
    var start, items := StartItems(StartOf(p)), PubKeyEncoding(p).items;
    var last := GetPubKeyEncoding(AsGetPubKey(p)).items[3];
    assert GetPubKeyEncoding(AsGetPubKey(p)).items == start + [last];
    PrintAppend(start, [last]);
    PrintOfOne(last);
    ConcatOf1(last.fields[0]);
    assert items == start + [items[3]] + items[4..];
    PrintAppend(start + [items[3]], items[4..]);
    PrintAppend(start, [items[3]]);
    PrintOfOne(items[3]);
    if p.version >= ENCRYPTED_PUBKEY_VERSION {
      assert items[4..] == [Tail(p.encrypted)];
      PrintOfOne(Tail(p.encrypted));
      ConcatOf1(p.tag.value);
    } else {
      KeyBytes(p.behavior, p.signingKey.value, p.encryptKey.value);
    }
  }

  // ---------- the frame ----------

  lemma WrittenTypeIsPeeked(m: Message)
    requires (m.GetPubKeyMessage? || m.PubKeyMessage?) && EncodingOf(m).fault.None?
    ensures var p := Print(EncodingOf(m).items);
      |p| >= 20 && AsU32(p[16..20]) == WrittenType(m)
  {
    hide Print, AsU32, StartItems;
    match m
    case GetPubKeyMessage(g) =>
      var o := Start(g.nonce, g.expires, g.objectType, g.version, g.stream);
      PeekedType(o, GetPubKeyEncoding(g).items[3..]);
      assert GetPubKeyEncoding(g).items == StartItems(o) + GetPubKeyEncoding(g).items[3..];
    case PubKeyMessage(k) => PeekedType(StartOf(k), PubKeyBody(k).items);
  }

  lemma OtherDecoder(env: Env, m: Message)
    requires (m.GetPubKeyMessage? || m.PubKeyMessage?) && EncodingOf(m).fault.None? && !WellTyped(m)
    requires WrittenType(m) <= 1
    ensures var p := Print(EncodingOf(m).items);
      Decoded(env, ObjectTarget(WrittenType(m)).value, p) ==
        if TakenFor(m).Some? then Accepted(TakenFor(m).value, p) else Failed(UnexpectedEOF)
  {
    hide Print, DecodePubKey, DecodeGetPubKey, GetPubKeyEncoding, PubKeyEncoding, AsPubKey, AsGetPubKey;
    match m
    case GetPubKeyMessage(g) =>
      if g.version >= TAG_BASED_RIPE_VERSION {
        TaggedGetPubKeyAsPubKey(env.memory, g);
      } else {
        RipeGetPubKeyAsPubKey(env.memory, g);
      }
    case PubKeyMessage(k) => PubKeyAsGetPubKey(k);
  }

  /** What the reader makes of a mistyped object written as p, by the type it says it is. */
  function MistypedOutcome(env: Env, m: Message, p: seq<byte>): Outcome
    requires m.GetPubKeyMessage? || m.PubKeyMessage?
  {
    var n := WrittenType(m);
    if n > 3 then Failed(MessageError(UnknownObjectType))
    else if n >= 2 then
      if |p| > env.foreignMax(n) then Failed(MessageError(PayloadOverTypeLimit)) else Decoded(env, Foreign(n), p)
    else if TakenFor(m).Some? then Accepted(TakenFor(m).value, p)
    else Failed(UnexpectedEOF)
  }

  lemma WrittenObject(env: Env, net: u32, m: Message)
    requires (m.GetPubKeyMessage? || m.PubKeyMessage?) && FrameOf(env, net, m).Frame?
    ensures var f, command := FrameOf(env, net, m), Padded(CMD_OBJECT);
      && 20 <= |f.payload| <= 0x4_0000 && f.payload == Print(EncodingOf(m).items) && EncodingOf(m).fault.None?
      && |f.header| == MESSAGE_HEADER_SIZE && f.header + f.payload == Sealed(env, net, command, f.payload)
      && TrimZeros(command) == CMD_OBJECT && TargetOf(command, f.payload) == ObjectTarget(WrittenType(m))
  {
    hide EncodingOf, Print, HeaderBytes, TrimZeros, AsU32, ChecksumOf, ObjectTarget;
    KnownCommandsRoundTrip(KindOf(m).value);
    WrittenTypeIsPeeked(m);
  }

  /** Whatever a mistyped object is read as, its frame is consumed: an unknown type is refused; a
    * type whose codec is elsewhere is that codec's to decide; a pubkey that says it is a getpubkey
    * is read as one; and a getpubkey that says it is a pubkey is read as one if it has a tag, and
    * runs out if it has a ripe. */
  lemma MistypedIsRead(env: Env, net: u32, m: Message, t: seq<byte>)
    requires (m.GetPubKeyMessage? || m.PubKeyMessage?) && !WellTyped(m) && FrameOf(env, net, m).Frame?
    ensures var f := FrameOf(env, net, m);
      ReadFrame(env, net, f.header + f.payload + t) ==
        Received(|f.header| + |f.payload|, MistypedOutcome(env, m, f.payload), t)
  {
    hide EncodingOf, Print, FrameOf, Sealed, ReadFrame, TrimZeros, TakenFor, DecodeTarget, TargetOf, WellTyped, Decoded;
    var f, n, command := FrameOf(env, net, m), WrittenType(m), Padded(CMD_OBJECT);
    WrittenObject(env, net, m);
    if n <= 1 { OtherDecoder(env, m); }
    if n <= 3 && |f.payload| <= MaxOfTarget(env, ObjectTarget(n).value) {
      SealedFrame(env, net, command, f.payload, t);
    } else {
      SealedObjectIsRefused(env, net, command, f.payload, t);
    }
  }
}
