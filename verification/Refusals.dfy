/** What WriteMessageN refuses: the messages it does not return from, and those it accepts, by their
  * fields. */
module Refusals {
  import opened Octets
  import opened Wire
  import opened Grammar
  import opened Objects
  import opened GetPubKeys
  import opened PubKeys
  import opened Inventories
  import opened Addresses
  import opened Versions
  import opened Messages
  import opened Framing

  // ---------- any message ----------

  /** What WriteMessageN makes of a message, whoever implements it: the checks in their order, and then
    * the bytes of the header. */
  lemma WrittenFrame(env: Env, net: u32, m: Message)
    ensures var e, f, c := EncodingOf(m), FrameOf(env, net, m), CommandOf(m);
      var p := Print(e.items);
      if |c| > 12 then f == Refused(MessageError(CommandTooLong))
      else if e.fault.Some? then f == Refused(e.fault.value)
      else if |p| > 33554432 then f == Refused(MessageError(PayloadTooLarge))
      else if |p| > MaxPayloadOf(m) then f == Refused(MessageError(PayloadOverTypeLimit))
      else
        && f.Frame? && f.payload == p && |f.header| == 24
        && f.header[..4] == PutBig(net, 4) && f.header[16..20] == PutBig(|p|, 4)
        && f.header[4..4 + |c|] == c && (forall i | 4 + |c| <= i < 16 :: f.header[i] == 0)
        && f.header[20..24] == env.sha512(p)[..4]
  {
    hide EncodingOf, Print, CommandOf, PutBig, MaxPayloadOf;
    var e, f, c := EncodingOf(m), FrameOf(env, net, m), CommandOf(m);
    var p := Print(e.items);
    if f.Frame? {
      PartsOfHeader(net, Padded(c), |p|, ChecksumOf(env, p));
      assert f.header[4..16] == Padded(c);
      assert forall i | 0 <= i < 12 :: f.header[4..16][i] == f.header[4 + i];
      assert f.header[4..4 + |c|] == f.header[4..16][..|c|];
      assert forall i | |c| <= i < 12 :: Padded(c)[i] == 0;
    }
  }

  /** The commands written, in letters. */
  lemma WrittenCommand(m: Message)
    ensures CommandOf(m) ==
      match m
      case VersionMessage(_) => Ascii("version")
      case VerAckMessage => Ascii("verack")
      case GetAddrMessage => Ascii("getaddr")
      case AddrMessage(_) => Ascii("addr")
      case InvMessage(_) => Ascii("inv")
      case GetDataMessage(_) => Ascii("getdata")
      case GetPubKeyMessage(_) => Ascii("object")
      case PubKeyMessage(_) => Ascii("object")
      case OtherMessage(command, _, _) => command
  {
    CommandLetters();
    hide Ascii;
  }

  /** The error Encode returns of itself, by the fields. */
  lemma EncodeFails(m: Message)
    ensures EncodingOf(m).fault ==
      match m
      case VersionMessage(v) => if |v.userAgent| > 2000 then Some(MessageError(UserAgentTooLong)) else None
      case AddrMessage(list) => if |list| > 1000 then Some(MessageError(TooManyItems)) else None
      case InvMessage(list) => if |list| > 50000 then Some(MessageError(TooManyItems)) else None
      case GetDataMessage(list) => if |list| > 50000 then Some(MessageError(TooManyItems)) else None
      case GetPubKeyMessage(_) => if LacksPart(m) then Some(Panic) else None
      case PubKeyMessage(_) => if LacksPart(m) then Some(Panic) else None
      case OtherMessage(_, e, _) => e.fault
      case _ => None
  {
    hide StartItems, VersionItems, AddrItems, InvItems;
  }

  // ---------- version messages ----------

  function VersionSize(v: Version): nat {
    80 + VarIntSize(|v.userAgent|) + |v.userAgent| + VarIntSize(|v.streams|) + VarIntsSize(v.streams)
  }

  /** WriteMessageN takes a version message exactly when its user agent is within its limit and its
    * encoded size within the payload limit; one that is too large for the limit only is refused
    * for that, although it encodes. */
  lemma SendableVersions(env: Env, net: u32, v: Version)
    ensures FrameOf(env, net, VersionMessage(v)).Frame? <==> |v.userAgent| <= 2000 && VersionSize(v) <= 2102
    ensures |v.userAgent| <= 2000 && 2102 < VersionSize(v) <= MAX_MESSAGE_PAYLOAD ==>
      EncodingOf(VersionMessage(v)).fault.None? &&
      FrameOf(env, net, VersionMessage(v)) == Refused(MessageError(PayloadOverTypeLimit))
  {
    hide Print, VersionItems, HeaderBytes, ChecksumOf, Padded;
    VersionLength(v);
  }

  lemma FullSize(a: u64, b: u64, c: u64)
    ensures VarIntSize(2000) == 3 && VarIntSize(2) == VarIntSize(3) == 1
    ensures VarIntsSize([a, b]) == VarIntSize(a) + VarIntSize(b)
    ensures VarIntsSize([a, b, c]) == VarIntSize(a) + VarIntSize(b) + VarIntSize(c)
    ensures VarIntSize(a) <= 9 && VarIntSize(b) <= 9
    ensures a > 0xffff_ffff && b > 0xffff_ffff && c > 0xffff_ffff ==>
      VarIntSize(a) == VarIntSize(b) == VarIntSize(c) == 9
  {
    assert [a, b, c][1..] == [b, c] && [b, c][1..] == [c] && [a, b][1..] == [b];
    assert VarIntsSize([c]) == VarIntSize(c) && VarIntsSize([b]) == VarIntSize(b);
    assert VarIntsSize([b, c]) == VarIntSize(b) + VarIntsSize([c]);
  }

  /** Next to the longest user agent any two stream numbers can be sent, but no three of full size. */
  lemma ThreeStreamsAreRefused(env: Env, net: u32, v: Version, a: u64, b: u64, c: u64)
    requires |v.userAgent| == MAX_USER_AGENT_LEN
    ensures v.streams == [a, b] ==> FrameOf(env, net, VersionMessage(v)).Frame?
    ensures v.streams == [a, b, c] && a > 0xffff_ffff && b > 0xffff_ffff && c > 0xffff_ffff ==>
      EncodingOf(VersionMessage(v)).fault.None? &&
      FrameOf(env, net, VersionMessage(v)) == Refused(MessageError(PayloadOverTypeLimit))
  {
    hide FrameOf, EncodingOf, VarIntSize;
    SendableVersions(env, net, v);
    FullSize(a, b, c);
  }

  // ---------- objects ----------

  /** The hash or a key that the layout of the object's version needs is nil. */
  predicate LacksPart(m: Message) {
    match m
    case GetPubKeyMessage(g) => if g.version >= TAG_BASED_RIPE_VERSION then g.tag.None? else g.ripe.None?
    case PubKeyMessage(p) =>
      if p.version >= ENCRYPTED_PUBKEY_VERSION then p.tag.None? else p.signingKey.None? || p.encryptKey.None?
    case _ => false
  }

  function StartSize(version: u64, stream: u64): nat { 20 + VarIntSize(version) + VarIntSize(stream) }

  function PubKeyBodySize(p: PubKeyObject): nat {
    if p.version >= ENCRYPTED_PUBKEY_VERSION then 32 + |p.encrypted|
    else if p.version == EXTENDED_PUBKEY_VERSION then
      132 + VarIntSize(p.nonceTrials) + VarIntSize(p.extraBytes) + VarIntSize(|p.signature|) + |p.signature|
    else 132
  }

  lemma StartBytes(o: Start)
    ensures |Print(StartItems(o))| == StartSize(o.version, o.stream)
  {
    hide U32Field, U64Field, I64Field, VarIntBytes, VarIntSize;
    var header := ObjectHeader(o.nonce, o.expires, o.objectType);
    PrintOfThree(Fields(header), Number(o.version), Number(o.stream));
    ConcatOfThree(header[0], header[1], header[2]);
  }

  lemma GetPubKeySize(g: GetPubKey)
    requires !LacksPart(GetPubKeyMessage(g))
    ensures |Print(GetPubKeyEncoding(g).items)| ==
      StartSize(g.version, g.stream) + if g.version >= TAG_BASED_RIPE_VERSION then 32 else 20
  {
    hide StartItems, StartSize, Print;
    var o := Start(g.nonce, g.expires, g.objectType, g.version, g.stream);
    var hash: seq<byte> := if g.version >= TAG_BASED_RIPE_VERSION then g.tag.value else g.ripe.value;
    StartBytes(o);
    PrintAppend(StartItems(o), [Fields([hash])]);
    PrintOfOne(Fields([hash]));
    ConcatOf1(hash);
  }

  lemma PubKeySize(p: PubKeyObject)
    requires !LacksPart(PubKeyMessage(p))
    ensures |Print(PubKeyEncoding(p).items)| == StartSize(p.version, p.stream) + PubKeyBodySize(p)
  {
    StartBytes(StartOf(p));
    PubKeyBodyBytes(p);
    PrintAppend(StartItems(StartOf(p)), PubKeyBody(p).items);
    hide StartItems, StartSize, Print, PubKeyBody, PubKeyBodySize;
  }

  lemma PubKeyBodyBytes(p: PubKeyObject)
    requires !LacksPart(PubKeyMessage(p))
    ensures |Print(PubKeyBody(p).items)| == PubKeyBodySize(p)
  {
    hide Print, VarIntBytes, VarIntSize, U32Field;
    if p.version >= ENCRYPTED_PUBKEY_VERSION {
      PrintAppend([Fields([p.tag.value])], [Tail(p.encrypted)]);
      PrintOfOne(Fields([p.tag.value]));
      PrintOfOne(Tail(p.encrypted));
      ConcatOf1(p.tag.value);
      assert [Fields([p.tag.value])] + [Tail(p.encrypted)] == PubKeyBody(p).items;
    } else {
      var keys := KeyFields(p.behavior, p.signingKey.value, p.encryptKey.value);
      PrintOfOne(keys);
      KeyBytes(p.behavior, p.signingKey.value, p.encryptKey.value);
      PrintAppend([keys], ExtendedItems(p));
      PrintOfThree(Number(p.nonceTrials), Number(p.extraBytes), Text(p.signature));
    }
  }

  // ---------- every message ----------

  /** WriteMessageN does not return exactly when the message is an object that lacks the hash or a key
    * its version's layout needs. */
  lemma WritePanicsExactly(env: Env, net: u32, m: Message)
    requires !m.OtherMessage?
    ensures FrameOf(env, net, m) == Refused(Panic) <==> LacksPart(m)
  {
    hide Print, HeaderBytes, ChecksumOf, VersionItems, AddrItems, InvItems, StartItems;
  }

  /** There are such messages: a version 4 pubkey without its tag. */
  lemma MessageThatPanics(env: Env, net: u32)
    ensures FrameOf(env, net, PubKeyMessage(NO_PUBKEY.(version := ENCRYPTED_PUBKEY_VERSION))) == Refused(Panic)
  {
    WritePanicsExactly(env, net, PubKeyMessage(NO_PUBKEY.(version := ENCRYPTED_PUBKEY_VERSION)));
  }

  /** The messages WriteMessageN accepts, by their fields. */
  predicate Writable(m: Message)
    requires !m.OtherMessage?
  {
    match m
    case VersionMessage(v) => |v.userAgent| <= 2000 && VersionSize(v) <= 2102
    case VerAckMessage => true
    case GetAddrMessage => true
    case AddrMessage(list) => |list| <= 1000
    case InvMessage(list) => |list| <= 50000
    case GetDataMessage(list) => |list| <= 50000
    case GetPubKeyMessage(_) => !LacksPart(m)
    case PubKeyMessage(p) => !LacksPart(m) && StartSize(p.version, p.stream) + PubKeyBodySize(p) <= 0x4_0000
  }

  lemma CommandsFit(m: Message)
    requires !m.OtherMessage?
    ensures |CommandOf(m)| <= COMMAND_SIZE
  {
  }

  lemma AcceptedBySize(env: Env, net: u32, m: Message)
    requires !m.OtherMessage?
    ensures FrameOf(env, net, m).Frame? <==>
      EncodingOf(m).fault.None? && |Print(EncodingOf(m).items)| <= MaxPayloadOf(m)
  {
    CommandsFit(m);
    assert MaxPayloadOf(m) <= MAX_MESSAGE_PAYLOAD;
    hide Print, HeaderBytes, ChecksumOf, EncodingOf, CommandOf, MaxPayloadOf;
  }

  /** WriteMessageN accepts exactly the messages whose parts are there and whose lists, user agents
    * and encodings are within their limits. */
  lemma WriteAcceptsExactly(env: Env, net: u32, m: Message)
    requires !m.OtherMessage?
    ensures FrameOf(env, net, m).Frame? <==> Writable(m)
  {
    if m.VersionMessage? {
      SendableVersions(env, net, m.version);
    } else {
      AcceptedBySize(env, net, m);
      hide FrameOf, EncodingOf, Print, MaxPayloadOf;
      EncodesInLimit(m);
    }
  }

  lemma EncodesInLimit(m: Message)
    requires !m.OtherMessage? && !m.VersionMessage?
    ensures EncodingOf(m).fault.None? && |Print(EncodingOf(m).items)| <= MaxPayloadOf(m) <==> Writable(m)
  {
    hide Print, VersionSize, VarIntSize, PubKeyBodySize, StartSize, AddrItems, InvItems, PubKeyBody, StartItems;
    match m
    case VerAckMessage => EmptyPrint();
    case GetAddrMessage => EmptyPrint();
    case AddrMessage(list) => if |list| <= 1000 { AddrRoundTrip(list, []); ShortCount(|list|); }
    case InvMessage(list) => if |list| <= 50000 { InvRoundTrip(InvKind, list, []); ShortCount(|list|); }
    case GetDataMessage(list) => if |list| <= 50000 { InvRoundTrip(GetDataKind, list, []); ShortCount(|list|); }
    case GetPubKeyMessage(g) => if !LacksPart(m) { GetPubKeySize(g); ShortStart(g.version, g.stream); }
    case PubKeyMessage(p) =>
      PubKeyFault(p);
      if !LacksPart(m) { PubKeySize(p); }
  }

  lemma ShortCount(n: nat)
    ensures VarIntSize(n) <= 9
  {
  }

  lemma ShortStart(version: u64, stream: u64)
    ensures StartSize(version, stream) <= 38
  {
  }

  lemma PubKeyFault(p: PubKeyObject)
    ensures PubKeyEncoding(p).fault.None? <==> !LacksPart(PubKeyMessage(p))
  {
  }
}
