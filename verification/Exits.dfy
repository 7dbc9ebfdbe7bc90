/** What the exits of ReadMessageN mean: for every error, the streams on which it is returned, by the
  * bytes of the header and the payload and with the limits in numbers. */
module Exits {
  import opened Octets
  import opened Wire
  import opened Grammar
  import opened GetPubKeys
  import opened PubKeys
  import opened Inventories
  import opened Addresses
  import opened Versions
  import opened Messages
  import opened Framing
  import opened FrameLaws
  import opened Utf8
  import opened Sessions
  import opened PayloadFailures

  // ---------- headers ----------

  predicate Handled(command: seq<byte>) {
    || command == Ascii("version") || command == Ascii("verack") || command == Ascii("getaddr")
    || command == Ascii("addr") || command == Ascii("inv") || command == Ascii("getdata")
  }

  /** The longest payload of a command other than object. */
  function Limit(command: seq<byte>): nat {
    if command == Ascii("version") then 2102
    else if command == Ascii("addr") then 30009
    else if command == Ascii("inv") || command == Ascii("getdata") then 1600009
    else 0
  }

  predicate IsObjectCommand(command: seq<byte>) { command == Ascii("object") }

  /** The longest payload of an object, by its type. */
  function LimitOfType(env: Env, objectType: nat): nat {
    if objectType <= 1 then 262144 else env.foreignMax(objectType)
  }

  lemma CommandTable(c: seq<byte>)
    ensures IsObjectCommand(c) <==> c == CMD_OBJECT
    ensures Handled(c) <==> KindOfCommand(c).Some?
    ensures Handled(c) ==> Limit(c) == MaxOfKind(KindOfCommand(c).value)
    ensures Handled(c) ==> !IsObjectCommand(c)
  {
    CommandLetters();
    hide Ascii;
  }

  // ---------- the conditions ----------

  /** A header of this network, with a length within the limit and a command that is text. */
  predicate Admitted(net: u32, hdr: Header) {
    hdr.length <= 33554432 && hdr.magic == net && ValidUtf8(hdr.command)
  }

  /** The header asks for its payload to be read. */
  predicate WantsPayload(net: u32, hdr: Header) {
    && Admitted(net, hdr)
    && (IsObjectCommand(hdr.command) || (Handled(hdr.command) && hdr.length <= Limit(hdr.command)))
  }

  /** The type of an object, in payload bytes 16 to 19. */
  function ObjectType(p: seq<byte>): nat
    requires |p| >= 20
  {
    BigEndian(p[16..20])
  }

  /** An object of a known type, within its limit. */
  predicate KnownObject(env: Env, p: seq<byte>) {
    |p| >= 20 && ObjectType(p) <= 3 && |p| <= LimitOfType(env, ObjectType(p))
  }

  /** The header's checksum is the first four bytes of the payload's SHA-512. */
  predicate ChecksumHolds(env: Env, hdr: Header, p: seq<byte>) { hdr.checksum == env.sha512(p)[..4] }

  /** The decoder of a payload. */
  function DecoderOf(command: seq<byte>, p: seq<byte>): Target
    requires Handled(command) || (IsObjectCommand(command) && |p| >= 20)
  {
    if command == Ascii("version") then Modelled(VersionKind)
    else if command == Ascii("verack") then Modelled(VerAckKind)
    else if command == Ascii("getaddr") then Modelled(GetAddrKind)
    else if command == Ascii("addr") then Modelled(AddrKind)
    else if command == Ascii("inv") then Modelled(InvKind)
    else if command == Ascii("getdata") then Modelled(GetDataKind)
    else if ObjectType(p) == 0 then Modelled(GetPubKeyKind)
    else if ObjectType(p) == 1 then Modelled(PubKeyKind)
    else Foreign(ObjectType(p))
  }

  /** A complete payload passes every check before its decoder. */
  predicate ReachesDecoder(env: Env, net: u32, hdr: Header, t: seq<byte>) {
    && WantsPayload(net, hdr) && hdr.length <= |t|
    && var p := t[..hdr.length];
       ChecksumHolds(env, hdr, p) && (IsObjectCommand(hdr.command) ==> KnownObject(env, p))
  }

  predicate DecoderFailsWith(env: Env, target: Target, p: seq<byte>, e: Error) {
    match target
    case Modelled(k) =>
      var l := KindLayout(k, env.memory);
      FailsWith(l, Collected(l, [], p), Left(l, [], p), e)
    case Foreign(n) => env.foreignDecode(n, p).Err? && env.foreignDecode(n, p).error == e
  }

  /** When ReadMessageN itself returns e, for a header with t after it. */
  predicate RefusedWith(env: Env, net: u32, hdr: Header, t: seq<byte>, e: Error) {
    var isObject, complete := IsObjectCommand(hdr.command), hdr.length <= |t|;
    match e
    case MessageError(reason) =>
      (match reason
       case PayloadTooLarge => hdr.length > 33554432
       case WrongNetwork => hdr.length <= 33554432 && hdr.magic != net
       case InvalidCommand => hdr.length <= 33554432 && hdr.magic == net && !ValidUtf8(hdr.command)
       case UnhandledCommand => Admitted(net, hdr) && !isObject && !Handled(hdr.command)
       case PayloadOverTypeLimit =>
         && Admitted(net, hdr)
         && ((Handled(hdr.command) && hdr.length > Limit(hdr.command)) ||
             (isObject && complete && hdr.length >= 20 && ObjectType(t[..hdr.length]) <= 3 &&
              hdr.length > LimitOfType(env, ObjectType(t[..hdr.length]))))
       case ObjectTooShort => Admitted(net, hdr) && isObject && complete && hdr.length < 20
       case UnknownObjectType =>
         Admitted(net, hdr) && isObject && complete && hdr.length >= 20 && ObjectType(t[..hdr.length]) > 3
       case ChecksumFailed =>
         && WantsPayload(net, hdr) && complete && !ChecksumHolds(env, hdr, t[..hdr.length])
         && (isObject ==> KnownObject(env, t[..hdr.length]))
       case _ => false)
    case EOF => WantsPayload(net, hdr) && t == [] && hdr.length > 0
    case UnexpectedEOF => WantsPayload(net, hdr) && 0 < |t| < hdr.length
    case _ => false
  }

  predicate BodyFailsWith(env: Env, net: u32, hdr: Header, t: seq<byte>, e: Error) {
    && ReachesDecoder(env, net, hdr, t)
    && DecoderFailsWith(env, DecoderOf(hdr.command, t[..hdr.length]), t[..hdr.length], e)
  }

  // ---------- the branches ----------

  lemma DecoderFails(env: Env, target: Target, p: seq<byte>, e: Error)
    ensures DecodeTarget(env, target, p).Err? && DecodeTarget(env, target, p).error == e <==>
      DecoderFailsWith(env, target, p, e)
  {
    hide DecodeKind, FailsWith, Left, KindLayout;
    if target.Modelled? { DecodeFailsExactly(target.kind, env.memory, p, e); }
  }

  lemma FinishFails(env: Env, target: Target, checksum: seq<byte>, p: seq<byte>, rest: seq<byte>, e: Error)
    ensures Finish(env, target, checksum, p, rest).outcome == Failed(e) <==>
      if checksum == env.sha512(p)[..4] then DecoderFailsWith(env, target, p, e) else e == MessageError(ChecksumFailed)
  {
    hide DecoderFailsWith, DecodeTarget;
    DecoderFails(env, target, p, e);
  }

  lemma TypeTable(env: Env, p: seq<byte>)
    requires |p| >= 20
    ensures AsU32(p[16..20]) == ObjectType(p)
    ensures ObjectTarget(ObjectType(p)).Some? <==> ObjectType(p) <= 3
    ensures ObjectType(p) <= 3 ==>
      ObjectTarget(ObjectType(p)) == Some(DecoderOf(Ascii("object"), p))
    ensures ObjectType(p) <= 3 ==>
      MaxOfTarget(env, ObjectTarget(ObjectType(p)).value) == LimitOfType(env, ObjectType(p))
  {
    CommandTable(Ascii("object"));
    CommandLetters();
    hide Ascii, BigEndian;
  }

  lemma PlainTable(c: seq<byte>, p: seq<byte>)
    requires Handled(c)
    ensures KindOfCommand(c).Some? && DecoderOf(c, p) == Modelled(KindOfCommand(c).value)
  {
    CommandLetters();
    hide Ascii, ObjectType;
  }

  lemma ObjectBranch(env: Env, net: u32, hdr: Header, t: seq<byte>, e: Error)
    requires Admitted(net, hdr) && IsObjectCommand(hdr.command)
    ensures ReadObjectFrame(env, hdr, t).outcome == Failed(e) <==>
      RefusedWith(env, net, hdr, t, e) || BodyFailsWith(env, net, hdr, t, e)
  {
    CommandTable(hdr.command);
    hide ReadFields, AsU32, ObjectTarget, MaxOfTarget, Finish, DecoderFailsWith, ObjectType, LimitOfType, ValidUtf8;
    hide Ascii, Handled, Limit, DecoderOf;
    if hdr.length <= |t| {
      var p := t[..hdr.length];
      PeekIsBytes16To19(p);
      if |p| >= 20 {
        TypeTable(env, p);
        FinishFails(env, DecoderOf(hdr.command, p), hdr.checksum, p, t[hdr.length..], e);
      }
    }
  }

  lemma PlainBranch(env: Env, net: u32, hdr: Header, t: seq<byte>, e: Error)
    requires Admitted(net, hdr) && !IsObjectCommand(hdr.command)
    ensures ReadPlainFrame(env, hdr, t).outcome == Failed(e) <==>
      RefusedWith(env, net, hdr, t, e) || BodyFailsWith(env, net, hdr, t, e)
  {
    CommandTable(hdr.command);
    hide KindOfCommand, MaxOfKind, Finish, DecoderFailsWith, ObjectType, LimitOfType, ValidUtf8;
    hide Ascii, Handled, Limit, DecoderOf, IsObjectCommand;
    if Handled(hdr.command) && hdr.length <= |t| {
      var p := t[..hdr.length];
      PlainTable(hdr.command, p);
      FinishFails(env, DecoderOf(hdr.command, p), hdr.checksum, p, t[hdr.length..], e);
    }
  }

  /** When ReadMessageN fails with e: a stream too short for a header, a check of the header or the
    * payload that is the first to fail, a payload cut short, or an error of the decoder. */
  predicate ReadFailsWith(env: Env, net: u32, s: seq<byte>, e: Error) {
    if |s| < 24 then e == if s == [] then EOF else UnexpectedEOF
    else
      var hdr, t := ParseHeader(s[..24]), s[24..];
      RefusedWith(env, net, hdr, t, e) || BodyFailsWith(env, net, hdr, t, e)
  }

  /** Every error of ReadMessageN, and exactly when it is returned. */
  lemma ReadFailsExactly(env: Env, net: u32, s: seq<byte>, e: Error)
    ensures ReadFrame(env, net, s).outcome == Failed(e) <==> ReadFailsWith(env, net, s, e)
  {
    if |s| >= MESSAGE_HEADER_SIZE {
      var hdr, t := ParseHeader(s[..MESSAGE_HEADER_SIZE]), s[MESSAGE_HEADER_SIZE..];
      CommandTable(hdr.command);
      if Admitted(net, hdr) {
        if IsObjectCommand(hdr.command) {
          ObjectBranch(env, net, hdr, t, e);
        } else {
          PlainBranch(env, net, hdr, t, e);
        }
      }
      hide ParseHeader, ValidUtf8, ReadObjectFrame, ReadPlainFrame, BodyFailsWith, IsObjectCommand, Handled, Limit;
      if !Admitted(net, hdr) { NotAdmitted(env, net, hdr, t, e); }
    }
  }

  lemma NotAdmitted(env: Env, net: u32, hdr: Header, t: seq<byte>, e: Error)
    requires !Admitted(net, hdr)
    ensures !BodyFailsWith(env, net, hdr, t, e)
  {
  }

  // ---------- some of the errors ----------

  /** The payload is complete, passes every check before its decoder, and runs out between two of
    * that decoder's reads. */
  predicate BodyRunsOut(env: Env, net: u32, hdr: Header, t: seq<byte>) {
    ReachesDecoder(env, net, hdr, t) &&
    var p := t[..hdr.length];
    var target := DecoderOf(hdr.command, p);
    if target.Modelled? then
      var l := KindLayout(target.kind, env.memory);
      PayloadRunsOut(l, Collected(l, [], p), Left(l, [], p))
    else
      var r := env.foreignDecode(target.objectType, p);
      r.Err? && r.error == EOF
  }

  /** EOF is returned exactly when the stream is at its end before a header or before a payload
    * that is wanted and not empty - or when the payload of a complete frame runs out between two
    * reads of its decoder, in which case the stream itself need not be at its end. */
  lemma EofExactly(env: Env, net: u32, s: seq<byte>)
    ensures ReadFrame(env, net, s).outcome == Failed(EOF) <==>
      || s == []
      || (|s| >= 24 &&
          var hdr, t := ParseHeader(s[..24]), s[24..];
          (WantsPayload(net, hdr) && t == [] && hdr.length > 0) || BodyRunsOut(env, net, hdr, t))
  {
    hide ReadFrame, ParseHeader, WantsPayload, ReachesDecoder, DecoderOf, PayloadRunsOut, Left;
    ReadFailsExactly(env, net, s, EOF);
  }

  /** The payload is complete, passes every check before its decoder, and holds a count that the
    * decoder cannot allocate. */
  predicate BodyPanics(env: Env, net: u32, hdr: Header, t: seq<byte>) {
    ReachesDecoder(env, net, hdr, t) &&
    var p := t[..hdr.length];
    var target := DecoderOf(hdr.command, p);
    if target.Modelled? then
      var l := KindLayout(target.kind, env.memory);
      AllocationFails(l, Collected(l, [], p), Left(l, [], p))
    else
      var r := env.foreignDecode(target.objectType, p);
      r.Err? && r.error == Panic
  }

  /** ReadMessageN does not return exactly when a wanted and complete payload passes every check
    * before its decoder, and a count in it cannot be allocated there. */
  lemma ReadPanicsExactly(env: Env, net: u32, s: seq<byte>)
    ensures ReadFrame(env, net, s).outcome == Failed(Panic) <==>
      |s| >= 24 && BodyPanics(env, net, ParseHeader(s[..24]), s[24..])
  {
    hide ReadFrame, ParseHeader, WantsPayload, ReachesDecoder, DecoderOf, AllocationFails, Left;
    ReadFailsExactly(env, net, s, Panic);
  }

  /** The payload ends inside a read of its decoder. */
  predicate BodyEndsInside(env: Env, net: u32, hdr: Header, t: seq<byte>) {
    ReachesDecoder(env, net, hdr, t) &&
    var p := t[..hdr.length];
    var target := DecoderOf(hdr.command, p);
    if target.Modelled? then
      var l := KindLayout(target.kind, env.memory);
      PayloadEndsInside(l, Collected(l, [], p), Left(l, [], p))
    else
      var r := env.foreignDecode(target.objectType, p);
      r.Err? && r.error == UnexpectedEOF
  }

  /** An unexpected EOF is returned exactly when the stream ends inside a header or inside a wanted
    * payload, or a complete payload ends inside a read of its decoder. */
  lemma UnexpectedEofExactly(env: Env, net: u32, s: seq<byte>)
    ensures ReadFrame(env, net, s).outcome == Failed(UnexpectedEOF) <==>
      || 0 < |s| < 24
      || (|s| >= 24 &&
          var hdr, t := ParseHeader(s[..24]), s[24..];
          (WantsPayload(net, hdr) && 0 < |t| < hdr.length) || BodyEndsInside(env, net, hdr, t))
  {
    hide ReadFrame, ParseHeader, WantsPayload, ReachesDecoder, DecoderOf, PayloadEndsInside, Left;
    ReadFailsExactly(env, net, s, UnexpectedEOF);
  }

  // ---------- the limits ----------

  /** The header of an accepted frame, by its bytes. */
  lemma AcceptedHeader(env: Env, net: u32, s: seq<byte>)
    requires ReadFrame(env, net, s).outcome.Accepted?
    ensures |s| >= 24
    ensures var hdr, t, o := ParseHeader(s[..24]), s[24..], ReadFrame(env, net, s).outcome;
      && ReachesDecoder(env, net, hdr, t) && o.payload == t[..hdr.length]
      && ReadFrame(env, net, s).rest == t[hdr.length..]
      && DecodeTarget(env, DecoderOf(hdr.command, o.payload), o.payload).Ok?
      && DecodeTarget(env, DecoderOf(hdr.command, o.payload), o.payload).value == o.message
  {
    AcceptedParts(env, net, s);
    var hdr, p := ParseHeader(s[..24]), ReadFrame(env, net, s).outcome.payload;
    CommandTable(hdr.command);
    if IsObjectCommand(hdr.command) {
      TypeTable(env, p);
    } else {
      PlainTable(hdr.command, p);
    }
    KnownCommandsAreUtf8(hdr.command);
    hide ReadFrame, ParseHeader, ValidUtf8, DecodeTarget, Handled, Limit, LimitOfType, MaxOfKind, MaxOfTarget, AsU32;
    hide ObjectType, ObjectTarget, KindOfCommand, DecoderOf, Ascii;
  }

  lemma ReachedWithinLimit(env: Env, net: u32, hdr: Header, t: seq<byte>)
    requires ReachesDecoder(env, net, hdr, t)
    ensures var target := DecoderOf(hdr.command, t[..hdr.length]);
      && hdr.length <= 33554432
      && (target.Modelled? ==>
            match target.kind
            case VersionKind => hdr.length <= 2102
            case VerAckKind => hdr.length == 0
            case GetAddrKind => hdr.length == 0
            case AddrKind => hdr.length <= 30009
            case InvKind => hdr.length <= 1600009
            case GetDataKind => hdr.length <= 1600009
            case GetPubKeyKind => hdr.length <= 262144
            case PubKeyKind => hdr.length <= 262144)
  {
    CommandLetters();
    hide Ascii, ObjectType, ValidUtf8, ChecksumHolds;
  }

  /** The longest payload a message can be accepted with. */
  lemma AcceptedWithinLimit(env: Env, net: u32, s: seq<byte>)
    ensures var o := ReadFrame(env, net, s).outcome;
      o.Accepted? ==>
        match o.message
        case VerAckMessage => o.payload == []
        case GetAddrMessage => o.payload == []
        case VersionMessage(_) => |o.payload| <= 2102
        case AddrMessage(_) => |o.payload| <= 30009
        case InvMessage(_) => |o.payload| <= 1600009
        case GetDataMessage(_) => |o.payload| <= 1600009
        case GetPubKeyMessage(_) => |o.payload| <= 262144
        case PubKeyMessage(_) => |o.payload| <= 262144
        case OtherMessage(_, _, _) => |o.payload| <= 33554432
  {
    var o := ReadFrame(env, net, s).outcome;
    if o.Accepted? {
      AcceptedHeader(env, net, s);
      var hdr := ParseHeader(s[..24]);
      KindOfDecoded(env, DecoderOf(hdr.command, o.payload), o.payload);
      ReachedWithinLimit(env, net, hdr, s[24..]);
      hide ReadFrame, ParseHeader, DecodeTarget, DecoderOf, ReachesDecoder;
    }
  }

  lemma KindOfDecoded(env: Env, target: Target, p: seq<byte>)
    requires DecodeTarget(env, target, p).Ok?
    ensures KindOf(DecodeTarget(env, target, p).value) == if target.Modelled? then Some(target.kind) else None
  {
    hide DecodeVersion, DecodeAddr, DecodeInv, DecodeGetPubKey, DecodePubKey;
  }

  lemma CommandLimit(env: Env, net: u32, hdr: Header, t: seq<byte>)
    requires Admitted(net, hdr) && Handled(hdr.command) && hdr.length > Limit(hdr.command)
    ensures ReadAfterHeader(env, net, hdr, t) ==
      Received(24, Failed(MessageError(PayloadOverTypeLimit)), t[Min(hdr.length, |t|)..])
  {
    CommandTable(hdr.command);
    hide ValidUtf8, Handled, Limit, IsObjectCommand, KindOfCommand, MaxOfKind, ReadObjectFrame;
  }

  lemma TypeLimit(env: Env, net: u32, hdr: Header, t: seq<byte>)
    requires Admitted(net, hdr) && IsObjectCommand(hdr.command) && 20 <= hdr.length <= |t|
    requires ObjectType(t[..hdr.length]) <= 3 && hdr.length > LimitOfType(env, ObjectType(t[..hdr.length]))
    ensures ReadAfterHeader(env, net, hdr, t) ==
      Received(24 + hdr.length, Failed(MessageError(PayloadOverTypeLimit)), t[hdr.length..])
  {
    CommandTable(hdr.command);
    PeekIsBytes16To19(t[..hdr.length]);
    TypeTable(env, t[..hdr.length]);
    hide ValidUtf8, LimitOfType, IsObjectCommand, ObjectType, AsU32, ReadFields, MaxOfTarget, ObjectTarget, Finish;
    hide ReadPlainFrame;
  }

  /** A payload over the limit of its command is refused with the header counted and as much of it
    * skipped as there is; one over the limit of its object type is refused with all of it counted. */
  lemma OverLimitIsRefused(env: Env, net: u32, s: seq<byte>)
    requires |s| >= 24 && Admitted(net, ParseHeader(s[..24]))
    ensures var hdr, t := ParseHeader(s[..24]), s[24..];
      && (Handled(hdr.command) && hdr.length > Limit(hdr.command) ==>
            ReadFrame(env, net, s) ==
              Received(24, Failed(MessageError(PayloadOverTypeLimit)), t[Min(hdr.length, |t|)..]))
      && (IsObjectCommand(hdr.command) && 20 <= hdr.length <= |t| && ObjectType(t[..hdr.length]) <= 3 &&
          hdr.length > LimitOfType(env, ObjectType(t[..hdr.length])) ==>
            ReadFrame(env, net, s) ==
              Received(24 + hdr.length, Failed(MessageError(PayloadOverTypeLimit)), t[hdr.length..]))
  {
    hide ParseHeader, Admitted, Handled, Limit, LimitOfType, IsObjectCommand, ObjectType, ReadAfterHeader;
    var hdr, t := ParseHeader(s[..24]), s[24..];
    if Handled(hdr.command) && hdr.length > Limit(hdr.command) { CommandLimit(env, net, hdr, t); }
    if IsObjectCommand(hdr.command) && 20 <= hdr.length <= |t| && ObjectType(t[..hdr.length]) <= 3 {
      if hdr.length > LimitOfType(env, ObjectType(t[..hdr.length])) { TypeLimit(env, net, hdr, t); }
    }
  }

  /** Any version message that ReadMessageN accepts has at most 2018 stream numbers, even if its
    * varints are not minimal. */
  lemma AcceptedVersionStreams(env: Env, net: u32, s: seq<byte>)
    ensures var o := ReadFrame(env, net, s).outcome;
      o.Accepted? && o.message.VersionMessage? ==> |o.message.version.streams| <= 2018
  {
    hide ReadFrame;
    var o := ReadFrame(env, net, s).outcome;
    if o.Accepted? && o.message.VersionMessage? {
      AcceptedIsNormal(env, net, s);
      VersionLength(o.message.version);
    }
  }

  // ---------- the checksum ----------

  /** The last four header bytes of an accepted frame are the first four of its payload's SHA-512. */
  lemma AcceptedChecksum(env: Env, net: u32, s: seq<byte>)
    ensures ReadFrame(env, net, s).outcome.Accepted? ==>
      |s| >= 24 && s[20..24] == env.sha512(ReadFrame(env, net, s).outcome.payload)[..4]
  {
    if ReadFrame(env, net, s).outcome.Accepted? {
      AcceptedHeader(env, net, s);
      HeaderParts(s[..24]);
      hide ReadFrame, WantsPayload, DecodeTarget;
      assert s[..24][20..] == s[20..24];
    }
  }

  /** A frame that differs from an accepted one only in its checksum is refused for that, having
    * been counted and consumed as the other is. */
  lemma OtherChecksumIsRefused(env: Env, net: u32, s: seq<byte>, checksum: Checksum)
    requires ReadFrame(env, net, s).outcome.Accepted? && |s| >= 24 && checksum != s[20..24]
    ensures ReadFrame(env, net, s[..20] + checksum + s[24..]) ==
      ReadFrame(env, net, s).(outcome := Failed(MessageError(ChecksumFailed)))
  {
    OtherHeader(s, checksum);
    hide ParseHeader, ReadAfterHeader;
    OnlyTheChecksumMatters(env, net, ParseHeader(s[..24]), s[24..], checksum);
  }

  lemma OnlyTheChecksumMatters(env: Env, net: u32, hdr: Header, t: seq<byte>, checksum: Checksum)
    requires checksum != hdr.checksum
    ensures ReadAfterHeader(env, net, hdr, t).outcome.Accepted? ==>
      ReadAfterHeader(env, net, hdr.(checksum := checksum), t)
      == ReadAfterHeader(env, net, hdr, t).(outcome := Failed(MessageError(ChecksumFailed)))
  {
    hide ValidUtf8, ReadFields, DecodeTarget, ObjectTarget, MaxOfKind, MaxOfTarget, KindOfCommand, AsU32;
  }

  lemma OtherHeader(s: seq<byte>, checksum: Checksum)
    requires |s| >= 24
    ensures var other := s[..20] + checksum + s[24..];
      && |other| == |s| && other[24..] == s[24..]
      && ParseHeader(other[..24]) == ParseHeader(s[..24]).(checksum := checksum)
      && ParseHeader(s[..24]).checksum == s[20..24]
  {
    var other := s[..20] + checksum + s[24..];
    assert other[..24] == s[..20] + checksum;
    assert other[..24][..4] == s[..24][..4] && other[..24][4..16] == s[..24][4..16];
    assert other[..24][16..20] == s[..24][16..20] && other[..24][20..] == checksum && s[..24][20..] == s[20..24];
    hide AsU32, TrimZeros;
  }
}
