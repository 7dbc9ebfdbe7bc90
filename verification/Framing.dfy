/** Frames: a 24-byte header - magic, command, length, checksum - and a payload. What writing a
  * message puts on the stream, and what reading the next frame returns and leaves. */
module Framing {
  import opened Octets
  import opened Wire
  import opened Grammar
  import opened Messages
  import opened Utf8

  // ---------- headers ----------

  datatype Header = Header(magic: u32, command: seq<byte>, length: u32, checksum: seq<byte>)

  type Command = c: seq<byte> | |c| == COMMAND_SIZE witness Zeros(COMMAND_SIZE)
  type Checksum = c: seq<byte> | |c| == 4 witness Zeros(4)

  function HeaderFields(magic: u32, command: Command, length: u32, checksum: Checksum): seq<seq<byte>> {
    [U32Field(magic), command, U32Field(length), checksum]
  }

  function HeaderBytes(magic: u32, command: Command, length: u32, checksum: Checksum): (h: seq<byte>)
    ensures |h| == MESSAGE_HEADER_SIZE
  {
    U32Field(magic) + command + U32Field(length) + checksum
  }

  /** bytes.TrimRight(command, "\0"). */
  function TrimZeros(c: seq<byte>): seq<byte> {
    if c != [] && c[|c| - 1] == 0 then TrimZeros(c[..|c| - 1]) else c
  }

  /** A command padded with zeros to its 12 bytes. */
  function Padded(command: seq<byte>): Command
    requires |command| <= COMMAND_SIZE
  {
    command + Zeros(COMMAND_SIZE - |command|)
  }

  function ParseHeader(h: seq<byte>): Header
    requires |h| == MESSAGE_HEADER_SIZE
  {
    Header(AsU32(h[..4]), TrimZeros(h[4..16]), AsU32(h[16..20]), h[20..])
  }

  function ChecksumOf(env: Env, payload: seq<byte>): Checksum { env.sha512(payload)[..4] }

  lemma FourParts(s: seq<byte>, i: nat, j: nat, k: nat)
    requires i <= j <= k <= |s|
    ensures s == s[..i] + s[i..j] + s[j..k] + s[k..]
  {
  }

  lemma HeaderParts(h: seq<byte>)
    requires |h| == MESSAGE_HEADER_SIZE
    ensures h == HeaderBytes(AsU32(h[..4]), h[4..16], AsU32(h[16..20]), h[20..])
  {
    UnsignedFields(0, 0, 0, h[..4]);
    UnsignedFields(0, 0, 0, h[16..20]);
    hide U32Field, AsU32, BigEndian, Zeros;
    FourParts(h, 4, 16, 20);
  }

  lemma HeaderIsItsFields(magic: u32, command: Command, length: u32, checksum: Checksum)
    ensures Concat(HeaderFields(magic, command, length, checksum)) == HeaderBytes(magic, command, length, checksum)
  {
    hide U32Field;
    var b, c, d: seq<byte> := command, U32Field(length), checksum;
    var fields := HeaderFields(magic, command, length, checksum);
    assert fields[1..] == [b, c, d];
    ConcatOfThree(b, c, d);
  }

  lemma PartsOfHeader(magic: u32, command: Command, length: u32, checksum: Checksum)
    ensures var h := HeaderBytes(magic, command, length, checksum);
      && h[..4] == U32Field(magic) && h[4..16] == command && h[16..20] == U32Field(length) && h[20..] == checksum
      && ParseHeader(h) == Header(magic, TrimZeros(command), length, checksum)
  {
    UnsignedFields(0, magic, 0, []);
    UnsignedFields(0, length, 0, []);
    hide U32Field, AsU32;
    var h := HeaderBytes(magic, command, length, checksum);
    assert h[..4] == U32Field(magic);
    assert h[4..16] == command;
    assert h[16..20] == U32Field(length);
    assert h[20..] == checksum;
  }

  lemma {:induction false} TrimOfPadded(command: seq<byte>, n: nat)
    requires command == [] || command[|command| - 1] != 0
    ensures TrimZeros(command + Zeros(n)) == command
  {
    var c := command + Zeros(n);
    if n == 0 {
      assert c == command;
    } else {
      assert c[..|c| - 1] == command + Zeros(n - 1);
      TrimOfPadded(command, n - 1);
    }
  }

  // ---------- writing ----------

  datatype Framed = Frame(header: seq<byte>, payload: seq<byte>) | Refused(error: Error)

  /** What WriteMessageN writes for a message, or why it writes nothing. */
  function FrameOf(env: Env, net: u32, m: Message): Framed {
    if |CommandOf(m)| > COMMAND_SIZE then Refused(MessageError(CommandTooLong))
    else
      var e := EncodingOf(m);
      var payload := Print(e.items);
      if e.fault.Some? then Refused(e.fault.value)
      else if |payload| > MAX_MESSAGE_PAYLOAD then Refused(MessageError(PayloadTooLarge))
      else if |payload| > MaxPayloadOf(m) then Refused(MessageError(PayloadOverTypeLimit))
      else Frame(HeaderBytes(net, Padded(CommandOf(m)), |payload|, ChecksumOf(env, payload)), payload)
  }

  // ---------- reading ----------

  datatype Outcome = Accepted(message: Message, payload: seq<byte>) | Failed(error: Error)

  /** What one call of ReadMessageN returns, and what it leaves unread. */
  datatype Received = Received(count: nat, outcome: Outcome, rest: seq<byte>)

  function Fail(count: nat, reason: Reason, rest: seq<byte>): Received {
    Received(count, Failed(MessageError(reason)), rest)
  }

  /** discardInput. */
  function Skip(n: nat, s: seq<byte>): (t: seq<byte>)
    ensures |t| == |s| - Min(n, |s|)
  {
    s[Min(n, |s|)..]
  }

  /** The decoder a payload goes to. */
  datatype Target = Modelled(kind: Kind) | Foreign(objectType: nat)

  function MaxOfTarget(env: Env, target: Target): u32 {
    match target case Modelled(k) => MaxOfKind(k) case Foreign(t) => env.foreignMax(t)
  }

  function DecodeTarget(env: Env, target: Target, payload: seq<byte>): Run<Message> {
    match target
    case Modelled(k) => DecodeKind(k, env.memory, payload)
    case Foreign(t) =>
      match env.foreignDecode(t, payload)
      case Err(e, u) => Err(e, u)
      case Ok(e, u) => Ok(OtherMessage(CMD_OBJECT, e, env.foreignMax(t)), u)
  }

  function ObjectTarget(objectType: nat): Option<Target> {
    if objectType == 0 then Some(Modelled(GetPubKeyKind))
    else if objectType == 1 then Some(Modelled(PubKeyKind))
    else if objectType == 2 || objectType == 3 then Some(Foreign(objectType))
    else None
  }

  /** The end of ReadMessageN: the payload is read, its checksum and its contents are not yet checked. */
  function Finish(env: Env, target: Target, checksum: seq<byte>, payload: seq<byte>, rest: seq<byte>): Received {
    var count := MESSAGE_HEADER_SIZE + |payload|;
    if ChecksumOf(env, payload) != checksum then Fail(count, ChecksumFailed, rest)
    else match DecodeTarget(env, target, payload)
      case Err(e, _) => Received(count, Failed(e), rest)
      case Ok(m, _) => Received(count, Accepted(m, payload), rest)
  }

  /** The object branch: the payload is read before its type is known. */
  function ReadObjectFrame(env: Env, hdr: Header, t: seq<byte>): Received {
    match ReadFull(hdr.length, t)
    case Err(e, u) => Received(MESSAGE_HEADER_SIZE + |t|, Failed(e), u)
    case Ok(payload, u) =>
      var count := MESSAGE_HEADER_SIZE + |payload|;
      match ReadFields([8, 8, 4], payload)
      case Err(_, _) => Fail(count, ObjectTooShort, u)
      case Ok(prefix, _) =>
        match ObjectTarget(AsU32(prefix[2]))
        case None => Fail(count, UnknownObjectType, u)
        case Some(target) =>
          if hdr.length > MaxOfTarget(env, target) then Fail(count, PayloadOverTypeLimit, u)
          else Finish(env, target, hdr.checksum, payload, u)
  }

  /** The other branch: what the command says decides whether the payload is read or skipped. */
  function ReadPlainFrame(env: Env, hdr: Header, t: seq<byte>): Received {
    match KindOfCommand(hdr.command)
    case None => Fail(MESSAGE_HEADER_SIZE, UnhandledCommand, Skip(hdr.length, t))
    case Some(k) =>
      if hdr.length > MaxOfKind(k) then Fail(MESSAGE_HEADER_SIZE, PayloadOverTypeLimit, Skip(hdr.length, t))
      else match ReadFull(hdr.length, t)
        case Err(e, u) => Received(MESSAGE_HEADER_SIZE + |t|, Failed(e), u)
        case Ok(payload, u) => Finish(env, Modelled(k), hdr.checksum, payload, u)
  }

  /** What comes of a header, with t unread after it. */
  function ReadAfterHeader(env: Env, net: u32, hdr: Header, t: seq<byte>): Received {
    if hdr.length > MAX_MESSAGE_PAYLOAD then Fail(MESSAGE_HEADER_SIZE, PayloadTooLarge, t)
    else if hdr.magic != net then Fail(MESSAGE_HEADER_SIZE, WrongNetwork, Skip(hdr.length, t))
    else if !ValidUtf8(hdr.command) then Fail(MESSAGE_HEADER_SIZE, InvalidCommand, Skip(hdr.length, t))
    else if hdr.command == CMD_OBJECT then ReadObjectFrame(env, hdr, t)
    else ReadPlainFrame(env, hdr, t)
  }

  function ReadFrame(env: Env, net: u32, s: seq<byte>): Received {
    match ReadFull(MESSAGE_HEADER_SIZE, s)
    case Err(e, t) => Received(|s|, Failed(e), t)
    case Ok(h, t) => ReadAfterHeader(env, net, ParseHeader(h), t)
  }
}
