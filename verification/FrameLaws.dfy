/** What reading a frame guarantees, whatever is on the stream. */
module FrameLaws {
  import opened Octets
  import opened Wire
  import opened Messages
  import opened Framing
  import opened Utf8

  // ---------- one header, then the rest ----------

  lemma FullOfConcat(a: seq<byte>, b: seq<byte>)
    ensures ReadFull(|a|, a + b) == Ok(a, b)
  {
    assert (a + b)[..|a|] == a && (a + b)[|a|..] == b;
  }

  lemma SkipOfConcat(a: seq<byte>, b: seq<byte>)
    ensures Skip(|a|, a + b) == b && Skip(|a|, a) == []
  {
    assert (a + b)[|a|..] == b;
  }

  /** The type an object frame is dispatched on is payload bytes 16 to 19. */
  lemma PeekIsBytes16To19(p: seq<byte>)
    ensures ReadFields([8, 8, 4], p).Ok? <==> |p| >= 20
    ensures |p| >= 20 ==> ReadFields([8, 8, 4], p).value == [p[..8], p[8..16], p[16..20]]
  {
    ThreeSlices(8, 8, 4, p);
  }

  // ---------- byte conservation ----------

  /** The headers whose payload ReadMessageN skips with discardInput: wrong network, malformed or
    * unhandled command, or too long for its command. */
  predicate Discards(net: u32, hdr: Header) {
    && hdr.length <= MAX_MESSAGE_PAYLOAD
    && (|| hdr.magic != net
        || !ValidUtf8(hdr.command)
        || (hdr.command != CMD_OBJECT && TooLongOrUnhandled(hdr)))
  }

  predicate TooLongOrUnhandled(hdr: Header) {
    match KindOfCommand(hdr.command) case None => true case Some(k) => hdr.length > MaxOfKind(k)
  }

  function Discarded(net: u32, s: seq<byte>): nat {
    if |s| < MESSAGE_HEADER_SIZE then 0
    else
      var hdr := ParseHeader(s[..MESSAGE_HEADER_SIZE]);
      if Discards(net, hdr) then Min(hdr.length, |s| - MESSAGE_HEADER_SIZE) else 0
  }

  /** The two branches after the header, and how far each has advanced on its exits. */
  lemma BranchesAdvance(env: Env, hdr: Header, t: seq<byte>)
    ensures var r := ReadObjectFrame(env, hdr, t);
      && r.count >= MESSAGE_HEADER_SIZE && r.count + |r.rest| == MESSAGE_HEADER_SIZE + |t|
      && r.rest == t[|t| - |r.rest|..]
    ensures var r := ReadPlainFrame(env, hdr, t);
      && r.count >= MESSAGE_HEADER_SIZE
      && r.count + (if TooLongOrUnhandled(hdr) then Min(hdr.length, |t|) else 0) + |r.rest| == MESSAGE_HEADER_SIZE + |t|
      && r.rest == t[|t| - |r.rest|..]
  {
    hide ReadFields, DecodeTarget, ChecksumOf, ObjectTarget, MaxOfKind, MaxOfTarget, KindOfCommand;
  }

  lemma SkipIsSuffix(n: nat, t: seq<byte>)
    ensures Skip(n, t) == t[|t| - |Skip(n, t)|..] && t == t[|t| - |t|..]
  {
  }

  lemma SuffixOfSuffix(s: seq<byte>, k: nat, rest: seq<byte>)
    requires k <= |s| && |rest| <= |s| - k && rest == s[k..][|s| - k - |rest|..]
    ensures rest == s[|s| - |rest|..]
  {
  }

  lemma AfterHeaderAdvances(env: Env, net: u32, hdr: Header, t: seq<byte>)
    ensures var r := ReadAfterHeader(env, net, hdr, t);
      && r.count >= MESSAGE_HEADER_SIZE
      && r.count + (if Discards(net, hdr) then Min(hdr.length, |t|) else 0) + |r.rest| == MESSAGE_HEADER_SIZE + |t|
      && r.rest == t[|t| - |r.rest|..]
  {
    hide ValidUtf8, ReadObjectFrame, ReadPlainFrame, TooLongOrUnhandled;
    BranchesAdvance(env, hdr, t);
    SkipIsSuffix(hdr.length, t);
  }

  /** On every exit the reader has advanced by the count returned and the bytes discarded: as many
    * of the declared length as there are, on the exits that discard, and none on the others. */
  lemma Conservation(env: Env, net: u32, s: seq<byte>)
    ensures var r := ReadFrame(env, net, s);
      && |s| == r.count + Discarded(net, s) + |r.rest|
      && r.rest == s[|s| - |r.rest|..]
  {
    hide ParseHeader, ReadAfterHeader, Discards;
    if |s| >= MESSAGE_HEADER_SIZE {
      var h, t := s[..MESSAGE_HEADER_SIZE], s[MESSAGE_HEADER_SIZE..];
      AfterHeaderAdvances(env, net, ParseHeader(h), t);
      SuffixOfSuffix(s, MESSAGE_HEADER_SIZE, ReadFrame(env, net, s).rest);
    }
  }

  // ---------- resynchronisation ----------

  /** A header and exactly the payload it declares, whatever they hold. */
  predicate CompleteFrame(f: seq<byte>) {
    |f| >= MESSAGE_HEADER_SIZE && ParseHeader(f[..MESSAGE_HEADER_SIZE]).length == |f| - MESSAGE_HEADER_SIZE
  }

  lemma ReadFrameParts(env: Env, net: u32, f: seq<byte>, t: seq<byte>)
    requires CompleteFrame(f)
    ensures var h, p := f[..MESSAGE_HEADER_SIZE], f[MESSAGE_HEADER_SIZE..];
      && ReadFull(MESSAGE_HEADER_SIZE, f + t) == Ok(h, p + t)
      && ReadFull(|p|, p + t) == Ok(p, t)
      && Skip(|p|, p + t) == t
  {
    var h, p := f[..MESSAGE_HEADER_SIZE], f[MESSAGE_HEADER_SIZE..];
    assert f + t == h + (p + t);
    FullOfConcat(h, p + t);
    FullOfConcat(p, t);
    SkipOfConcat(p, t);
  }

  /** A complete frame within the payload limit is consumed exactly, and nothing after it matters:
    * valid or not, it leaves the reader in step. */
  lemma FrameIsSelfContained(env: Env, net: u32, f: seq<byte>, t: seq<byte>)
    requires CompleteFrame(f) && |f| - MESSAGE_HEADER_SIZE <= MAX_MESSAGE_PAYLOAD
    ensures ReadFrame(env, net, f + t) == ReadFrame(env, net, f).(rest := t)
    ensures ReadFrame(env, net, f).rest == []
  {
    hide ParseHeader, ValidUtf8, ReadFields, ReadFull, DecodeTarget, ChecksumOf;
    hide ObjectTarget, MaxOfKind, MaxOfTarget, KindOfCommand, Skip;
    ReadFrameParts(env, net, f, t);
    ReadFrameParts(env, net, f, []);
    assert f + [] == f;
  }

  /** The reader ends at the end of a complete frame exactly when the declared length is within the limit. */
  lemma InStepExactly(env: Env, net: u32, f: seq<byte>, t: seq<byte>)
    requires CompleteFrame(f)
    ensures ReadFrame(env, net, f + t).rest == t <==> |f| - MESSAGE_HEADER_SIZE <= MAX_MESSAGE_PAYLOAD
  {
    hide ParseHeader, ReadFull, ReadFields, ValidUtf8;
    if |f| - MESSAGE_HEADER_SIZE <= MAX_MESSAGE_PAYLOAD {
      FrameIsSelfContained(env, net, f, t);
    } else {
      ReadFrameParts(env, net, f, t);
      assert ReadFrame(env, net, f + t).rest == f[MESSAGE_HEADER_SIZE..] + t;
    }
  }

  /** Frames that put the reader out of step exist at every length above the limit: only the header
    * is read, and the payload is left to be taken for the next one. */
  lemma OversizedFrame(env: Env, net: u32, magic: u32, command: Command, checksum: Checksum, p: seq<byte>, t: seq<byte>)
    requires MAX_MESSAGE_PAYLOAD < |p| < 0x1_0000_0000
    ensures var f := HeaderBytes(magic, command, |p|, checksum) + p;
      && CompleteFrame(f)
      && ReadFrame(env, net, f + t) == Fail(MESSAGE_HEADER_SIZE, PayloadTooLarge, p + t)
  {
    var h := HeaderBytes(magic, command, |p|, checksum);
    PartsOfHeader(magic, command, |p|, checksum);
    hide HeaderBytes, ParseHeader, TrimZeros, ReadFull;
    assert (h + p)[..MESSAGE_HEADER_SIZE] == h;
    assert h + p + t == h + (p + t);
    FullOfConcat(h, p + t);
  }

  // ---------- the frames accepted ----------

  /** The decoder a command and a payload are dispatched to. */
  function TargetFor(c: seq<byte>, p: seq<byte>): Option<Target> {
    if c == CMD_OBJECT then
      if |p| < 20 then None else ObjectTarget(AsU32(p[16..20]))
    else
      match KindOfCommand(c) case None => None case Some(k) => Some(Modelled(k))
  }

  function TargetOf(command: Command, p: seq<byte>): Option<Target> { TargetFor(TrimZeros(command), p) }

  /** s starts with a message frame: a full header of matching magic, a known command - and for
    * objects a known type in payload bytes 16 to 19 - a length within both limits, a matching
    * checksum, and a payload that decodes to m. */
  predicate MessageFrame(env: Env, net: u32, s: seq<byte>, command: Command, p: seq<byte>,
                         rest: seq<byte>, m: Message) {
    && |p| <= MAX_MESSAGE_PAYLOAD
    && s == HeaderBytes(net, command, |p|, ChecksumOf(env, p)) + p + rest
    && var target := TargetOf(command, p);
       && target.Some?
       && |p| <= MaxOfTarget(env, target.value)
       && DecodeTarget(env, target.value, p).Ok? && DecodeTarget(env, target.value, p).value == m
  }

  lemma KnownCommandsAreUtf8(c: seq<byte>)
    requires c == CMD_OBJECT || KindOfCommand(c).Some?
    ensures ValidUtf8(c)
  {
    hide ValidUtf8;
    AsciiIsValid(c);
  }

  /** What a decoder makes of a payload, as ReadMessageN returns it. */
  function Decoded(env: Env, target: Target, p: seq<byte>): Outcome {
    match DecodeTarget(env, target, p)
    case Err(e, _) => Failed(e)
    case Ok(m, _) => Accepted(m, p)
  }

  /** The bytes of a frame whose length and checksum are those of its payload. */
  function Sealed(env: Env, net: u32, command: Command, p: seq<byte>): seq<byte>
    requires |p| <= MAX_MESSAGE_PAYLOAD
  {
    HeaderBytes(net, command, |p|, ChecksumOf(env, p)) + p
  }

  lemma SealedParts(env: Env, net: u32, command: Command, p: seq<byte>, t: seq<byte>)
    requires |p| <= MAX_MESSAGE_PAYLOAD
    ensures var s := Sealed(env, net, command, p) + t;
      && |s| == MESSAGE_HEADER_SIZE + |p| + |t|
      && ParseHeader(s[..MESSAGE_HEADER_SIZE]) == Header(net, TrimZeros(command), |p|, ChecksumOf(env, p))
      && ReadFull(MESSAGE_HEADER_SIZE, s) == Ok(s[..MESSAGE_HEADER_SIZE], p + t)
      && ReadFull(|p|, p + t) == Ok(p, t)
  {
    var sum := ChecksumOf(env, p);
    var h := HeaderBytes(net, command, |p|, sum);
    PartsOfHeader(net, command, |p|, sum);
    hide HeaderBytes, ParseHeader, ChecksumOf, TrimZeros, ReadFull;
    assert Sealed(env, net, command, p) + t == h + (p + t);
    FullOfConcat(h, p + t);
    FullOfConcat(p, t);
    assert (h + (p + t))[..MESSAGE_HEADER_SIZE] == h;
  }

  /** A sealed frame with a payload its decoder may have is consumed, and gives what the decoder
    * makes of the payload. */
  lemma SealedFrame(env: Env, net: u32, command: Command, p: seq<byte>, t: seq<byte>)
    requires |p| <= MAX_MESSAGE_PAYLOAD
    requires var target := TargetOf(command, p); target.Some? && |p| <= MaxOfTarget(env, target.value)
    ensures ReadFrame(env, net, Sealed(env, net, command, p) + t) ==
      Received(MESSAGE_HEADER_SIZE + |p|, Decoded(env, TargetOf(command, p).value, p), t)
  {
    SealedParts(env, net, command, p, t);
    hide Sealed, ParseHeader, DecodeTarget, ChecksumOf, ValidUtf8, TrimZeros, KindOfCommand, MaxOfKind, MaxOfTarget;
    hide ReadFields, ReadFull, AsU32, ObjectTarget;
    PeekIsBytes16To19(p);
    KnownCommandsAreUtf8(TrimZeros(command));
  }

  /** A sealed object of an unknown type, or too long for its type, is consumed and refused. */
  lemma SealedObjectIsRefused(env: Env, net: u32, command: Command, p: seq<byte>, t: seq<byte>)
    requires TrimZeros(command) == CMD_OBJECT && 20 <= |p| <= MAX_MESSAGE_PAYLOAD
    ensures var target := TargetOf(command, p);
      var r := ReadFrame(env, net, Sealed(env, net, command, p) + t);
      && (target.None? ==> r == Fail(MESSAGE_HEADER_SIZE + |p|, UnknownObjectType, t))
      && (target.Some? && |p| > MaxOfTarget(env, target.value) ==>
            r == Fail(MESSAGE_HEADER_SIZE + |p|, PayloadOverTypeLimit, t))
  {
    SealedParts(env, net, command, p, t);
    hide Sealed, ParseHeader, ValidUtf8, TrimZeros, MaxOfTarget, ReadFields, ReadFull, AsU32, ObjectTarget, Finish;
    PeekIsBytes16To19(p);
    KnownCommandsAreUtf8(CMD_OBJECT);
  }

  lemma MessageFrameIsAccepted(env: Env, net: u32, s: seq<byte>, command: Command, p: seq<byte>,
                               rest: seq<byte>, m: Message)
    requires MessageFrame(env, net, s, command, p, rest, m)
    ensures ReadFrame(env, net, s) == Received(MESSAGE_HEADER_SIZE + |p|, Accepted(m, p), rest)
  {
    hide ReadFrame, HeaderBytes, DecodeTarget, ChecksumOf, TargetOf, MaxOfTarget;
    SealedFrame(env, net, command, p, rest);
  }

  /** What an acceptance says about the header and the payload. */
  lemma AcceptedParts(env: Env, net: u32, s: seq<byte>)
    requires ReadFrame(env, net, s).outcome.Accepted?
    ensures |s| >= MESSAGE_HEADER_SIZE
    ensures var r, hdr, t := ReadFrame(env, net, s), ParseHeader(s[..MESSAGE_HEADER_SIZE]), s[MESSAGE_HEADER_SIZE..];
      var p := r.outcome.payload;
      && hdr.length <= MAX_MESSAGE_PAYLOAD && hdr.magic == net && hdr.length <= |t|
      && p == t[..hdr.length] && r.rest == t[hdr.length..]
      && hdr.checksum == ChecksumOf(env, p)
      && (if hdr.command == CMD_OBJECT then
            |p| >= 20 && var target := ObjectTarget(AsU32(p[16..20]));
            target.Some? && |p| <= MaxOfTarget(env, target.value)
            && DecodeTarget(env, target.value, p).Ok? && DecodeTarget(env, target.value, p).value == r.outcome.message
          else
            var k := KindOfCommand(hdr.command);
            k.Some? && |p| <= MaxOfKind(k.value)
            && DecodeTarget(env, Modelled(k.value), p).Ok?
            && DecodeTarget(env, Modelled(k.value), p).value == r.outcome.message)
  {
    hide ParseHeader, ValidUtf8, DecodeTarget, ChecksumOf, ObjectTarget;
    hide MaxOfKind, MaxOfTarget, KindOfCommand, ReadFields, AsU32;
    var hdr, t := ParseHeader(s[..MESSAGE_HEADER_SIZE]), s[MESSAGE_HEADER_SIZE..];
    PeekIsBytes16To19(t[..hdr.length]);
  }

  lemma AcceptedTarget(env: Env, net: u32, s: seq<byte>)
    requires ReadFrame(env, net, s).outcome.Accepted?
    ensures |s| >= MESSAGE_HEADER_SIZE
    ensures var o := ReadFrame(env, net, s).outcome;
      var target := TargetOf(s[4..16], o.payload);
      && target.Some? && |o.payload| <= MaxOfTarget(env, target.value)
      && DecodeTarget(env, target.value, o.payload).Ok?
      && DecodeTarget(env, target.value, o.payload).value == o.message
  {
    AcceptedParts(env, net, s);
    assert s[..MESSAGE_HEADER_SIZE][4..16] == s[4..16];
    hide ReadFrame, DecodeTarget, TrimZeros, KindOfCommand, MaxOfKind, ObjectTarget, AsU32;
  }

  lemma AcceptedIsMessageFrame(env: Env, net: u32, s: seq<byte>)
    requires ReadFrame(env, net, s).outcome.Accepted?
    ensures |s| >= MESSAGE_HEADER_SIZE
    ensures var r := ReadFrame(env, net, s);
      MessageFrame(env, net, s, s[4..16], r.outcome.payload, r.rest, r.outcome.message)
  {
    AcceptedParts(env, net, s);
    AcceptedTarget(env, net, s);
    hide ReadFrame, HeaderBytes, DecodeTarget, ChecksumOf, TrimZeros, TargetOf, MaxOfTarget, AsU32;
    hide KindOfCommand, MaxOfKind, ObjectTarget;
    var h := s[..MESSAGE_HEADER_SIZE];
    HeaderParts(h);
    assert h[4..16] == s[4..16];
    SplitTwice(s, MESSAGE_HEADER_SIZE, ParseHeader(h).length);
  }

  lemma SplitTwice(s: seq<byte>, k: nat, n: nat)
    requires k + n <= |s|
    ensures s == s[..k] + s[k..][..n] + s[k..][n..]
  {
  }

  /** ReadMessageN decides the grammar of frames. */
  lemma ReadDecidesTheGrammar(env: Env, net: u32, s: seq<byte>, m: Message, p: seq<byte>)
    ensures ReadFrame(env, net, s).outcome == Accepted(m, p) <==>
      exists command: Command, rest: seq<byte> :: MessageFrame(env, net, s, command, p, rest, m)
  {
    if ReadFrame(env, net, s).outcome == Accepted(m, p) {
      AcceptedIsMessageFrame(env, net, s);
    }
    forall command: Command, rest: seq<byte> | MessageFrame(env, net, s, command, p, rest, m)
      ensures ReadFrame(env, net, s).outcome == Accepted(m, p)
    {
      MessageFrameIsAccepted(env, net, s, command, p, rest, m);
    }
  }
}
