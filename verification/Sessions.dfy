/** Writers and readers of the same stream: what is written is read, what is read can be sent on,
  * and a run of reads stays in step whatever the frames hold. */
module Sessions {
  import opened Octets
  import opened Wire
  import opened Grammar
  import opened Stream
  import opened BoundedWriter
  import opened Objects
  import opened GetPubKeys
  import opened PubKeys
  import opened Versions
  import opened Messages
  import opened Framing
  import opened FrameLaws
  import opened Utf8

  // ---------- object agreement ----------

  predicate IsObject(k: Kind) { k.GetPubKeyKind? || k.PubKeyKind? }

  function TypeOfKind(k: Kind): nat { if k.GetPubKeyKind? then GETPUBKEY_TYPE else PUBKEY_TYPE }

  function ObjectLayout(k: Kind, memory: nat): Layout
    requires IsObject(k)
  {
    if k.GetPubKeyKind? then GETPUBKEY_LAYOUT else PubKeyLayout(memory)
  }

  /** The decoder of an object reads its type where the dispatch peeked at it: it accepts no
    * payload of another type, and refuses for its type none of its own. */
  lemma DispatchAndDecoderAgree(k: Kind, memory: nat, p: seq<byte>)
    requires IsObject(k)
    ensures DecodeKind(k, memory, p).Ok? ==> |p| >= 20 && AsU32(p[16..20]) == TypeOfKind(k)
    ensures |p| >= 20 && AsU32(p[16..20]) == TypeOfKind(k) ==>
      !(DecodeKind(k, memory, p).Err? && DecodeKind(k, memory, p).error == MessageError(WrongObjectType))
  {
    ObjectRun(ObjectLayout(k, memory), TypeOfKind(k), p);
  }

  lemma ObjectRun(l: Layout, objectType: nat, p: seq<byte>)
    requires || (l.kind.GetPubKeyKind? && objectType == GETPUBKEY_TYPE)
             || (l.kind.PubKeyKind? && objectType == PUBKEY_TYPE)
    ensures Parse(l, [], p).Ok? ==> |p| >= 20 && AsU32(p[16..20]) == objectType
    ensures |p| >= 20 && AsU32(p[16..20]) == objectType ==>
      !(Parse(l, [], p).Err? && Parse(l, [], p).error == MessageError(WrongObjectType))
  {
    hide Parse, ReadFields, ReadVarInt, AsU32, NextOp;
    ObjectStart(l, objectType, p);
    PeekIsBytes16To19(p);
    var start := ReadStart(objectType, p);
    FieldsFailAtTheEnd([8, 8, 4], p);
    if start.Ok? {
      HoldsItsType(start.value);
      TypeRefusedOnlyAtOnce(l, StartItems(start.value), start.rest);
    }
    if ReadFields([8, 8, 4], p).Ok? {
      var t := ReadFields([8, 8, 4], p).rest;
      VarIntFailsAtTheEnd(t);
      if ReadVarInt(t).Ok? { VarIntFailsAtTheEnd(ReadVarInt(t).rest); }
    }
  }

  lemma HoldsItsType(o: Start)
    ensures BigEndian(StartItems(o)[0].Field(2)) == o.objectType
  {
    FieldsOfHeader(o.nonce, o.expires, o.objectType);
  }

  lemma {:induction false} FieldsFailAtTheEnd(widths: seq<nat>, s: seq<byte>)
    ensures ReadFields(widths, s).Err? ==> ReadFields(widths, s).error in {EOF, UnexpectedEOF}
  {
    if widths != [] && ReadFull(widths[0], s).Ok? {
      FieldsFailAtTheEnd(widths[1..], ReadFull(widths[0], s).rest);
    }
  }

  lemma VarIntFailsAtTheEnd(s: seq<byte>)
    ensures ReadVarInt(s).Err? ==> ReadVarInt(s).error in {EOF, UnexpectedEOF}
  {
  }

  /** Once past the start, nothing is refused for its type. */
  lemma {:induction false} TypeRefusedOnlyAtOnce(l: Layout, done: seq<Item>, s: seq<byte>)
    requires (l.kind.GetPubKeyKind? && |done| >= 3 && BigEndian(done[0].Field(2)) == GETPUBKEY_TYPE)
          || (l.kind.PubKeyKind? && |done| >= 3 && BigEndian(done[0].Field(2)) == PUBKEY_TYPE)
    ensures !(Parse(l, done, s).Err? && Parse(l, done, s).error == MessageError(WrongObjectType))
    decreases |s|
  {
    var next := NextOp(l, done, |done|);
    assert !next.Refuse?;
    if next.Expect? {
      OpFailure(next.op, s);
      ParseStep(l, done, s, next.op);
      hide ReadOp, Parse;
      if ReadOp(next.op, s).Ok? {
        TypeRefusedOnlyAtOnce(l, done + [ReadOp(next.op, s).value], ReadOp(next.op, s).rest);
      }
    } else {
      ParseStops(l, done, s);
    }
  }

  lemma OpFailure(op: Op, s: seq<byte>)
    requires op.Counted? ==> op.refusal != MessageError(WrongObjectType)
    ensures ReadOp(op, s).Err? ==> ReadOp(op, s).error != MessageError(WrongObjectType)
  {
    match op
    case Fixed(widths) => FieldsFailAtTheEnd(widths, s);
    case VarInt => VarIntFailsAtTheEnd(s);
    case Counted(limit, refusal) => VarIntFailsAtTheEnd(s);
  }

  // ---------- what is written is read ----------

  /** The limits on a framed message bound what its reader allocates. */
  lemma FramedIsAllocatable(m: Message, memory: Memory)
    requires !m.OtherMessage? && EncodingOf(m).fault.None? && |Print(EncodingOf(m).items)| <= MaxPayloadOf(m)
    ensures m.VersionMessage? ==> Allocatable(memory, |m.version.streams|, 8)
    ensures m.PubKeyMessage? && m.pubKey.version == EXTENDED_PUBKEY_VERSION ==> |m.pubKey.signature| <= memory
  {
    if m.VersionMessage? {
      VersionLength(m.version);
    }
    if m.PubKeyMessage? && m.pubKey.version == EXTENDED_PUBKEY_VERSION {
      var items := PubKeyEncoding(m.pubKey).items;
      var sig := Text(m.pubKey.signature);
      assert items == items[..6] + [sig];
      PrintAppend(items[..6], [sig]);
      assert [sig][1..] == [];
    }
  }

  lemma KnownCommandsRoundTrip(k: Kind)
    ensures var c := CommandOfKind(k);
      && |c| <= COMMAND_SIZE && TrimZeros(Padded(c)) == c
      && (c == CMD_OBJECT <==> IsObject(k))
      && (!IsObject(k) ==> KindOfCommand(c) == Some(k))
  {
    TrimOfPadded(CommandOfKind(k), COMMAND_SIZE - |CommandOfKind(k)|);
  }

  /** The payload of a written message goes to its own decoder, within its limit, and decodes. */
  lemma WrittenIsDecoded(env: Env, net: u32, m: Message)
    requires !m.OtherMessage? && WellTyped(m) && FrameOf(env, net, m).Frame?
    ensures var p, target := FrameOf(env, net, m).payload, Modelled(KindOf(m).value);
      && TargetOf(Padded(CommandOf(m)), p) == Some(target) && |p| <= MaxOfTarget(env, target)
      && DecodeTarget(env, target, p) == Ok(Carried(m), [])
  {
    var p, k := FrameOf(env, net, m).payload, KindOf(m).value;
    FramedIsAllocatable(m, env.memory);
    KindRoundTrip(m, env.memory);
    KnownCommandsRoundTrip(k);
    hide DecodeKind, EncodingOf, Print, HeaderBytes, TrimZeros;
    hide CommandOfKind, KindOfCommand, ChecksumOf, AsU32, Carried;
    if IsObject(k) { DispatchAndDecoderAgree(k, env.memory, p); }
  }

  /** A written message, followed by anything, is a message frame for its reader. */
  lemma WrittenIsMessageFrame(env: Env, net: u32, m: Message, t: seq<byte>)
    requires !m.OtherMessage? && WellTyped(m) && FrameOf(env, net, m).Frame?
    ensures var f := FrameOf(env, net, m);
      MessageFrame(env, net, f.header + f.payload + t, Padded(CommandOf(m)), f.payload, t, Carried(m))
  {
    WrittenIsDecoded(env, net, m);
    hide EncodingOf, Print, HeaderBytes, ChecksumOf, Carried, TargetOf, DecodeTarget, MaxOfTarget, Padded, KindOf;
  }

  lemma CarriedKeepsType(m: Message)
    ensures WellTyped(Carried(m)) <==> WellTyped(m)
    ensures Carried(m).OtherMessage? <==> m.OtherMessage?
  {
  }

  /** A written message is read back as its receiver sees it - with equal counts, the payload its
    * encoding, and what follows untouched - exactly when it says it is of its own type. */
  lemma WrittenIsRead(env: Env, net: u32, m: Message, t: seq<byte>)
    requires !m.OtherMessage? && FrameOf(env, net, m).Frame?
    ensures var f := FrameOf(env, net, m);
      var r := ReadFrame(env, net, f.header + f.payload + t);
      && f.payload == Print(EncodingOf(m).items)
      && (WellTyped(m) ==> r == Received(|f.header| + |f.payload|, Accepted(Carried(m), f.payload), t))
      && (r.outcome == Accepted(Carried(m), f.payload) ==> WellTyped(m))
  {
    hide ReadFrame, EncodingOf, Print, HeaderBytes, MessageFrame, Carried, ChecksumOf, Padded, MaxPayloadOf;
    var f := FrameOf(env, net, m);
    if WellTyped(m) {
      WrittenIsMessageFrame(env, net, m, t);
      MessageFrameIsAccepted(env, net, f.header + f.payload + t, Padded(CommandOf(m)), f.payload, t, Carried(m));
    } else if ReadFrame(env, net, f.header + f.payload + t).outcome == Accepted(Carried(m), f.payload) {
      CarriedKeepsType(m);
      AcceptedIsNormal(env, net, f.header + f.payload + t);
    }
  }

  // ---------- what is read can be sent on ----------

  /** The next read returns a message whose source is in the repository. */
  predicate AcceptsModelled(env: Env, net: u32, s: seq<byte>) {
    var o := ReadFrame(env, net, s).outcome;
    o.Accepted? && !o.message.OtherMessage?
  }

  lemma AcceptedIsNormal(env: Env, net: u32, s: seq<byte>)
    ensures AcceptsModelled(env, net, s) ==>
      var m, p := ReadFrame(env, net, s).outcome.message, ReadFrame(env, net, s).outcome.payload;
      var e := EncodingOf(m);
      && WellTyped(m) && e.fault.None? && |Print(e.items)| <= |p| <= Min(MAX_MESSAGE_PAYLOAD, MaxPayloadOf(m))
      && Carried(m) == m
      && |s| == MESSAGE_HEADER_SIZE + |p| + |ReadFrame(env, net, s).rest|
  {
    hide ReadFrame;
    if AcceptsModelled(env, net, s) {
      AcceptedIsMessageFrame(env, net, s);
      var r := ReadFrame(env, net, s);
      var m, p := r.outcome.message, r.outcome.payload;
      var k := TargetOf(s[4..16], p).value.kind;
      KindNormalises(k, env.memory, p);
      hide DecodeKind, Print, EncodingOf;
      FramedIsAllocatable(m, env.memory);
      KindRoundTrip(m, env.memory);
    }
  }

  /** Every modelled message that ReadMessageN accepts is accepted by WriteMessageN on the same
    * network, into a frame no longer than the one read; reading that frame, whatever follows,
    * gives the same message. Only non-minimal varints and unread payload bytes are lost. */
  lemma ReadCanBeSentOn(env: Env, net: u32, s: seq<byte>, t: seq<byte>)
    ensures AcceptsModelled(env, net, s) ==>
      var r := ReadFrame(env, net, s);
      var f := FrameOf(env, net, r.outcome.message);
      && f.Frame?
      && |f.header + f.payload| <= |s| - |r.rest|
      && ReadFrame(env, net, f.header + f.payload + t)
         == Received(|f.header + f.payload|, Accepted(r.outcome.message, f.payload), t)
  {
    hide ReadFrame, EncodingOf, Print, Carried, WellTyped;
    if AcceptsModelled(env, net, s) {
      AcceptedIsNormal(env, net, s);
      var m := ReadFrame(env, net, s).outcome.message;
      KnownCommandsRoundTrip(KindOf(m).value);
      WrittenIsRead(env, net, m, t);
    }
  }

  // ---------- runs ----------

  /** The results of n successive calls, and what they leave. */
  datatype Session = Session(results: seq<Received>, rest: seq<byte>)

  function ReadRun(env: Env, net: u32, n: nat, s: seq<byte>): (run: Session)
    ensures |run.results| == n
  {
    if n == 0 then Session([], s)
    else
      var first := ReadFrame(env, net, s);
      var more := ReadRun(env, net, n - 1, first.rest);
      Session([first] + more.results, more.rest)
  }

  predicate InLimit(f: seq<byte>) { CompleteFrame(f) && |f| - MESSAGE_HEADER_SIZE <= MAX_MESSAGE_PAYLOAD }

  /** The first call of a run reads the first frame. */
  lemma FirstOfRun(env: Env, net: u32, frames: seq<seq<byte>>, t: seq<byte>)
    requires frames != [] && InLimit(frames[0])
    ensures var s, u := Concat(frames) + t, Concat(frames[1..]) + t;
      var more := ReadRun(env, net, |frames| - 1, u);
      ReadRun(env, net, |frames|, s) == Session([ReadFrame(env, net, frames[0]).(rest := u)] + more.results, more.rest)
  {
    hide ReadFrame, CompleteFrame;
    var s, u := Concat(frames) + t, Concat(frames[1..]) + t;
    assert s == frames[0] + u;
    FrameIsSelfContained(env, net, frames[0], u);
  }

  /** Resynchronisation over whole runs. On any concatenation of complete frames within the
    * payload limit, valid or not, k calls end exactly at the end of frame k, and each result is
    * what its own frame gives by itself. */
  lemma {:induction false} RunStaysInStep(env: Env, net: u32, frames: seq<seq<byte>>, t: seq<byte>)
    requires forall i | 0 <= i < |frames| :: InLimit(frames[i])
    ensures var run := ReadRun(env, net, |frames|, Concat(frames) + t);
      && run.rest == t
      && forall i | 0 <= i < |frames| ::
           run.results[i] == ReadFrame(env, net, frames[i]).(rest := Concat(frames[i + 1..]) + t)
  {
    if frames == [] {
      assert Concat(frames) + t == t;
    } else {
      hide ReadFrame, InLimit, Concat, ReadRun;
      var more := frames[1..];
      FirstOfRun(env, net, frames, t);
      RunStaysInStep(env, net, more, t);
      var run, rest := ReadRun(env, net, |frames|, Concat(frames) + t), ReadRun(env, net, |more|, Concat(more) + t);
      forall i | 0 <= i < |frames|
        ensures run.results[i] == ReadFrame(env, net, frames[i]).(rest := Concat(frames[i + 1..]) + t)
      {
        if i > 0 {
          assert run.results[i] == rest.results[i - 1];
          assert more[i..] == frames[i + 1..];
        }
      }
    }
  }

  /** A message the writer accepts and its reader recognises. */
  predicate Sendable(env: Env, net: u32, m: Message) {
    !m.OtherMessage? && WellTyped(m) && FrameOf(env, net, m).Frame?
  }

  function FrameBytes(env: Env, net: u32, m: Message): seq<byte> {
    match FrameOf(env, net, m) case Refused(_) => [] case Frame(h, p) => h + p
  }

  function AllFrames(env: Env, net: u32, ms: seq<Message>): (frames: seq<seq<byte>>)
    ensures |frames| == |ms|
  {
    seq(|ms|, i requires 0 <= i < |ms| => FrameBytes(env, net, ms[i]))
  }

  lemma FramesAreInLimit(env: Env, net: u32, m: Message)
    requires FrameOf(env, net, m).Frame?
    ensures InLimit(FrameBytes(env, net, m))
  {
    hide EncodingOf, Print, HeaderBytes, ParseHeader;
    var f := FrameOf(env, net, m);
    PartsOfHeader(net, Padded(CommandOf(m)), |f.payload|, ChecksumOf(env, f.payload));
    assert (f.header + f.payload)[..MESSAGE_HEADER_SIZE] == f.header;
  }

  /** Writing any list of sendable messages and reading as many times gives the list back, as its
    * receiver sees it, with equal counts, payloads equal to the encodings, and the bytes that
    * follow untouched. */
  lemma StreamRoundTrip(env: Env, net: u32, ms: seq<Message>, t: seq<byte>)
    requires forall i | 0 <= i < |ms| :: Sendable(env, net, ms[i])
    ensures var run := ReadRun(env, net, |ms|, Concat(AllFrames(env, net, ms)) + t);
      && run.rest == t
      && forall i | 0 <= i < |ms| ::
           && run.results[i].count == |FrameBytes(env, net, ms[i])|
           && run.results[i].outcome == Accepted(Carried(ms[i]), Print(EncodingOf(ms[i]).items))
  {
    hide ReadFrame, EncodingOf, Print, Carried, CompleteFrame;
    var frames := AllFrames(env, net, ms);
    forall i | 0 <= i < |ms|
      ensures InLimit(frames[i])
      ensures ReadFrame(env, net, frames[i]).count == |FrameBytes(env, net, ms[i])|
      ensures ReadFrame(env, net, frames[i]).outcome == Accepted(Carried(ms[i]), Print(EncodingOf(ms[i]).items))
    {
      FramesAreInLimit(env, net, ms[i]);
      WrittenIsRead(env, net, ms[i], []);
      assert frames[i] + [] == frames[i];
    }
    RunStaysInStep(env, net, frames, t);
  }

  // ---------- streams cut short ----------

  /** A payload cut short, on the two branches that ask for it. */
  lemma CutPayload(env: Env, hdr: Header, t: seq<byte>)
    requires |t| < hdr.length
    ensures var r := Received(MESSAGE_HEADER_SIZE + |t|, Failed(if t == [] then EOF else UnexpectedEOF), []);
      && ReadObjectFrame(env, hdr, t) == r
      && (!TooLongOrUnhandled(hdr) ==> ReadPlainFrame(env, hdr, t) == r)
  {
    hide KindOfCommand, MaxOfKind, ObjectTarget, Finish, ReadFields;
  }

  /** A stream that ends inside a complete frame within the payload limit, valid or not. Before the
    * end of the header the read fails with EOF if there is nothing and an unexpected EOF otherwise.
    * After it, a frame whose payload is discarded gives what the whole frame gives, and any other
    * fails with EOF if its payload is missing altogether and an unexpected EOF otherwise. Either
    * way nothing is left. */
  lemma CutFrame(env: Env, net: u32, f: seq<byte>, k: nat)
    requires InLimit(f) && k < |f|
    ensures ReadFrame(env, net, f[..k]) ==
      if k >= MESSAGE_HEADER_SIZE && Discards(net, ParseHeader(f[..MESSAGE_HEADER_SIZE])) then ReadFrame(env, net, f)
      else Received(k, Failed(if k == 0 || k == MESSAGE_HEADER_SIZE then EOF else UnexpectedEOF), [])
  {
    hide ParseHeader, ReadAfterHeader, Discards;
    if k >= MESSAGE_HEADER_SIZE {
      var h, t, p := f[..MESSAGE_HEADER_SIZE], f[..k][MESSAGE_HEADER_SIZE..], f[MESSAGE_HEADER_SIZE..];
      assert f[..k][..MESSAGE_HEADER_SIZE] == h;
      CutAfterHeader(env, net, ParseHeader(h), t, p);
    }
  }

  lemma CutAfterHeader(env: Env, net: u32, hdr: Header, t: seq<byte>, p: seq<byte>)
    requires |t| < |p| == hdr.length <= MAX_MESSAGE_PAYLOAD
    ensures ReadAfterHeader(env, net, hdr, t) ==
      if Discards(net, hdr) then ReadAfterHeader(env, net, hdr, p)
      else Received(MESSAGE_HEADER_SIZE + |t|, Failed(if t == [] then EOF else UnexpectedEOF), [])
  {
    hide ValidUtf8, ReadObjectFrame, ReadPlainFrame, TooLongOrUnhandled;
    CutPayload(env, hdr, t);
    DiscardedAlike(env, hdr, t, p);
  }

  /** Nothing of a discarded payload is looked at. */
  lemma DiscardedAlike(env: Env, hdr: Header, t: seq<byte>, p: seq<byte>)
    requires |t| <= hdr.length == |p|
    ensures Skip(hdr.length, t) == Skip(hdr.length, p) == []
    ensures TooLongOrUnhandled(hdr) ==> ReadPlainFrame(env, hdr, t) == ReadPlainFrame(env, hdr, p)
  {
    hide KindOfCommand, MaxOfKind;
  }

  // ---------- bounded writers ----------

  /** WriteMessageN on any writer: a message that passes validation is delivered whole if it fits,
    * and otherwise ends in a short write with a proper prefix of its frame written; nothing else
    * ends in a short write. */
  lemma FrameIsDelivered(env: Env, net: u32, m: Message, sink: Sink)
    requires sink.Valid() && FrameOf(env, net, m).Frame?
    ensures var f := FrameOf(env, net, m);
      var (after, err) := Pour([f.header, f.payload], sink);
      && Delivered(sink, after, err, f.header + f.payload)
      && (err == Some(ShortWrite) <==> !sink.Fits(|f.header| + |f.payload|))
  {
    hide EncodingOf, Print, HeaderBytes, Pour;
    var f := FrameOf(env, net, m);
    PourDelivers([f.header, f.payload], sink);
    ConcatOf1(f.payload);
    assert [f.header, f.payload][1..] == [f.payload];
    assert Concat([f.header, f.payload]) == f.header + f.payload;
  }
}
