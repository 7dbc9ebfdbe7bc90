/** WriteMessageN and ReadMessageN over a writer and a reader. */
module MessageIO {
  import opened Octets
  import opened Wire
  import opened Grammar
  import opened Stream
  import opened BoundedWriter
  import opened Utf8
  import opened NetAddresses
  import opened GetPubKeys
  import opened PubKeys
  import opened Inventories
  import opened Addresses
  import opened Versions
  import opened Messages
  import opened Framing

  // ---------- writing ----------

  /** msg.Encode(w), dispatched on the message's type. */
  method EncodeMessage(m: Message, w: Writer) returns (err: Option<Error>)
    requires w.Valid()
    modifies w`out
    ensures w.Valid()
    ensures (w.State(), err) == PourEncoding(EncodingOf(m), old(w.State()))
  {
    hide PourEncoding, PourItems, VersionEncoding, AddrEncoding, InvEncoding, GetPubKeyEncoding, PubKeyEncoding;
    match m
    case VersionMessage(v) =>
      var o := new MsgVersion(v);
      err := o.Encode(w);
    case VerAckMessage =>
      NothingToPour(w.State());
      err := None;
    case GetAddrMessage =>
      NothingToPour(w.State());
      err := None;
    case AddrMessage(list) =>
      var o := AddrObject(list);
      err := o.Encode(w);
    case InvMessage(list) =>
      var o := new MsgInv(InvKind, list);
      err := o.Encode(w);
    case GetDataMessage(list) =>
      var o := new MsgInv(GetDataKind, list);
      err := o.Encode(w);
    case GetPubKeyMessage(g) =>
      var o := new MsgGetPubKey(g);
      err := o.Encode(w);
    case PubKeyMessage(p) =>
      var o := new MsgPubKey(p);
      err := o.Encode(w);
    case OtherMessage(_, e, _) =>
      err := EncodeOther(e, w);
  }

  lemma NothingToPour(sink: Sink)
    requires sink.Valid()
    ensures PourEncoding(Encoding([], None), sink) == (sink, None)
  {
  }

  method AddrObject(list: seq<NetAddr>) returns (o: MsgAddr)
    ensures fresh(o) && Values(o.AddrList) == list
  {
    o := new MsgAddr();
    var i := 0;
    while i < |list|
      invariant i <= |list| && fresh(o) && Values(o.AddrList) == list[..i]
    {
      var na := new NetAddress.From(list[i]);
      ghost var before := Values(o.AddrList);
      o.AddrList := o.AddrList + [na];
      assert Values(o.AddrList) == before + [na.Value()];
      i := i + 1;
    }
    assert list[..i] == list;
  }

  /** Any other implementor's Encode: some writes, then its own error. */
  method EncodeOther(e: Encoding, w: Writer) returns (err: Option<Error>)
    requires w.Valid()
    modifies w`out
    ensures w.Valid()
    ensures (w.State(), err) == PourEncoding(e, old(w.State()))
  {
    hide Pour, PourItems;
    var i := 0;
    while i < |e.items|
      invariant i <= |e.items| && w.Valid()
      invariant PourItems(e.items, 0, old(w.State())) == PourItems(e.items, i, w.State())
    {
      PourStep(e.items, i, w.State());
      err := WriteElements(w, Chunks(e.items[i]));
      if err.Some? { return; }
      i := i + 1;
    }
    PourEnds(e.items, w.State());
    return e.fault;
  }

  /** The four header elements, collected before anything reaches the writer. */
  method EncodeHeader(magic: u32, command: Command, length: u32, checksum: Checksum) returns (h: seq<byte>)
    ensures h == HeaderBytes(magic, command, length, checksum)
  {
    ghost var fields := HeaderFields(magic, command, length, checksum);
    PourDelivers(fields, Sink([], None, false));
    HeaderIsItsFields(magic, command, length, checksum);
    var hw := new Writer.Buffer();
    var _ := WriteElements(hw, HeaderFields(magic, command, length, checksum));
    h := hw.out;
    assert [] + Concat(fields) == Concat(fields);
  }

  /** WriteMessageN: on a validation failure nothing is written and the count is zero; otherwise
    * header and payload are written in turn, and the count is what reached the writer. */
  method WriteMessageN(env: Env, w: Writer, msg: Message, net: u32) returns (total: nat, err: Option<Error>)
    requires w.Valid()
    modifies w`out
    ensures w.Valid() && total == |w.out| - |old(w.out)|
    ensures var f := FrameOf(env, net, msg);
      && (f.Refused? ==> err == Some(f.error) && w.State() == old(w.State()))
      && (f.Frame? ==> (w.State(), err) == Pour([f.header, f.payload], old(w.State())))
  {
    hide EncodingOf, Print, PourEncoding;
    total := 0;
    var cmd := CommandOf(msg);
    if |cmd| > COMMAND_SIZE {
      return total, Some(MessageError(CommandTooLong));
    }
    var command := Padded(cmd);
    var bw := new Writer.Buffer();
    BufferTakesAll(EncodingOf(msg));
    err := EncodeMessage(msg, bw);
    if err.Some? { return; }
    var payload := bw.out;
    var lenp := |payload|;
    if lenp > MAX_MESSAGE_PAYLOAD {
      return total, Some(MessageError(PayloadTooLarge));
    }
    if lenp > MaxPayloadOf(msg) {
      return total, Some(MessageError(PayloadOverTypeLimit));
    }
    var hw := EncodeHeader(net, command, lenp, env.sha512(payload)[..4]);
    assert [hw, payload] == [hw] + [payload];
    PourAppend([hw], [payload], w.State());
    PourOne(hw, w.State());
    var n;
    n, err := w.Write(hw);
    total := total + n;
    if err.Some? { return; }
    PourOne(payload, w.State());
    n, err := w.Write(payload);
    total := total + n;
  }

  // ---------- reading ----------

  /** readMessageHeader. */
  method ReadMessageHeader(r: Reader) returns (n: nat, hdr: Header, err: Option<Error>)
    requires r.Valid()
    modifies r`pos
    ensures r.Valid()
    ensures var run := ReadFull(MESSAGE_HEADER_SIZE, old(r.Rest()));
      && r.Rest() == run.rest
      && n == |old(r.Rest())| - |r.Rest()|
      && (run.Err? ==> err == Some(run.error) && r.Rest() == [])
      && (run.Ok? ==> err.None? && hdr == ParseHeader(run.value) && n == MESSAGE_HEADER_SIZE)
  {
    hdr := Header(0, [], 0, []);
    var headerBytes := new byte[MESSAGE_HEADER_SIZE](_ => 0);
    n, err := r.ReadFull(headerBytes, MESSAGE_HEADER_SIZE);
    if err.Some? { return; }
    assert headerBytes[..n] == headerBytes[..];
    hdr := ParseHeader(headerBytes[..]);
  }

  /** discardInput: skips n bytes, or what is left of them, in chunks of 10240. */
  method DiscardInput(r: Reader, n: u32)
    requires r.Valid()
    modifies r`pos
    ensures r.Valid() && r.Rest() == Skip(n, old(r.Rest()))
    ensures r.pos == old(r.pos) + Min(n, |old(r.Rest())|)
  {
    hide Wire.ReadFull;
    var numReads := n / 10240;
    var bytesRemaining := n % 10240;
    ghost var start, left := r.pos, |r.Rest()|;
    if n > 0 {
      var buf := new byte[10240](_ => 0);
      var i := 0;
      while i < numReads
        invariant i <= numReads && r.Valid() && r.pos == start + Min(10240 * i, left)
      {
        SkipOne(r, buf, 10240);
        i := i + 1;
      }
    }
    if bytesRemaining > 0 {
      var buf := new byte[bytesRemaining](_ => 0);
      SkipOne(r, buf, bytesRemaining);
    }
  }

  /** io.ReadFull(r, buf), its outcome ignored. */
  method SkipOne(r: Reader, buf: array<byte>, n: nat)
    requires r.Valid() && n == buf.Length
    modifies r`pos, buf
    ensures r.Valid() && r.pos == old(r.pos) + Min(n, |old(r.Rest())|)
  {
    ghost var before := r.Rest();
    var got, _ := r.ReadFull(buf, n);
    assert |r.Rest()| == |before| - got;
  }

  /** The decoder msg.Decode(pr), dispatched on the kind of the empty message. */
  method DecodeMessage(k: Kind, memory: nat, pr: Reader) returns (m: Message, err: Option<Error>)
    requires pr.Valid()
    modifies pr`pos
    ensures pr.Valid()
    ensures var run := DecodeKind(k, memory, old(pr.Rest()));
      && pr.Rest() == run.rest
      && (run.Ok? ==> err.None? && m == run.value)
      && (run.Err? ==> err == Some(run.error))
  {
    hide DecodeVersion, DecodeAddr, DecodeInv, DecodeGetPubKey, DecodePubKey;
    m := VerAckMessage;
    match k
    case VersionKind =>
      var o := new MsgVersion(NO_VERSION);
      err := o.Decode(pr, memory);
      var v := o.Get();
      m := VersionMessage(v);
    case VerAckKind =>
      err := None;
    case GetAddrKind =>
      m, err := GetAddrMessage, None;
    case AddrKind =>
      var o := new MsgAddr();
      err := o.Decode(pr);
      var list := AddrValues(o.AddrList);
      m := AddrMessage(list);
    case InvKind =>
      var o := new MsgInv(InvKind, []);
      err := o.Decode(pr);
      m := InvMessage(o.InvList);
    case GetDataKind =>
      var o := new MsgInv(GetDataKind, []);
      err := o.Decode(pr);
      m := GetDataMessage(o.InvList);
    case GetPubKeyKind =>
      var o := new MsgGetPubKey(NO_GETPUBKEY);
      err := o.Decode(pr);
      var g := o.Get();
      m := GetPubKeyMessage(g);
    case PubKeyKind =>
      var o := new MsgPubKey(NO_PUBKEY);
      err := o.Decode(pr, memory);
      var p := o.Get();
      m := PubKeyMessage(p);
  }

  method AddrValues(list: seq<NetAddress>) returns (vs: seq<NetAddr>)
    ensures vs == Values(list)
  {
    vs := [];
    var i := 0;
    while i < |list|
      invariant i <= |list| && vs == Values(list)[..i]
    {
      var a := list[i].Get();
      vs := vs + [a];
      i := i + 1;
    }
  }

  /** ReadMessageN: returns the count, the message and its payload, or an error. */
  method ReadMessageN(env: Env, r: Reader, net: u32)
    returns (total: nat, msg: Option<Message>, payload: seq<byte>, err: Option<Error>)
    requires r.Valid()
    modifies r`pos
    ensures r.Valid()
    ensures var f := ReadFrame(env, net, old(r.Rest()));
      && r.Rest() == f.rest && total == f.count
      && (f.outcome.Failed? ==> msg.None? && payload == [] && err == Some(f.outcome.error))
      && (f.outcome.Accepted? ==> err.None? && msg == Some(f.outcome.message) && payload == f.outcome.payload)
  {
    hide ParseHeader, ReadFull, Skip, ReadObjectFrame, ReadPlainFrame, Finish, ValidUtf8;
    msg, payload := None, [];
    var n, hdr;
    total := 0;
    n, hdr, err := ReadMessageHeader(r);
    total := total + n;
    if err.Some? { return; }
    if hdr.length > MAX_MESSAGE_PAYLOAD {
      err := Some(MessageError(PayloadTooLarge));
      return;
    }
    if hdr.magic != net {
      DiscardInput(r, hdr.length);
      err := Some(MessageError(WrongNetwork));
      return;
    }
    var command := hdr.command;
    if !ValidUtf8(command) {
      DiscardInput(r, hdr.length);
      err := Some(MessageError(InvalidCommand));
      return;
    }
    var target, buffer;
    if command == CMD_OBJECT {
      n, target, buffer, err := ReadObjectPayload(env, r, hdr);
    } else {
      n, target, buffer, err := ReadPlainPayload(env, r, hdr);
    }
    total := total + n;
    if err.Some? { return; }
    var m;
    m, err := FinishMessage(env, target, hdr.checksum, buffer, r.Rest());
    if err.Some? { return; }
    msg, payload := Some(m), buffer;
  }

  /** The object branch of ReadMessageN: reads the payload, then enough of it to know the type. */
  method ReadObjectPayload(env: Env, r: Reader, hdr: Header)
    returns (total: nat, target: Target, payload: seq<byte>, err: Option<Error>)
    requires r.Valid()
    modifies r`pos
    ensures r.Valid()
    ensures var f := ReadObjectFrame(env, hdr, old(r.Rest()));
      && (err.Some? ==> f == Received(MESSAGE_HEADER_SIZE + total, Failed(err.value), r.Rest()))
      && (err.None? ==> total == |payload| && f == Finish(env, target, hdr.checksum, payload, r.Rest()))
  {
    hide ReadFields, Finish, ObjectTarget, MaxOfTarget;
    target, payload := Foreign(0), [];
    var buffer := new byte[hdr.length](_ => 0);
    total, err := r.ReadFull(buffer, hdr.length);
    if err.Some? { return; }
    assert buffer[..total] == buffer[..];
    payload := buffer[..];
    var tmpr := new Reader(payload);
    var prefix, short := ReadElements(tmpr, [8, 8, 4]);
    if short.Some? {
      err := Some(MessageError(ObjectTooShort));
      return;
    }
    var known := ObjectTarget(AsU32(prefix[2]));
    if known.None? {
      err := Some(MessageError(UnknownObjectType));
      return;
    }
    target := known.value;
    if hdr.length > MaxOfTarget(env, target) {
      err := Some(MessageError(PayloadOverTypeLimit));
    }
  }

  /** The other branch: the command decides; an unhandled or over-long payload is skipped. */
  method ReadPlainPayload(env: Env, r: Reader, hdr: Header)
    returns (total: nat, target: Target, payload: seq<byte>, err: Option<Error>)
    requires r.Valid()
    modifies r`pos
    ensures r.Valid()
    ensures var f := ReadPlainFrame(env, hdr, old(r.Rest()));
      && (err.Some? ==> f == Received(MESSAGE_HEADER_SIZE + total, Failed(err.value), r.Rest()))
      && (err.None? ==> total == |payload| && f == Finish(env, target, hdr.checksum, payload, r.Rest()))
  {
    hide Finish, KindOfCommand, MaxOfKind, Skip;
    total, target, payload := 0, Foreign(0), [];
    var known := KindOfCommand(hdr.command);
    if known.None? {
      DiscardInput(r, hdr.length);
      err := Some(MessageError(UnhandledCommand));
      return;
    }
    target := Modelled(known.value);
    if hdr.length > MaxOfKind(known.value) {
      DiscardInput(r, hdr.length);
      err := Some(MessageError(PayloadOverTypeLimit));
      return;
    }
    var buffer := new byte[hdr.length](_ => 0);
    total, err := r.ReadFull(buffer, hdr.length);
    if err.Some? { return; }
    assert buffer[..total] == buffer[..];
    payload := buffer[..];
  }

  /** The end of ReadMessageN: the checksum, then the decoder. */
  method FinishMessage(env: Env, target: Target, checksum: seq<byte>, payload: seq<byte>, ghost rest: seq<byte>)
    returns (m: Message, err: Option<Error>)
    ensures var f := Finish(env, target, checksum, payload, rest);
      && f.rest == rest && f.count == MESSAGE_HEADER_SIZE + |payload|
      && (f.outcome.Failed? ==> err == Some(f.outcome.error))
      && (f.outcome.Accepted? ==> err.None? && f.outcome == Accepted(m, payload))
  {
    hide DecodeKind;
    m, err := VerAckMessage, None;
    if env.sha512(payload)[..4] != checksum {
      err := Some(MessageError(ChecksumFailed));
      return;
    }
    match target
    case Modelled(k) =>
      var pr := new Reader(payload);
      m, err := DecodeMessage(k, env.memory, pr);
    case Foreign(t) =>
      match env.foreignDecode(t, payload)
      case Err(e, _) => err := Some(e);
      case Ok(e, _) => m := OtherMessage(CMD_OBJECT, e, env.foreignMax(t));
  }
}
