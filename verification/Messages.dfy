/** The messages as values: their commands, limits, encodings and decodings. */
module Messages {
  import opened Octets
  import opened Wire
  import opened Grammar
  import opened Truncation
  import opened Stream
  import opened NetAddresses
  import opened GetPubKeys
  import opened PubKeys
  import opened Inventories
  import opened Addresses
  import opened Versions

  /** The messages whose source is in the repository, and any other implementor of the Message
    * interface: its command, what it encodes to and its payload limit. */
  datatype Message =
    | VersionMessage(version: Version)
    | VerAckMessage
    | GetAddrMessage
    | AddrMessage(addresses: seq<NetAddr>)
    | InvMessage(inventory: seq<ShaHash>)
    | GetDataMessage(wanted: seq<ShaHash>)
    | GetPubKeyMessage(getPubKey: GetPubKey)
    | PubKeyMessage(pubKey: PubKeyObject)
    | OtherMessage(command: seq<byte>, encoding: Encoding, maxPayload: u32)

  type Digest = d: seq<byte> | |d| == 64 witness Zeros(64)

  /** Buffers of up to the maximum message payload can always be allocated. */
  type Memory = n: nat | n >= MAX_MESSAGE_PAYLOAD witness MAX_MESSAGE_PAYLOAD

  /** What the framing relies on: SHA-512, the allocator, and the codec of the object types 2 and
    * 3, each given by what its Decode gives back to encode. */
  datatype Env = Env(
    sha512: seq<byte> -> Digest,
    memory: Memory,
    foreignDecode: (nat, seq<byte>) -> Run<Encoding>,
    foreignMax: nat -> u32)

  // ---------- commands, kinds and limits ----------

  const MESSAGE_HEADER_SIZE: nat := 24
  const COMMAND_SIZE: nat := 12

  const CMD_VERSION: seq<byte> := [118, 101, 114, 115, 105, 111, 110]
  const CMD_VERACK: seq<byte> := [118, 101, 114, 97, 99, 107]
  const CMD_GETADDR: seq<byte> := [103, 101, 116, 97, 100, 100, 114]
  const CMD_ADDR: seq<byte> := [97, 100, 100, 114]
  const CMD_INV: seq<byte> := [105, 110, 118]
  const CMD_GETDATA: seq<byte> := [103, 101, 116, 100, 97, 116, 97]
  const CMD_OBJECT: seq<byte> := [111, 98, 106, 101, 99, 116]

  /** The bytes of a text of single-byte characters. */
  function Ascii(text: string): (b: seq<byte>)
    ensures |b| == |text|
  {
    seq(|text|, i requires 0 <= i < |text| => text[i] as int % 256)
  }

  lemma CommandLetters()
    ensures Ascii("version") == CMD_VERSION && Ascii("verack") == CMD_VERACK && Ascii("getaddr") == CMD_GETADDR
    ensures Ascii("addr") == CMD_ADDR && Ascii("inv") == CMD_INV && Ascii("getdata") == CMD_GETDATA
    ensures Ascii("object") == CMD_OBJECT
  {
  }

  function CommandOfKind(k: Kind): seq<byte> {
    match k
    case VersionKind => CMD_VERSION
    case VerAckKind => CMD_VERACK
    case GetAddrKind => CMD_GETADDR
    case AddrKind => CMD_ADDR
    case InvKind => CMD_INV
    case GetDataKind => CMD_GETDATA
    case GetPubKeyKind => CMD_OBJECT
    case PubKeyKind => CMD_OBJECT
  }

  /** makeEmptyMessage: the kinds a command names by itself. */
  function KindOfCommand(command: seq<byte>): Option<Kind> {
    if command == CMD_VERSION then Some(VersionKind)
    else if command == CMD_VERACK then Some(VerAckKind)
    else if command == CMD_GETADDR then Some(GetAddrKind)
    else if command == CMD_ADDR then Some(AddrKind)
    else if command == CMD_INV then Some(InvKind)
    else if command == CMD_GETDATA then Some(GetDataKind)
    else None
  }

  /** MaxPayloadLength. */
  function MaxOfKind(k: Kind): u32 {
    match k
    case VersionKind => 2102
    case VerAckKind => 0
    case GetAddrKind => 0
    case AddrKind => 30009
    case InvKind => 1600009
    case GetDataKind => 1600009
    case GetPubKeyKind => 0x4_0000
    case PubKeyKind => 0x4_0000
  }

  function KindOf(m: Message): Option<Kind> {
    match m
    case VersionMessage(_) => Some(VersionKind)
    case VerAckMessage => Some(VerAckKind)
    case GetAddrMessage => Some(GetAddrKind)
    case AddrMessage(_) => Some(AddrKind)
    case InvMessage(_) => Some(InvKind)
    case GetDataMessage(_) => Some(GetDataKind)
    case GetPubKeyMessage(_) => Some(GetPubKeyKind)
    case PubKeyMessage(_) => Some(PubKeyKind)
    case OtherMessage(_, _, _) => None
  }

  function CommandOf(m: Message): seq<byte> {
    match KindOf(m) case None => m.command case Some(k) => CommandOfKind(k)
  }

  function MaxPayloadOf(m: Message): u32 {
    match KindOf(m) case None => m.maxPayload case Some(k) => MaxOfKind(k)
  }

  function EncodingOf(m: Message): Encoding {
    match m
    case VersionMessage(v) => VersionEncoding(v)
    case VerAckMessage => Encoding([], None)
    case GetAddrMessage => Encoding([], None)
    case AddrMessage(list) => AddrEncoding(list)
    case InvMessage(list) => InvEncoding(list)
    case GetDataMessage(list) => InvEncoding(list)
    case GetPubKeyMessage(g) => GetPubKeyEncoding(g)
    case PubKeyMessage(p) => PubKeyEncoding(p)
    case OtherMessage(_, e, _) => e
  }

  /** What Decode of an empty message of a kind makes of a payload. */
  function DecodeKind(k: Kind, memory: nat, s: seq<byte>): Run<Message> {
    match k
    case VersionKind =>
      (match DecodeVersion(memory, s) case Err(e, t) => Err(e, t) case Ok(v, t) => Ok(VersionMessage(v), t))
    case VerAckKind => Ok(VerAckMessage, s)
    case GetAddrKind => Ok(GetAddrMessage, s)
    case AddrKind =>
      (match DecodeAddr(s) case Err(e, t) => Err(e, t) case Ok(list, t) => Ok(AddrMessage(list), t))
    case InvKind =>
      (match DecodeInv(InvKind, s) case Err(e, t) => Err(e, t) case Ok(list, t) => Ok(InvMessage(list), t))
    case GetDataKind =>
      (match DecodeInv(GetDataKind, s) case Err(e, t) => Err(e, t) case Ok(list, t) => Ok(GetDataMessage(list), t))
    case GetPubKeyKind =>
      (match DecodeGetPubKey(NO_GETPUBKEY, s) case Err(e, t) => Err(e, t) case Ok(g, t) => Ok(GetPubKeyMessage(g), t))
    case PubKeyKind =>
      match DecodePubKey(memory, NO_PUBKEY, s) case Err(e, t) => Err(e, t) case Ok(p, t) => Ok(PubKeyMessage(p), t)
  }

  // ---------- what survives a journey ----------

  /** The message as its receiver sees it: without the fields its layout does not carry. */
  function Carried(m: Message): Message {
    match m
    case VersionMessage(v) => VersionMessage(v.(addrYou := Untimed(v.addrYou), addrMe := Untimed(v.addrMe)))
    case AddrMessage(list) => AddrMessage(AllTravelled(list))
    case GetPubKeyMessage(g) =>
      GetPubKeyMessage(if g.version >= TAG_BASED_RIPE_VERSION then g.(ripe := None) else g.(tag := None))
    case PubKeyMessage(p) => PubKeyMessage(PubKeySurvivors(NO_PUBKEY, p))
    case _ => m
  }

  /** What the receiver sees, field by field. An address comes without its time in a version message
    * and with it modulo 2^32 in an addr message, and with its IP in sixteen bytes; an object comes with
    * the fields of its version's layout, the others empty. */
  lemma CarriedExactly(m: Message)
    ensures m.VersionMessage? ==>
      var v := m.version;
      Carried(m) == VersionMessage(v.(
        addrYou := NetAddr(-62135596800, v.addrYou.services, SixteenBytes(v.addrYou.ip), v.addrYou.port),
        addrMe := NetAddr(-62135596800, v.addrMe.services, SixteenBytes(v.addrMe.ip), v.addrMe.port)))
    ensures m.AddrMessage? ==>
      Carried(m).AddrMessage? && |Carried(m).addresses| == |m.addresses| &&
      forall i | 0 <= i < |m.addresses| ::
        var a := m.addresses[i];
        Carried(m).addresses[i] == NetAddr(a.timestamp % 0x1_0000_0000, a.services, SixteenBytes(a.ip), a.port)
    ensures m.GetPubKeyMessage? ==>
      var g := m.getPubKey;
      Carried(m) == GetPubKeyMessage(if g.version >= 4 then g.(ripe := None) else g.(tag := None))
    ensures m.PubKeyMessage? ==>
      var p := m.pubKey;
      Carried(m) == PubKeyMessage(
        if p.version >= 4 then
          p.(behavior := 0, signingKey := None, encryptKey := None, nonceTrials := 0, extraBytes := 0, signature := [])
        else if p.version == 3 then p.(tag := None, encrypted := [])
        else p.(nonceTrials := 0, extraBytes := 0, signature := [], tag := None, encrypted := []))
    ensures !m.VersionMessage? && !m.AddrMessage? && !m.GetPubKeyMessage? && !m.PubKeyMessage? ==> Carried(m) == m
  {
    match m
    case VersionMessage(v) => IPOnTheWire(v.addrYou.ip); IPOnTheWire(v.addrMe.ip);
    case AddrMessage(list) =>
      forall i | 0 <= i < |list| ensures WireIP(list[i].ip) == SixteenBytes(list[i].ip) { IPOnTheWire(list[i].ip); }
    case _ =>
  }

  /** An object says it is of its own type. */
  predicate WellTyped(m: Message) {
    && (m.GetPubKeyMessage? ==> m.getPubKey.objectType == GETPUBKEY_TYPE)
    && (m.PubKeyMessage? ==> m.pubKey.objectType == PUBKEY_TYPE)
  }

  /** Each Encode inverts its Decode: a payload accepted re-encodes, in no more bytes, to one
    * that decodes to the same message. */
  lemma KindNormalises(k: Kind, memory: nat, s: seq<byte>)
    requires DecodeKind(k, memory, s).Ok?
    ensures var r := DecodeKind(k, memory, s);
      var e := EncodingOf(r.value);
      && KindOf(r.value) == Some(k) && WellTyped(r.value) && e.fault.None?
      && |Print(e.items)| <= |s| - |r.rest|
      && DecodeKind(k, memory, Print(e.items)) == Ok(r.value, [])
  {
    hide Print, DecodeVersion, DecodeAddr, DecodeInv, DecodeGetPubKey, DecodePubKey,
      VersionEncoding, AddrEncoding, InvEncoding, GetPubKeyEncoding, PubKeyEncoding;
    var e := EncodingOf(DecodeKind(k, memory, s).value);
    assert Print(e.items) + [] == Print(e.items);
    match k
    case VersionKind => VersionNormalises(memory, s, []);
    case VerAckKind => EmptyPrint();
    case GetAddrKind => EmptyPrint();
    case AddrKind => AddrNormalises(s, []);
    case InvKind => InvNormalises(InvKind, s, []);
    case GetDataKind => InvNormalises(GetDataKind, s, []);
    case GetPubKeyKind => GetPubKeyNormalises(NO_GETPUBKEY, s, []); GetPubKeyTyped(NO_GETPUBKEY, s);
    case PubKeyKind => PubKeyNormalises(memory, NO_PUBKEY, s); PubKeyTyped(memory, NO_PUBKEY, s);
  }

  lemma EmptyPrint()
    ensures Print([]) == []
  {
  }

  /** A message that encodes and is well typed decodes, as its receiver sees it. */
  lemma KindRoundTrip(m: Message, memory: nat)
    requires !m.OtherMessage? && EncodingOf(m).fault.None? && WellTyped(m)
    requires m.VersionMessage? ==> Allocatable(memory, |m.version.streams|, 8)
    requires m.PubKeyMessage? && m.pubKey.version == EXTENDED_PUBKEY_VERSION ==> |m.pubKey.signature| <= memory
    ensures DecodeKind(KindOf(m).value, memory, Print(EncodingOf(m).items)) == Ok(Carried(m), [])
  {
    hide Print, DecodeVersion, DecodeAddr, DecodeInv, DecodeGetPubKey, DecodePubKey;
    var e := EncodingOf(m);
    assert Print(e.items) + [] == Print(e.items);
    match m
    case VersionMessage(v) => VersionRoundTrip(memory, v, []);
    case VerAckMessage => EmptyPrint();
    case GetAddrMessage => EmptyPrint();
    case AddrMessage(list) => AddrRoundTrip(list, []);
    case InvMessage(list) => InvRoundTrip(InvKind, list, []);
    case GetDataMessage(list) => InvRoundTrip(GetDataKind, list, []);
    case GetPubKeyMessage(g) => GetPubKeyRoundTrip(NO_GETPUBKEY, g, []);
    case PubKeyMessage(p) => PubKeyRoundTrip(memory, NO_PUBKEY, p, []);
  }

  // ---------- truncation ----------

  function KindLayout(k: Kind, memory: nat): Layout {
    Layout(k, if k.VersionKind? || k.PubKeyKind? then memory else 0)
  }

  lemma KindFailure(k: Kind, memory: nat, s: seq<byte>)
    requires Parse(KindLayout(k, memory), [], s).Err?
    ensures var run := Parse(KindLayout(k, memory), [], s);
      DecodeKind(k, memory, s) == Err(run.error, run.rest)
  {
    hide ReadOp;
  }

  lemma KindConforms(m: Message, memory: nat)
    requires !m.OtherMessage? && EncodingOf(m).fault.None? && WellTyped(m)
    requires m.VersionMessage? ==> Allocatable(memory, |m.version.streams|, 8)
    requires m.PubKeyMessage? && m.pubKey.version == EXTENDED_PUBKEY_VERSION ==> |m.pubKey.signature| <= memory
    ensures Conforms(KindLayout(KindOf(m).value, memory), EncodingOf(m).items)
  {
    hide Conforms, EndsWithTail;
    match m
    case VersionMessage(v) => VersionConforms(memory, v);
    case VerAckMessage => NothingConforms(KindLayout(VerAckKind, memory));
    case GetAddrMessage => NothingConforms(KindLayout(GetAddrKind, memory));
    case AddrMessage(list) => AddrItemsConform(list);
    case InvMessage(list) => InvItemsConform(InvKind, list);
    case GetDataMessage(list) => InvItemsConform(GetDataKind, list);
    case GetPubKeyMessage(g) => GetPubKeyConforms(g);
    case PubKeyMessage(p) => PubKeyConforms(memory, p);
  }

  lemma NothingConforms(l: Layout)
    requires l.kind.VerAckKind? || l.kind.GetAddrKind?
    ensures Conforms(l, [])
  {
  }

  /** Decoding any proper prefix of an encoding fails, short of the encrypted part of a pubkey:
    * with EOF exactly when the prefix ends between two non-empty full reads, and an unexpected
    * EOF otherwise. */
  lemma EncodingCut(m: Message, memory: nat, k: nat)
    requires !m.OtherMessage? && EncodingOf(m).fault.None? && WellTyped(m)
    requires m.VersionMessage? ==> Allocatable(memory, |m.version.streams|, 8)
    requires m.PubKeyMessage? && m.pubKey.version == EXTENDED_PUBKEY_VERSION ==> |m.pubKey.signature| <= memory
    requires var items := EncodingOf(m).items; k + TailLength(items) < |Print(items)|
    ensures var items := EncodingOf(m).items;
      DecodeKind(KindOf(m).value, memory, Print(items)[..k]) ==
        Err(if Boundary(AllCalls(items), k) then EOF else UnexpectedEOF, [])
  {
    KindConforms(m, memory);
    hide EncodingOf, Conforms, Parse, DecodeKind, AllCalls, Boundary;
    PrintCut(KindLayout(KindOf(m).value, memory), EncodingOf(m).items, k);
    KindFailure(KindOf(m).value, memory, Print(EncodingOf(m).items)[..k]);
  }
}
