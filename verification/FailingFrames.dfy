/** Frames on which ReadMessageN fails in surprising ways: some it does not return from, and one that
  * gives EOF in the middle of the stream. */
module FailingFrames {
  import opened Octets
  import opened Wire
  import opened Grammar
  import opened NetAddresses
  import opened Objects
  import opened PubKeys
  import opened Versions
  import opened Messages
  import opened Framing
  import opened FrameLaws
  import opened Sessions
  import opened Refusals
  import Addresses
  import Lists

  // ---------- frames that are not returned from ----------

  /** The items of a version message up to a count of stream numbers that need not be its own. */
  function VersionStart(v: Version, count: u64): seq<Item> { VersionHead(v)[..5] + [Number(count)] }

  lemma VersionStarts(memory: nat, v: Version, count: u64)
    requires |v.userAgent| <= MAX_USER_AGENT_LEN
    ensures Started(VersionLayout(memory), VersionStart(v, count), 6)
  {
    hide NextOp, I32Field, U64Field, I64Field, AddressFields;
    var l, items := VersionLayout(memory), VersionStart(v, count);
    VersionLayoutIs(memory, items);
    assert Widths(HeadFields(v)) == [4, 8, 8] && Widths([U64Field(v.nonce)]) == [8];
    forall i | 0 <= i < 6 ensures NextOp(l, items, i).Expect? && Matches(NextOp(l, items, i).op, items[i]) {
      assert NextOp(l, items, i) == NextInVersion(memory, items, i);
    }
  }

  /** A version message whose count of stream numbers cannot be allocated does not decode, whatever
    * follows the count. */
  lemma VersionCountPanics(memory: nat, v: Version, count: u64, t: seq<byte>)
    requires |v.userAgent| <= MAX_USER_AGENT_LEN && !Allocatable(memory, count, 8)
    ensures DecodeKind(VersionKind, memory, Print(VersionStart(v, count)) + t) == Err(Panic, t)
  {
    var l, items := VersionLayout(memory), VersionStart(v, count);
    VersionStarts(memory, v, count);
    ParseOfStarted(l, items, t);
    VersionLayoutIs(memory, items);
    hide NextOp, Print, Collected;
    ParseStops(l, items, t);
    KindFailure(VersionKind, memory, Print(items) + t);
  }

  /** The items of a version 3 pubkey before its signature. */
  function PubKeyStart(m: PubKeyObject): seq<Item>
    requires m.signingKey.Some? && m.encryptKey.Some?
  {
    StartItems(StartOf(m)) +
    [KeyFields(m.behavior, m.signingKey.value, m.encryptKey.value), Number(m.nonceTrials), Number(m.extraBytes)]
  }

  lemma PubKeyStarts(memory: nat, m: PubKeyObject)
    requires Keyed(m)
    ensures var l, items := PubKeyLayout(memory), PubKeyStart(m);
      Started(l, items, 6) && NextOp(l, items, 6) == Expect(Counted(Min(memory, MAX_INT), Panic))
  {
    var l, items := PubKeyLayout(memory), PubKeyStart(m);
    assert items[..3] == StartItems(StartOf(m));
    StartConforms(l, items, StartOf(m));
    PubKeyLayoutIs(l, items);
    hide U64Field, I64Field, U32Field, BigEndian, StartItems, NextOp;
    assert Widths(items[3].fields) == [4, 64, 64];
    assert NextOp(l, items, 3) == Expect(Fixed([4, 64, 64]));
    assert NextOp(l, items, 4) == NextOp(l, items, 5) == Expect(VarInt);
  }

  /** A version 3 pubkey whose signature length cannot be allocated does not decode, whatever follows
    * the length. */
  lemma SignatureLengthPanics(memory: nat, m: PubKeyObject, length: u64, t: seq<byte>)
    requires Keyed(m)
    requires length > Min(memory, MAX_INT)
    ensures DecodeKind(PubKeyKind, memory, Print(PubKeyStart(m)) + (VarIntBytes(length) + t)) == Err(Panic, t)
  {
    var l, items, s := PubKeyLayout(memory), PubKeyStart(m), VarIntBytes(length) + t;
    PubKeyStarts(memory, m);
    hide NextOp, Print, Parse, Collected, VarIntBytes, PubKeyStart, ReadVarInt;
    ParseOfStarted(l, items, s);
    ReadVarIntOfBytes(length, t);
    ParseText(l, items, s, Min(memory, MAX_INT), Panic);
    KindFailure(PubKeyKind, memory, Print(items) + s);
  }

  predicate Keyed(m: PubKeyObject) {
    && m.signingKey.Some? && m.encryptKey.Some?
    && m.objectType == PUBKEY_TYPE && m.version == EXTENDED_PUBKEY_VERSION
  }

  /** A version frame with a count that cannot be allocated is never returned from. */
  lemma VersionFramePanics(env: Env, net: u32, v: Version, count: u64, t: seq<byte>)
    requires |v.userAgent| <= MAX_USER_AGENT_LEN && !Allocatable(env.memory, count, 8)
    ensures var p := Print(VersionStart(v, count));
      |p| <= MAX_VERSION_PAYLOAD && ReadFrame(env, net, Sealed(env, net, Padded(CMD_VERSION), p) + t) ==
                                    Received(MESSAGE_HEADER_SIZE + |p|, Failed(Panic), t)
  {
    var p := Print(VersionStart(v, count));
    VersionStartLength(v, count);
    VersionCountPanics(env.memory, v, count, []);
    KnownCommandsRoundTrip(VersionKind);
    hide ReadFrame, Sealed, Print, VersionStart, DecodeKind, TrimZeros, Padded;
    assert p + [] == p;
    SealedFrame(env, net, Padded(CMD_VERSION), p, t);
  }

  lemma VersionStartLength(v: Version, count: u64)
    requires |v.userAgent| <= MAX_USER_AGENT_LEN
    ensures |Print(VersionStart(v, count))| <= MAX_VERSION_PAYLOAD
  {
    var n := v.(streams := []);
    var head := VersionHead(n);
    assert head[5] == Number(0) && head[..5] == VersionHead(v)[..5] && VersionItems(n) == head;
    hide Print, VersionHead, VersionItems;
    VersionLength(n);
    assert head == head[..5] + [head[5]];
    PrintAppend(head[..5], [head[5]]);
    PrintAppend(head[..5], [Number(count)]);
    PrintOfOne(Number(0));
    PrintOfOne(Number(count));
  }

  /** Nor is a version 3 pubkey frame with a signature length that cannot be allocated. */
  lemma PubKeyFramePanics(env: Env, net: u32, m: PubKeyObject, length: u64, t: seq<byte>)
    requires Keyed(m) && length > Min(env.memory, MAX_INT)
    ensures var p := Print(PubKeyStart(m)) + VarIntBytes(length);
      |p| <= 0x4_0000 && ReadFrame(env, net, Sealed(env, net, Padded(CMD_OBJECT), p) + t) ==
                         Received(MESSAGE_HEADER_SIZE + |p|, Failed(Panic), t)
  {
    var p := Print(PubKeyStart(m)) + VarIntBytes(length);
    PubKeyStartBytes(m, VarIntBytes(length));
    SignatureLengthPanics(env.memory, m, length, []);
    KnownCommandsRoundTrip(PubKeyKind);
    hide ReadFrame, Sealed, Print, PubKeyStart, VarIntBytes, DecodeKind, TrimZeros, Padded, AsU32;
    assert VarIntBytes(length) + [] == VarIntBytes(length);
    SealedFrame(env, net, Padded(CMD_OBJECT), p, t);
  }

  /** Such frames exist, whatever the memory: 2^63 stream numbers, or a signature of 2^63 bytes. */
  lemma FramesThatPanic(env: Env, net: u32, v: Version, m: PubKeyObject)
    requires |v.userAgent| <= MAX_USER_AGENT_LEN && Keyed(m)
    ensures var p := Print(VersionStart(v, 0x8000_0000_0000_0000));
      |p| <= MAX_VERSION_PAYLOAD &&
      ReadFrame(env, net, Sealed(env, net, Padded(CMD_VERSION), p)).outcome == Failed(Panic)
    ensures var p := Print(PubKeyStart(m)) + VarIntBytes(0x8000_0000_0000_0000);
      |p| <= 0x4_0000 &&
      ReadFrame(env, net, Sealed(env, net, Padded(CMD_OBJECT), p)).outcome == Failed(Panic)
  {
    hide ReadFrame, Sealed, Print, VersionStart, PubKeyStart, VarIntBytes, Padded;
    VersionFramePanics(env, net, v, 0x8000_0000_0000_0000, []);
    PubKeyFramePanics(env, net, m, 0x8000_0000_0000_0000, []);
    NothingFollows(Sealed(env, net, Padded(CMD_VERSION), Print(VersionStart(v, 0x8000_0000_0000_0000))));
    NothingFollows(Sealed(env, net, Padded(CMD_OBJECT), Print(PubKeyStart(m)) + VarIntBytes(0x8000_0000_0000_0000)));
  }

  lemma NothingFollows(s: seq<byte>)
    ensures s + [] == s
  {
  }

  lemma PubKeyStartBytes(m: PubKeyObject, t: seq<byte>)
    requires m.signingKey.Some? && m.encryptKey.Some?
    ensures var p := Print(PubKeyStart(m)) + t;
      20 <= |p| <= 188 + |t| && AsU32(p[16..20]) == m.objectType
  {
    hide Print, AsU32, U32Field, U64Field, I64Field, VarIntBytes, StartItems;
    var keys := KeyFields(m.behavior, m.signingKey.value, m.encryptKey.value);
    var more := [keys, Number(m.nonceTrials), Number(m.extraBytes)];
    PeekedType(StartOf(m), more);
    var p := Print(PubKeyStart(m));
    assert (p + t)[16..20] == p[16..20];
    PrintAppend(StartItems(StartOf(m)), more);
    StartBytes(StartOf(m));
    ShortStart(m.version, m.stream);
    KeyBytes(m.behavior, m.signingKey.value, m.encryptKey.value);
    PrintOfThree(keys, Number(m.nonceTrials), Number(m.extraBytes));
  }

  // ---------- EOF inside the stream ----------


  /** EOF does not mean the end of the stream: an addr frame that declares more addresses than it
    * holds gives EOF and leaves what follows it to be read. */
  lemma EofInsideTheStream(env: Env, net: u32, t: seq<byte>)
    ensures ReadFrame(env, net, Sealed(env, net, Padded(CMD_ADDR), [2]) + t) ==
      Received(MESSAGE_HEADER_SIZE + 1, Failed(EOF), t)
  {
    KnownCommandsRoundTrip(AddrKind);
    assert DecodeKind(AddrKind, env.memory, [2]) == Err(EOF, []) by { OneAddressMissing(); }
    hide ReadFrame, Sealed, DecodeKind, TrimZeros, Padded;
    SealedFrame(env, net, Padded(CMD_ADDR), [2], t);
  }

  lemma OneAddressMissing()
    ensures Parse(Addresses.ADDR_LAYOUT, [], [2]) == Err(EOF, [])
  {
    var l := Addresses.ADDR_LAYOUT;
    assert ReadVarInt([2]) == Ok(2, []);
    Lists.ListStart(l, [2]);
    Lists.ListStep(l, [Number(2)], []);
  }
}
