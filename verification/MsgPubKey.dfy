/** The pubkey object: three layouts, chosen by the version; the last takes the rest of the payload. */
module PubKeys {
  import opened Octets
  import opened Wire
  import opened Grammar
  import opened Truncation
  import opened Stream
  import opened NetAddresses
  import opened Objects

  /** The fields of a MsgPubKey; the keys and the tag may be nil. */
  datatype PubKeyObject = PubKeyObject(
    nonce: u64, expires: i64, objectType: u32, version: u64, stream: u64, behavior: u32,
    signingKey: Option<PubKey>, encryptKey: Option<PubKey>, nonceTrials: u64, extraBytes: u64,
    signature: Slice<byte>, tag: Option<ShaHash>, encrypted: seq<byte>)

  const NO_PUBKEY := PubKeyObject(0, ZERO_TIME, 0, 0, 0, 0, None, None, 0, 0, [], None, [])
  const EXTENDED_PUBKEY_VERSION: u64 := 3
  const ENCRYPTED_PUBKEY_VERSION: u64 := 4

  function PubKeyLayout(memory: nat): Layout { Layout(PubKeyKind, memory) }

  function StartOf(m: PubKeyObject): Start { Start(m.nonce, m.expires, m.objectType, m.version, m.stream) }

  function PubKeyEncoding(m: PubKeyObject): Encoding {
    var body := PubKeyBody(m);
    Encoding(StartItems(StartOf(m)) + body.items, body.fault)
  }

  /** What follows the start. */
  function PubKeyBody(m: PubKeyObject): Encoding {
    if m.version >= ENCRYPTED_PUBKEY_VERSION then
      match m.tag
      case None => Encoding([], Some(Panic))
      case Some(tag) => Encoding([Fields([tag]), Tail(m.encrypted)], None)
    else if m.signingKey.None? then Encoding([Fields([U32Field(m.behavior)])], Some(Panic))
    else if m.encryptKey.None? then Encoding([Fields([U32Field(m.behavior), m.signingKey.value])], Some(Panic))
    else
      var keys := [KeyFields(m.behavior, m.signingKey.value, m.encryptKey.value)];
      Encoding(if m.version == EXTENDED_PUBKEY_VERSION then keys + ExtendedItems(m) else keys, None)
  }

  function KeyFields(behavior: u32, signingKey: PubKey, encryptKey: PubKey): Item {
    Fields([U32Field(behavior), signingKey, encryptKey])
  }

  function ExtendedItems(m: PubKeyObject): seq<Item> {
    [Number(m.nonceTrials), Number(m.extraBytes), Text(m.signature)]
  }

  function AsSlice(b: seq<byte>): Slice<byte> { if |b| <= MAX_INT then b else [] }

  /** The receiver m after a payload of these items was decoded into it. */
  function PubKeyFrom(m: PubKeyObject, items: seq<Item>): PubKeyObject {
    var head, fourth := At(items, 0), At(items, 3);
    var n := m.(nonce := AsU64(head.Field(0)), expires := AsI64(head.Field(1)), objectType := AsU32(head.Field(2)),
                version := At(items, 1).Num(), stream := At(items, 2).Num());
    if n.version >= ENCRYPTED_PUBKEY_VERSION then
      n.(tag := Some(AsSha(fourth.Field(0))), encrypted := At(items, 4).Str())
    else
      var k := n.(behavior := AsU32(fourth.Field(0)),
                  signingKey := Some(AsKey(fourth.Field(1))), encryptKey := Some(AsKey(fourth.Field(2))));
      if n.version == EXTENDED_PUBKEY_VERSION then
        k.(nonceTrials := At(items, 4).Num(), extraBytes := At(items, 5).Num(),
           signature := AsSlice(At(items, 6).Str()))
      else k
  }

  function DecodePubKey(memory: nat, m: PubKeyObject, s: seq<byte>): Run<PubKeyObject> {
    match Parse(PubKeyLayout(memory), [], s)
    case Err(e, t) => Err(e, t)
    case Ok(items, t) => Ok(PubKeyFrom(m, items), t)
  }

  // ---------- laws ----------

  lemma PubKeyShape(memory: nat, items: seq<Item>)
    requires Conforms(PubKeyLayout(memory), items)
    ensures |items| >= 4 && (forall i | 0 <= i < 4 :: NextOp(PubKeyLayout(memory), items, i).Expect?)
    ensures items[0].Fields? && Widths(items[0].fields) == [8, 8, 4]
    ensures items[1].Number? && items[2].Number? && items[3].Fields?
    ensures AsU32(items[0].fields[2]) == PUBKEY_TYPE
    ensures
      if items[1].number >= 4 then
        |items| == 5 && items[4].Tail? && Widths(items[3].fields) == [32] && EndsWithTail(PubKeyLayout(memory), items)
      else
        && Widths(items[3].fields) == [4, 64, 64] && !EndsWithTail(PubKeyLayout(memory), items)
        && (if items[1].number == 3 then
              && |items| == 7 && items[4].Number? && items[5].Number?
              && items[6].Text? && |items[6].text| <= Min(memory, MAX_INT)
            else |items| == 4)
  {
    var l := PubKeyLayout(memory);
    assert |items| >= 4;
    assert NextOp(l, items, 0) == Expect(Fixed([8, 8, 4])) && Matches(Fixed([8, 8, 4]), items[0]);
    FieldWidth(items[0].fields, [8, 8, 4], 2);
    assert NextOp(l, items, 1) == NextOp(l, items, 2) == Expect(VarInt);
    if items[1].number >= 4 {
      assert NextOp(l, items, 3) == Expect(Fixed([32])) && NextOp(l, items, 4) == TakeRest;
    } else if items[1].number == 3 {
      assert NextOp(l, items, 3) == Expect(Fixed([4, 64, 64])) && NextOp(l, items, 4) == Expect(VarInt);
      assert |items| >= 7 && NextOp(l, items, 5) == Expect(VarInt);
      assert NextOp(l, items, 6) == Expect(Counted(Min(memory, MAX_INT), Panic));
      EndsWhereDone(l, items, 7);
    } else {
      assert NextOp(l, items, 3) == Expect(Fixed([4, 64, 64]));
      EndsWhereDone(l, items, 4);
    }
  }

  lemma KeysOfFields(fields: seq<seq<byte>>)
    requires Widths(fields) == [4, 64, 64]
    ensures Fields(fields) == KeyFields(AsU32(fields[0]), AsKey(fields[1]), AsKey(fields[2]))
  {
    hide U32Field, AsU32, Zeros, Widths;
    ThreeWidths(fields, 4, 64, 64);
    UnsignedFields(0, 0, 0, fields[0]);
    ThreeFields(fields, U32Field(AsU32(fields[0])), AsKey(fields[1]), AsKey(fields[2]));
  }

  lemma KeyBytes(behavior: u32, signingKey: PubKey, encryptKey: PubKey)
    ensures ItemBytes(KeyFields(behavior, signingKey, encryptKey)) ==
      (U32Field(behavior) + signingKey[..16]) + (signingKey[16..] + encryptKey)
  {
    hide U32Field;
    ConcatOfThree(U32Field(behavior), signingKey, encryptKey);
    assert signingKey == signingKey[..16] + signingKey[16..];
  }

  /** Every complete item list is the encoding of the message it decodes to, whatever the receiver. */
  lemma PubKeyReencodes(memory: nat, m: PubKeyObject, items: seq<Item>)
    requires Conforms(PubKeyLayout(memory), items)
    ensures PubKeyEncoding(PubKeyFrom(m, items)) == Encoding(items, None)
    ensures EndsWithTail(PubKeyLayout(memory), items) <==> PubKeyFrom(m, items).version >= ENCRYPTED_PUBKEY_VERSION
  {
    PubKeyShape(memory, items);
    hide Conforms, NextOp, EndsWithTail;
    var n := PubKeyFrom(m, items);
    HeaderOfFields(items[0].fields);
    var head := [items[0], items[1], items[2]];
    assert head == StartItems(StartOf(n));
    var last := items[3].fields;
    if items[1].number >= 4 {
      FieldWidth(last, [32], 0);
      assert last == [last[0]];
      assert items == head + [items[3], items[4]];
    } else {
      KeysOfFields(last);
      if items[1].number == 3 {
        assert items == head + [items[3]] + [items[4], items[5], items[6]];
      } else {
        assert items == head + [items[3]];
      }
    }
  }

  /** Which fields of m a payload of its version carries; the others keep the receiver's values. */
  function PubKeySurvivors(into: PubKeyObject, m: PubKeyObject): PubKeyObject {
    if m.version >= ENCRYPTED_PUBKEY_VERSION then
      m.(behavior := into.behavior, signingKey := into.signingKey, encryptKey := into.encryptKey,
         nonceTrials := into.nonceTrials, extraBytes := into.extraBytes, signature := into.signature)
    else if m.version == EXTENDED_PUBKEY_VERSION then
      m.(tag := into.tag, encrypted := into.encrypted)
    else
      m.(nonceTrials := into.nonceTrials, extraBytes := into.extraBytes, signature := into.signature,
         tag := into.tag, encrypted := into.encrypted)
  }

  lemma StartConforms(l: Layout, items: seq<Item>, o: Start)
    requires |items| >= 3 && items[..3] == StartItems(o)
    requires l.kind.PubKeyKind? && o.objectType == PUBKEY_TYPE
    ensures Started(l, items, 3) && items[1].Num() == o.version
    ensures BigEndian(items[0].Field(2)) == PUBKEY_TYPE
  {
    hide U64Field, I64Field, U32Field, BigEndian;
    FieldsOfHeader(o.nonce, o.expires, o.objectType);
    assert forall i | 0 <= i < 3 :: items[i] == items[..3][i];
  }

  lemma PubKeyLayoutIs(l: Layout, items: seq<Item>)
    requires l.kind.PubKeyKind?
    ensures forall i | 0 <= i <= |items| :: NextOp(l, items, i) == NextInPubKey(l.memory, items, i)
  {
  }

  lemma PubKeyConforms(memory: nat, m: PubKeyObject)
    requires PubKeyEncoding(m).fault.None? && m.objectType == PUBKEY_TYPE
    requires m.version == EXTENDED_PUBKEY_VERSION ==> |m.signature| <= memory
    ensures Conforms(PubKeyLayout(memory), PubKeyEncoding(m).items)
    ensures EndsWithTail(PubKeyLayout(memory), PubKeyEncoding(m).items) <==> m.version >= ENCRYPTED_PUBKEY_VERSION
  {
    var l, items := PubKeyLayout(memory), PubKeyEncoding(m).items;
    assert items[..3] == StartItems(StartOf(m));
    StartConforms(l, items, StartOf(m));
    hide StartItems, NextOp, PubKeyEncoding, BigEndian, Conforms, EndsWithTail, Started;
    if m.version >= ENCRYPTED_PUBKEY_VERSION {
      EncryptedItems(m);
      EncryptedConforms(memory, items);
    } else {
      KeyedItems(m);
      KeyedConforms(memory, items);
    }
  }

  lemma EncryptedConforms(memory: nat, items: seq<Item>)
    requires |items| == 5 && Started(PubKeyLayout(memory), items, 3)
    requires BigEndian(items[0].Field(2)) == PUBKEY_TYPE && items[1].Num() >= ENCRYPTED_PUBKEY_VERSION
    requires items[3].Fields? && Widths(items[3].fields) == [32] && items[4].Tail?
    ensures Conforms(PubKeyLayout(memory), items) && EndsWithTail(PubKeyLayout(memory), items)
  {
    var l := PubKeyLayout(memory);
    assert NextOp(l, items, 3) == Expect(Fixed([32])) && NextOp(l, items, 4) == TakeRest;
    hide NextOp, Widths;
  }

  lemma KeyedConforms(memory: nat, items: seq<Item>)
    requires |items| >= 4 && Started(PubKeyLayout(memory), items, 3)
    requires BigEndian(items[0].Field(2)) == PUBKEY_TYPE && items[1].Num() < ENCRYPTED_PUBKEY_VERSION
    requires items[3].Fields? && Widths(items[3].fields) == [4, 64, 64]
    requires if items[1].Num() == EXTENDED_PUBKEY_VERSION then
        && |items| == 7 && items[4].Number? && items[5].Number?
        && items[6].Text? && |items[6].text| <= Min(memory, MAX_INT)
      else |items| == 4
    ensures Conforms(PubKeyLayout(memory), items) && !EndsWithTail(PubKeyLayout(memory), items)
  {
    var l := PubKeyLayout(memory);
    PubKeyLayoutIs(l, items);
    assert NextOp(l, items, 3) == Expect(Fixed([4, 64, 64]));
    assert |items| == 7 ==> NextOp(l, items, 4) == NextOp(l, items, 5) == Expect(VarInt);
    assert |items| == 7 ==> NextOp(l, items, 6) == Expect(Counted(Min(memory, MAX_INT), Panic));
    assert NextOp(l, items, |items|) == Done;
    hide NextOp, Widths;
    assert Started(l, items, |items|);
    NoTailWhenDone(l, items);
  }

  /** The items after the start of an encoding. */
  lemma EncryptedItems(m: PubKeyObject)
    requires PubKeyEncoding(m).fault.None? && m.version >= ENCRYPTED_PUBKEY_VERSION
    ensures var items := PubKeyEncoding(m).items;
      |items| == 5 && items[3].Fields? && Widths(items[3].fields) == [32] && items[4].Tail?
  {
    hide StartItems;
  }

  lemma KeyedItems(m: PubKeyObject)
    requires PubKeyEncoding(m).fault.None? && m.version < ENCRYPTED_PUBKEY_VERSION
    ensures var items := PubKeyEncoding(m).items;
      && |items| == (if m.version == EXTENDED_PUBKEY_VERSION then 7 else 4)
      && items[3].Fields? && Widths(items[3].fields) == [4, 64, 64]
      && (m.version == EXTENDED_PUBKEY_VERSION ==>
            items[4].Number? && items[5].Number? && items[6] == Text(m.signature))
  {
    hide StartItems, U32Field;
    var items := PubKeyEncoding(m).items;
    assert Widths(items[3].fields) == [4, 64, 64];
  }

  lemma PubKeyFromItems(into: PubKeyObject, m: PubKeyObject)
    requires PubKeyEncoding(m).fault.None?
    ensures PubKeyFrom(into, PubKeyEncoding(m).items) == PubKeySurvivors(into, m)
  {
    hide U64Field, I64Field, U32Field, AsU64, AsI64, AsU32, Zeros;
    FieldsOfHeader(m.nonce, m.expires, m.objectType);
    UnsignedFields(0, m.behavior, 0, []);
  }

  /** Encoding, then decoding: the message comes back with exactly the fields of its own layout -
    * unless its object type is not the pubkey type, which Encode writes all the same and Decode
    * then refuses. Nothing may follow an encrypted key, which runs to the end of the payload. */
  lemma PubKeyRoundTrip(memory: nat, into: PubKeyObject, m: PubKeyObject, t: seq<byte>)
    requires PubKeyEncoding(m).fault.None?
    requires m.version == EXTENDED_PUBKEY_VERSION ==> |m.signature| <= memory
    requires m.version >= ENCRYPTED_PUBKEY_VERSION ==> t == []
    ensures Conforms(PubKeyLayout(memory), PubKeyEncoding(m).items) <==> m.objectType == PUBKEY_TYPE
    ensures DecodePubKey(memory, into, Print(PubKeyEncoding(m).items) + t) ==
      if m.objectType == PUBKEY_TYPE then Ok(PubKeySurvivors(into, m), t)
      else Err(MessageError(WrongObjectType), Print(PubKeyEncoding(m).items[1..]) + t)
  {
    hide Parse, Print, Conforms, EndsWithTail, ReadOp, PubKeyFrom, PubKeySurvivors;
    var l, items := PubKeyLayout(memory), PubKeyEncoding(m).items;
    FieldsOfHeader(m.nonce, m.expires, m.objectType);
    if m.objectType == PUBKEY_TYPE {
      PubKeyConforms(memory, m);
      PubKeyFromItems(into, m);
      ParseOfPrint(l, items, t);
    } else {
      WrongTypeIsRefused(l, items, t);
    }
  }

  /** An accepted payload re-encodes into no more bytes, which decode to the same message. */
  lemma PubKeyNormalises(memory: nat, into: PubKeyObject, s: seq<byte>)
    requires DecodePubKey(memory, into, s).Ok?
    ensures var r := DecodePubKey(memory, into, s);
      var e := PubKeyEncoding(r.value);
      && e.fault.None? && |Print(e.items)| <= |s| - |r.rest|
      && DecodePubKey(memory, into, Print(e.items)) == Ok(r.value, [])
  {
    var l := PubKeyLayout(memory);
    var items := Parse(l, [], s).value;
    ParseConforms(l, s);
    PubKeyReencodes(memory, into, items);
    Normalise(l, s, []);
    assert Print(items) + [] == Print(items);
  }

  lemma PubKeyTyped(memory: nat, into: PubKeyObject, s: seq<byte>)
    requires DecodePubKey(memory, into, s).Ok?
    ensures DecodePubKey(memory, into, s).value.objectType == PUBKEY_TYPE
  {
    ParseConforms(PubKeyLayout(memory), s);
    PubKeyShape(memory, Parse(PubKeyLayout(memory), [], s).value);
  }

  lemma TailIsEncrypted(into: PubKeyObject, items: seq<Item>, tail: seq<byte>)
    requires |items| == 5 && items[1].Number? && items[1].number >= ENCRYPTED_PUBKEY_VERSION && items[4].Tail?
    ensures PubKeyFrom(into, items).encrypted == items[4].tail
    ensures PubKeyFrom(into, items).version == items[1].number
    ensures PubKeyFrom(into, items[..4] + [Tail(tail)]) == PubKeyFrom(into, items).(encrypted := tail)
  {
    hide AsSha, AsU32, AsU64, AsI64;
  }

  lemma EncryptedShape(memory: nat, into: PubKeyObject, s: seq<byte>)
    requires DecodePubKey(memory, into, s).Ok?
    requires DecodePubKey(memory, into, s).value.version >= ENCRYPTED_PUBKEY_VERSION
    ensures var run := Parse(PubKeyLayout(memory), [], s);
      && run.Ok? && run.rest == [] && |run.value| == 5 && run.value[4].Tail?
      && run.value[1].Number? && run.value[1].number >= ENCRYPTED_PUBKEY_VERSION
  {
    var l := PubKeyLayout(memory);
    var items := Parse(l, [], s).value;
    ParseConforms(l, s);
    PubKeyShape(memory, items);
    hide Parse, Conforms, EndsWithTail, NextOp, AsSha, AsU32, AsU64, AsI64, AsKey;
  }

  lemma EncryptedIsTail(memory: nat, into: PubKeyObject, s: seq<byte>)
    requires DecodePubKey(memory, into, s).Ok?
    requires DecodePubKey(memory, into, s).value.version >= ENCRYPTED_PUBKEY_VERSION
    ensures DecodePubKey(memory, into, s).value.encrypted == At(Parse(PubKeyLayout(memory), [], s).value, 4).Str()
  {
    EncryptedShape(memory, into, s);
    hide Parse, PubKeyFrom;
    TailIsEncrypted(into, Parse(PubKeyLayout(memory), [], s).value, []);
  }

  lemma EncryptedCutInside(memory: nat, into: PubKeyObject, s: seq<byte>, k: nat)
    requires DecodePubKey(memory, into, s).Ok?
    requires DecodePubKey(memory, into, s).value.version >= ENCRYPTED_PUBKEY_VERSION
    requires var m := DecodePubKey(memory, into, s).value; k <= |s| && |s| - k <= |m.encrypted|
    ensures var m := DecodePubKey(memory, into, s).value;
      DecodePubKey(memory, into, s[..k]) == Ok(m.(encrypted := m.encrypted[..|m.encrypted| - (|s| - k)]), [])
  {
    var l := PubKeyLayout(memory);
    var items := Parse(l, [], s).value;
    EncryptedShape(memory, into, s);
    EncryptedIsTail(memory, into, s);
    hide Parse, PubKeyFrom;
    var tail := items[4].tail;
    TailCut(l, [], s, k);
    TailIsEncrypted(into, items, tail[..|tail| - (|s| - k)]);
  }

  lemma EncryptedCutBefore(memory: nat, into: PubKeyObject, s: seq<byte>, k: nat)
    requires DecodePubKey(memory, into, s).Ok?
    requires DecodePubKey(memory, into, s).value.version >= ENCRYPTED_PUBKEY_VERSION
    requires var m := DecodePubKey(memory, into, s).value; k <= |s| && |s| - k > |m.encrypted|
    ensures DecodePubKey(memory, into, s[..k]) ==
      Err(if Boundary(Calls(PubKeyLayout(memory), [], s), k) then EOF else UnexpectedEOF, [])
  {
    EncryptedShape(memory, into, s);
    EncryptedIsTail(memory, into, s);
    hide Parse, Calls, Boundary, PubKeyFrom;
    ParseCut(PubKeyLayout(memory), s, k);
  }

  /** The exception to truncation: an encrypted key cut inside its encrypted part is accepted,
    * with that part cut short. */
  lemma EncryptedPubKeyCut(memory: nat, into: PubKeyObject, s: seq<byte>, k: nat)
    requires DecodePubKey(memory, into, s).Ok? && k <= |s|
    requires DecodePubKey(memory, into, s).value.version >= ENCRYPTED_PUBKEY_VERSION
    ensures var m := DecodePubKey(memory, into, s).value;
      var lost := |s| - k;
      if lost <= |m.encrypted| then
        DecodePubKey(memory, into, s[..k]) == Ok(m.(encrypted := m.encrypted[..|m.encrypted| - lost]), [])
      else
        DecodePubKey(memory, into, s[..k]) ==
          Err(if Boundary(Calls(PubKeyLayout(memory), [], s), k) then EOF else UnexpectedEOF, [])
  {
    EncryptedShape(memory, into, s);
    EncryptedIsTail(memory, into, s);
    hide DecodePubKey, Parse, Calls, Boundary;
    var lost, tail := |s| - k, Parse(PubKeyLayout(memory), [], s).value[4].tail;
    if lost <= |tail| {
      EncryptedCutInside(memory, into, s, k);
    } else {
      EncryptedCutBefore(memory, into, s, k);
    }
  }

  // ---------- the decoder's stages after the start ----------

  lemma PubKeyFourth(memory: nat, o: Start)
    requires o.objectType == PUBKEY_TYPE
    ensures NextOp(PubKeyLayout(memory), StartItems(o), 3) ==
      Expect(Fixed(if o.version >= ENCRYPTED_PUBKEY_VERSION then [32] else [4, 64, 64]))
  {
    FieldsOfHeader(o.nonce, o.expires, o.objectType);
  }

  lemma PubKeyAfterFourth(memory: nat, o: Start, fields: seq<seq<byte>>)
    requires o.objectType == PUBKEY_TYPE
    ensures var l, items := PubKeyLayout(memory), StartItems(o) + [Fields(fields)];
      && (o.version >= ENCRYPTED_PUBKEY_VERSION ==> NextOp(l, items, 4) == TakeRest)
      && (o.version == EXTENDED_PUBKEY_VERSION ==> NextOp(l, items, 4) == Expect(VarInt))
      && (o.version < EXTENDED_PUBKEY_VERSION ==> NextOp(l, items, 4) == Done)
  {
    FieldsOfHeader(o.nonce, o.expires, o.objectType);
  }

  lemma PubKeyExtended(memory: nat, o: Start, fields: seq<seq<byte>>, a: u64, b: u64, sig: seq<byte>)
    requires o.objectType == PUBKEY_TYPE && o.version == EXTENDED_PUBKEY_VERSION
    ensures var l, items := PubKeyLayout(memory), StartItems(o) + [Fields(fields)];
      && NextOp(l, items + [Number(a)], 5) == Expect(VarInt)
      && NextOp(l, items + [Number(a)] + [Number(b)], 6) == Expect(Counted(Min(memory, MAX_INT), Panic))
      && NextOp(l, items + [Number(a)] + [Number(b)] + [Text(sig)], 7) == Done
  {
    FieldsOfHeader(o.nonce, o.expires, o.objectType);
  }

  /** The start a receiver has before decoding is overwritten by what is decoded. */
  lemma StartIsOverwritten(m: PubKeyObject, o: Start)
    ensures var n := m.(nonce := o.nonce, expires := o.expires, objectType := o.objectType,
                        version := o.version, stream := o.stream);
      StartOf(n) == o && forall items :: PubKeyFrom(n, items) == PubKeyFrom(m, items)
  {
    hide AsU64, AsI64, AsU32, AsSha, AsKey, AsSlice;
  }

  /** What the receiver, its start already assigned, holds after the items of a whole payload. */
  lemma PubKeyAssignedEncrypted(m: PubKeyObject, tag: seq<byte>, encrypted: seq<byte>)
    requires m.version >= ENCRYPTED_PUBKEY_VERSION
    ensures PubKeyFrom(m, StartItems(StartOf(m)) + [Fields([tag])] + [Tail(encrypted)])
         == m.(tag := Some(AsSha(tag)), encrypted := encrypted)
  {
    hide U64Field, I64Field, U32Field, AsU64, AsI64, AsU32, AsSha;
    FieldsOfHeader(m.nonce, m.expires, m.objectType);
  }

  lemma PubKeyAssignedKeys(m: PubKeyObject, fields: seq<seq<byte>>)
    requires m.version < EXTENDED_PUBKEY_VERSION && |fields| == 3
    ensures PubKeyFrom(m, StartItems(StartOf(m)) + [Fields(fields)])
         == m.(behavior := AsU32(fields[0]), signingKey := Some(AsKey(fields[1])), encryptKey := Some(AsKey(fields[2])))
  {
    hide U64Field, I64Field, U32Field, AsU64, AsI64, AsU32, AsKey;
    FieldsOfHeader(m.nonce, m.expires, m.objectType);
  }

  lemma PubKeyAssignedExtended(m: PubKeyObject, fields: seq<seq<byte>>, a: u64, b: u64, sig: Slice<byte>)
    requires m.version == EXTENDED_PUBKEY_VERSION && |fields| == 3
    ensures PubKeyFrom(m, StartItems(StartOf(m)) + [Fields(fields)] + [Number(a), Number(b), Text(sig)])
         == m.(behavior := AsU32(fields[0]), signingKey := Some(AsKey(fields[1])), encryptKey := Some(AsKey(fields[2])),
               nonceTrials := a, extraBytes := b, signature := sig)
  {
    hide U64Field, I64Field, U32Field, AsU64, AsI64, AsU32, AsKey;
    FieldsOfHeader(m.nonce, m.expires, m.objectType);
  }

  // ---------- the receiver of a decoder, whether or not it succeeds ----------

  /** The receiver after decoding from s: its start as far as it was read, then what its version's
    * layout has as far as that was read. New arrays are filled with what there is for them, and a
    * varint that cannot be read is assigned zero. */
  function PubKeyAfter(memory: nat, m: PubKeyObject, s: seq<byte>): PubKeyObject {
    var o := StartAfter(StartOf(m), PUBKEY_TYPE, s);
    var n := m.(nonce := o.nonce, expires := o.expires, objectType := o.objectType,
                version := o.version, stream := o.stream);
    var start := ReadStart(PUBKEY_TYPE, s);
    if start.Err? then n
    else if n.version >= ENCRYPTED_PUBKEY_VERSION then EncryptedAfter(n, start.rest)
    else KeysAndMoreAfter(memory, n, start.rest)
  }

  function EncryptedAfter(m: PubKeyObject, s: seq<byte>): PubKeyObject {
    m.(tag := Some(Filled(HASH_SIZE, s)), encrypted := if |s| < HASH_SIZE then m.encrypted else s[HASH_SIZE..])
  }

  function KeysAfter(m: PubKeyObject, s: seq<byte>): PubKeyObject {
    m.(behavior := if |s| < 4 then m.behavior else AsU32(s[..4]),
       signingKey := Some(Filled(PUBKEY_SIZE, s[Min(4, |s|)..])),
       encryptKey := Some(Filled(PUBKEY_SIZE, s[Min(68, |s|)..])))
  }

  function KeysAndMoreAfter(memory: nat, m: PubKeyObject, s: seq<byte>): PubKeyObject {
    var n := KeysAfter(m, s);
    if m.version == EXTENDED_PUBKEY_VERSION && |s| >= 132 then ExtendedAfter(memory, n, s[132..]) else n
  }

  function ExtendedAfter(memory: nat, m: PubKeyObject, s: seq<byte>): PubKeyObject {
    var a := ReadVarInt(s);
    if a.Err? then m.(nonceTrials := 0)
    else
      var b := ReadVarInt(a.rest);
      if b.Err? then m.(nonceTrials := a.value, extraBytes := 0)
      else m.(nonceTrials := a.value, extraBytes := b.value, signature := SignatureAfter(memory, m.signature, b.rest))
  }

  function SignatureAfter(memory: nat, before: Slice<byte>, s: seq<byte>): Slice<byte> {
    var n := ReadVarInt(s);
    if n.Err? || !Allocatable(memory, n.value, 1) then before else Filled(n.value, n.rest)
  }

  /** Behavior and two keys: which read of the three fails, and how. */
  lemma KeySlices(s: seq<byte>)
    ensures |s| < 132 ==>
      ReadFields([4, 64, 64], s) == Err(if |s| == 0 || |s| == 4 || |s| == 68 then EOF else UnexpectedEOF, [])
    ensures |s| >= 132 ==> ReadFields([4, 64, 64], s) == Ok([s[..4], s[4..68], s[68..132]], s[132..])
  {
    hide ReadFields, FieldsRead;
    ThreeSlices(4, 64, 64, s);
    assert [4, 64, 64] == [4] + ([64] + ([64] + []));
    OneSlice(4, [64] + ([64] + []), s);
    if |s| >= 4 {
      OneSlice(64, [64] + [], s[4..]);
      if |s| >= 68 { OneSlice(64, [], s[4..][64..]); }
    }
  }

  /** What the keys are filled with, by how much there is to read. */
  lemma KeysFilled(m: PubKeyObject, s: seq<byte>)
    ensures KeysAfter(m, s) ==
      if |s| < 4 then m.(signingKey := Some(Zeros(PUBKEY_SIZE)), encryptKey := Some(Zeros(PUBKEY_SIZE)))
      else if |s| < 68 then
        m.(behavior := AsU32(s[..4]), signingKey := Some(Filled(PUBKEY_SIZE, s[4..])),
           encryptKey := Some(Zeros(PUBKEY_SIZE)))
      else if |s| < 132 then
        m.(behavior := AsU32(s[..4]), signingKey := Some(s[4..68]), encryptKey := Some(Filled(PUBKEY_SIZE, s[68..])))
      else m.(behavior := AsU32(s[..4]), signingKey := Some(s[4..68]), encryptKey := Some(s[68..132]))
  {
    hide AsU32;
    FilledFromNothing(s[|s|..]);
    if |s| >= 68 { OneField(PUBKEY_SIZE, s[4..]); SliceOfDrop(s, 4, 64, 0); }
    if |s| >= 132 { OneField(PUBKEY_SIZE, s[68..]); SliceOfDrop(s, 68, 64, 0); }
  }

  lemma FilledFromNothing(s: seq<byte>)
    requires s == []
    ensures Filled(PUBKEY_SIZE, s) == Zeros(PUBKEY_SIZE)
  {
  }

  class MsgPubKey {
    var Nonce: u64
    var ExpiresTime: i64
    var ObjectType: u32
    var Version: u64
    var StreamNumber: u64
    var Behavior: u32
    var SigningKey: Option<PubKey>
    var EncryptKey: Option<PubKey>
    var NonceTrials: u64
    var ExtraBytes: u64
    var Signature: Slice<byte>
    var Tag: Option<ShaHash>
    var Encrypted: seq<byte>

    ghost function Value(): PubKeyObject
      reads this
    {
      PubKeyObject(Nonce, ExpiresTime, ObjectType, Version, StreamNumber, Behavior, SigningKey, EncryptKey,
                   NonceTrials, ExtraBytes, Signature, Tag, Encrypted)
    }

    constructor (m: PubKeyObject)
      ensures Value() == m
    {
      Nonce, ExpiresTime, ObjectType, Version, StreamNumber := m.nonce, m.expires, m.objectType, m.version, m.stream;
      Behavior, SigningKey, EncryptKey := m.behavior, m.signingKey, m.encryptKey;
      NonceTrials, ExtraBytes, Signature := m.nonceTrials, m.extraBytes, m.signature;
      Tag, Encrypted := m.tag, m.encrypted;
    }

    method Get() returns (m: PubKeyObject)
      ensures m == Value()
    {
      m := PubKeyObject(Nonce, ExpiresTime, ObjectType, Version, StreamNumber, Behavior, SigningKey, EncryptKey,
                        NonceTrials, ExtraBytes, Signature, Tag, Encrypted);
    }

    /** Decode, in a process that can allocate `memory` bytes at once. */
    method Decode(r: Reader, memory: nat) returns (err: Option<Error>)
      requires r.Valid()
      modifies this, r`pos
      ensures r.Valid()
      ensures var run := DecodePubKey(memory, old(Value()), old(r.Rest()));
        && r.Rest() == run.rest
        && (run.Ok? ==> err.None? && Value() == run.value)
        && (run.Err? ==> err == Some(run.error))
      ensures Value() == PubKeyAfter(memory, old(Value()), old(r.Rest()))
    {
      hide Parse, ReadStart, PubKeyFrom, StartItems, StartAfter, EncryptedAfter, KeysAndMoreAfter;
      ghost var m := Value();
      ObjectStart(PubKeyLayout(memory), PUBKEY_TYPE, r.Rest());
      StartAfterSuccess(StartOf(m), PUBKEY_TYPE, r.Rest());
      var start;
      start, err := ReadObjectStart(r, PUBKEY_TYPE, Start(Nonce, ExpiresTime, ObjectType, Version, StreamNumber));
      Nonce, ExpiresTime, ObjectType := start.nonce, start.expires, start.objectType;
      Version, StreamNumber := start.version, start.stream;
      if err.Some? { return; }
      StartIsOverwritten(m, start);
      if Version >= ENCRYPTED_PUBKEY_VERSION {
        err := DecodeEncrypted(r, memory);
      } else {
        err := DecodeKeys(r, memory);
      }
    }

    method DecodeEncrypted(r: Reader, memory: nat) returns (err: Option<Error>)
      requires r.Valid() && ObjectType == PUBKEY_TYPE && Version >= ENCRYPTED_PUBKEY_VERSION
      modifies this`Tag, this`Encrypted, r`pos
      ensures r.Valid()
      ensures var run := Parse(PubKeyLayout(memory), StartItems(StartOf(old(Value()))), old(r.Rest()));
        && r.Rest() == run.rest
        && (run.Ok? ==> err.None? && Value() == PubKeyFrom(old(Value()), run.value))
        && (run.Err? ==> err == Some(run.error))
      ensures Value() == EncryptedAfter(old(Value()), old(r.Rest()))
    {
      hide Parse, ReadFields, NextOp, PubKeyFrom, StartItems, Filled;
      ghost var l, m, s := PubKeyLayout(memory), Value(), r.Rest();
      ghost var start := StartOf(m);
      PubKeyFourth(memory, start);
      ParseFixed(l, StartItems(start), s, [HASH_SIZE]);
      OneField(HASH_SIZE, s);
      var tag;
      tag, err := ReadArray(r, HASH_SIZE);
      Tag := Some(tag);
      if err.Some? { return; }
      // Everything left is the encrypted part.
      PubKeyAfterFourth(memory, start, [tag]);
      PubKeyAssignedEncrypted(m, tag, r.Rest());
      ParseStops(l, StartItems(start) + [Fields([tag])], r.Rest());
      Encrypted := r.ReadAll();
    }

    method DecodeKeys(r: Reader, memory: nat) returns (err: Option<Error>)
      requires r.Valid() && ObjectType == PUBKEY_TYPE && Version < ENCRYPTED_PUBKEY_VERSION
      modifies this`Behavior, this`SigningKey, this`EncryptKey, this`NonceTrials, this`ExtraBytes, this`Signature, r`pos
      ensures r.Valid()
      ensures var run := Parse(PubKeyLayout(memory), StartItems(StartOf(old(Value()))), old(r.Rest()));
        && r.Rest() == run.rest
        && (run.Ok? ==> err.None? && Value() == PubKeyFrom(old(Value()), run.value))
        && (run.Err? ==> err == Some(run.error))
      ensures Value() == KeysAndMoreAfter(memory, old(Value()), old(r.Rest()))
    {
      hide Parse, ReadFields, NextOp, PubKeyFrom, StartItems, AsKey, AsU32, KeysAfter, ExtendedAfter;
      ghost var l, m, s := PubKeyLayout(memory), Value(), r.Rest();
      ghost var start, fields := StartOf(m), FieldsRead([4, 64, 64], s);
      PubKeyFourth(memory, start);
      ParseFixed(l, StartItems(start), s, [4, 64, 64]);
      err := ReadKeys(r);
      if err.Some? { return; }
      if Version == EXTENDED_PUBKEY_VERSION {
        err := DecodeExtended(r, memory, start, fields);
        PubKeyAssignedExtended(m, fields, NonceTrials, ExtraBytes, Signature);
      } else {
        PubKeyAfterFourth(memory, start, fields);
        PubKeyAssignedKeys(m, fields);
        ParseStops(l, StartItems(start) + [Fields(fields)], r.Rest());
      }
    }

    /** Behavior and two keys, each read into the receiver; the keys are new arrays. */
    method ReadKeys(r: Reader) returns (err: Option<Error>)
      requires r.Valid()
      modifies this`Behavior, this`SigningKey, this`EncryptKey, r`pos
      ensures r.Valid()
      ensures var run := ReadFields([4, 64, 64], old(r.Rest()));
        && r.Rest() == run.rest
        && (run.Err? ==> err == Some(run.error) && |old(r.Rest())| < 132)
        && (run.Ok? ==>
              && err.None? && |old(r.Rest())| >= 132 && r.Rest() == old(r.Rest())[132..]
              && Behavior == AsU32(run.value[0])
              && SigningKey == Some(AsKey(run.value[1])) && EncryptKey == Some(AsKey(run.value[2])))
      ensures Value() == KeysAfter(old(Value()), old(r.Rest()))
    {
      hide ReadFields, FieldsRead, AsU32, Filled, KeysAfter;
      ghost var s := r.Rest();
      KeySlices(s);
      KeysFilled(Value(), s);
      OneField(4, s);
      SigningKey, EncryptKey := Some(Zeros(PUBKEY_SIZE)), Some(Zeros(PUBKEY_SIZE));
      var behavior, key;
      behavior, err := ReadElements(r, [4]);
      if err.Some? { return; }
      Behavior := AsU32(behavior[0]);
      SliceOfDrop(s, 4, 64, 64);
      key, err := ReadArray(r, PUBKEY_SIZE);
      SigningKey := Some(key);
      if err.Some? { return; }
      assert r.Rest() == s[68..];
      SliceOfDrop(s, 68, 64, 0);
      key, err := ReadArray(r, PUBKEY_SIZE);
      EncryptKey := Some(key);
    }

    /** The part of Decode only version 3 has: proof-of-work parameters and signature. */
    method DecodeExtended(r: Reader, memory: nat, ghost start: Start, ghost fields: seq<seq<byte>>)
      returns (err: Option<Error>)
      requires r.Valid() && start.objectType == PUBKEY_TYPE && start.version == EXTENDED_PUBKEY_VERSION
      modifies this`NonceTrials, this`ExtraBytes, this`Signature, r`pos
      ensures r.Valid()
      ensures var run := Parse(PubKeyLayout(memory), StartItems(start) + [Fields(fields)], old(r.Rest()));
        && r.Rest() == run.rest
        && (run.Ok? ==> err.None?)
        && (run.Ok? ==> run.value == StartItems(start) + [Fields(fields)]
                                   + [Number(NonceTrials), Number(ExtraBytes), Text(Signature)])
        && (run.Err? ==> err == Some(run.error))
      ensures Value() == ExtendedAfter(memory, old(Value()), old(r.Rest()))
    {
      hide Parse, NextOp, StartItems, ReadVarInt, SignatureAfter;
      ghost var l, items := PubKeyLayout(memory), StartItems(start) + [Fields(fields)];
      PubKeyAfterFourth(memory, start, fields);
      ParseNumber(l, items, r.Rest());
      NonceTrials, err := ReadUvarint(r);
      if err.Some? { return; }
      PubKeyExtended(memory, start, fields, NonceTrials, 0, []);
      ParseNumber(l, items + [Number(NonceTrials)], r.Rest());
      ExtraBytes, err := ReadUvarint(r);
      if err.Some? { return; }
      PubKeyExtended(memory, start, fields, NonceTrials, ExtraBytes, []);
      ParseText(l, items + [Number(NonceTrials)] + [Number(ExtraBytes)], r.Rest(), Min(memory, MAX_INT), Panic);
      err := DecodeSignature(r, memory);
      if err.Some? { return; }
      PubKeyExtended(memory, start, fields, NonceTrials, ExtraBytes, Signature);
      ParseStops(l, items + [Number(NonceTrials)] + [Number(ExtraBytes)] + [Text(Signature)], r.Rest());
      assert [Number(NonceTrials)] + [Number(ExtraBytes)] + [Text(Signature)]
          == [Number(NonceTrials), Number(ExtraBytes), Text(Signature)];
    }

    /** The signature is allocated from its unchecked length before it is read, and filled with what
      * there is. */
    method DecodeSignature(r: Reader, memory: nat) returns (err: Option<Error>)
      requires r.Valid()
      modifies this`Signature, r`pos
      ensures r.Valid()
      ensures var run := ReadCounted(Min(memory, MAX_INT), Panic, old(r.Rest()));
        && r.Rest() == run.rest
        && (run.Ok? ==> err.None? && Signature == run.value)
        && (run.Err? ==> err == Some(run.error))
      ensures Signature == SignatureAfter(memory, old(Signature), old(r.Rest()))
    {
      hide ReadVarInt;
      var sigLength;
      sigLength, err := ReadUvarint(r);
      if err.Some? { return; }
      if !Allocatable(memory, sigLength, 1) {
        return Some(Panic);
      }
      var signature;
      signature, err := ReadArray(r, sigLength);
      Signature := signature;
    }

    method Encode(w: Writer) returns (err: Option<Error>)
      requires w.Valid()
      modifies w`out
      ensures w.Valid()
      ensures (w.State(), err) == PourEncoding(PubKeyEncoding(Value()), old(w.State()))
    {
      hide Pour, PourItems, PourEncoding, StartItems, PubKeyBody;
      var start := Start(Nonce, ExpiresTime, ObjectType, Version, StreamNumber);
      ghost var body := PubKeyBody(Value());
      PourEncodingAppend(StartItems(start), body.items, body.fault, w.State());
      err := WriteObjectStart(w, start);
      if err.Some? { return; }
      if Version >= ENCRYPTED_PUBKEY_VERSION {
        err := EncodeEncrypted(w);
      } else {
        err := EncodeKeys(w);
      }
    }

    method EncodeEncrypted(w: Writer) returns (err: Option<Error>)
      requires w.Valid() && Version >= ENCRYPTED_PUBKEY_VERSION
      modifies w`out
      ensures w.Valid()
      ensures (w.State(), err) == PourEncoding(PubKeyBody(Value()), old(w.State()))
    {
      hide Pour, PourItems;
      ghost var items := PubKeyBody(Value()).items;
      if Tag.None? {
        PourEnds(items, w.State());
        return Some(Panic);
      }
      PourStep(items, 0, w.State());
      err := WriteElements(w, [Tag.value]);
      if err.Some? { return; }
      PourStep(items, 1, w.State());
      PourOne(Encrypted, w.State());
      var n;
      n, err := w.Write(Encrypted);
      PourEnds(items, w.State());
    }

    method EncodeKeys(w: Writer) returns (err: Option<Error>)
      requires w.Valid() && Version < ENCRYPTED_PUBKEY_VERSION
      modifies w`out
      ensures w.Valid()
      ensures (w.State(), err) == PourEncoding(PubKeyBody(Value()), old(w.State()))
    {
      hide Pour, PourItems;
      ghost var items := PubKeyBody(Value()).items;
      PourStep(items, 0, w.State());
      if SigningKey.None? || EncryptKey.None? {
        var first := if SigningKey.None? then [U32Field(Behavior)] else [U32Field(Behavior), SigningKey.value];
        err := WriteElements(w, first);
        PourEnds(items, w.State());
        return if err.Some? then err else Some(Panic);
      }
      err := WriteElements(w, [U32Field(Behavior), SigningKey.value, EncryptKey.value]);
      if err.Some? { return; }
      if Version == EXTENDED_PUBKEY_VERSION {
        PourStep(items, 1, w.State());
        err := WriteVarInt(w, NonceTrials);
        if err.Some? { return; }
        PourStep(items, 2, w.State());
        err := WriteVarInt(w, ExtraBytes);
        if err.Some? { return; }
        PourStep(items, 3, w.State());
        err := WriteVarString(w, Signature);
      }
      PourEnds(items, w.State());
    }
  }
}
