/** The bytes of each message on the wire, field after field: numbers big end first in as many bytes as
  * their type has, counts and stream numbers as varints. */
module Layouts {
  import opened Octets
  import opened Wire
  import opened Grammar
  import opened NetAddresses
  import opened Objects
  import opened GetPubKeys
  import opened PubKeys
  import opened Inventories
  import opened Addresses
  import opened Versions
  import opened Messages

  const TWO_TO_THE_32: nat := 0x1_0000_0000
  const TWO_TO_THE_64: nat := 0x1_0000_0000_0000_0000

  lemma FieldBytes(x: u32, y: u64, z: i32, t: i64)
    ensures U32Field(x) == PutBig(x, 4) && U64Field(y) == PutBig(y, 8)
    ensures I32Field(z) == PutBig(z % TWO_TO_THE_32, 4) && I64Field(t) == PutBig(t % TWO_TO_THE_64, 8)
  {
    PowValues();
    hide PutBig, Pow256;
  }

  // ---------- lists ----------

  /** An address as a version message has it. */
  function AddressWire(a: NetAddr): seq<byte> {
    PutBig(a.services, 8) + (SixteenBytes(a.ip) + PutBig(a.port, 2))
  }

  /** An address as an addr message has it. */
  function TimedAddressWire(a: NetAddr): seq<byte> { PutBig(a.timestamp % TWO_TO_THE_32, 4) + AddressWire(a) }

  function AddressesWire(list: seq<NetAddr>): seq<byte> {
    if list == [] then [] else TimedAddressWire(list[0]) + AddressesWire(list[1..])
  }

  function VarIntsWire(vs: seq<u64>): seq<byte> {
    if vs == [] then [] else VarIntBytes(vs[0]) + VarIntsWire(vs[1..])
  }

  lemma AddressItemBytes(a: NetAddr, ts: bool)
    ensures ItemBytes(Fields(AddressFields(a, ts))) == if ts then TimedAddressWire(a) else AddressWire(a)
  {
    hide PutBig, AddressFields, SixteenBytes;
    AddressBytes(a, ts);
    assert [] + AddressWire(a) == AddressWire(a);
  }

  lemma {:induction false} PrintOfAddresses(list: seq<NetAddr>, items: seq<Item>)
    requires |items| == |list| && forall i | 0 <= i < |list| :: items[i] == Fields(AddressFields(list[i], true))
    ensures Print(items) == AddressesWire(list)
  {
    hide AddressFields, TimedAddressWire, ItemBytes;
    if list != [] {
      AddressItemBytes(list[0], true);
      PrintOfAddresses(list[1..], items[1..]);
    }
  }

  lemma {:induction false} PrintOfNumbers(vs: seq<u64>)
    ensures Print(Numbers(vs)) == VarIntsWire(vs)
  {
    hide VarIntBytes;
    if vs != [] {
      assert Numbers(vs)[1..] == Numbers(vs[1..]);
      PrintOfNumbers(vs[1..]);
    }
  }

  lemma {:induction false} PrintOfHashes(list: seq<ShaHash>, items: seq<Item>)
    requires |items| == |list| && forall i | 0 <= i < |list| :: items[i] == Fields([list[i]])
    ensures Print(items) == Concat(list)
  {
    if list != [] {
      ConcatOf1(list[0]);
      PrintOfHashes(list[1..], items[1..]);
    }
  }

  lemma PrintOfCount(n: u64, items: seq<Item>)
    requires items != [] && items[0] == Number(n)
    ensures Print(items) == VarIntBytes(n) + Print(items[1..])
  {
    hide VarIntBytes;
  }

  lemma AddressItems(list: seq<NetAddr>)
    requires |list| <= 1000
    ensures AddrItems(list)[0] == Number(|list|) && |AddrItems(list)[1..]| == |list|
    ensures forall i | 0 <= i < |list| :: AddrItems(list)[1..][i] == Fields(AddressFields(list[i], true))
  {
    hide AddressFields;
  }

  /** addr: the count, then the addresses with their times. */
  lemma AddrWire(list: seq<NetAddr>)
    requires |list| <= 1000
    ensures Print(EncodingOf(AddrMessage(list)).items) == VarIntBytes(|list|) + AddressesWire(list)
  {
    AddressItems(list);
    hide AddressesWire, AddressFields, VarIntBytes, Print, AddrItems;
    PrintOfAddresses(list, AddrItems(list)[1..]);
    PrintOfCount(|list|, AddrItems(list));
  }

  lemma HashItems(list: seq<ShaHash>)
    requires |list| <= 50000
    ensures InvItems(list)[0] == Number(|list|) && |InvItems(list)[1..]| == |list|
    ensures forall i | 0 <= i < |list| :: InvItems(list)[1..][i] == Fields([list[i]])
  {
  }

  lemma PrintOfInventory(list: seq<ShaHash>)
    requires |list| <= 50000
    ensures Print(InvItems(list)) == VarIntBytes(|list|) + Concat(list)
  {
    HashItems(list);
    hide Concat, VarIntBytes, Print, InvItems;
    PrintOfHashes(list, InvItems(list)[1..]);
    PrintOfCount(|list|, InvItems(list));
  }

  /** inv and getdata: the count, then the hashes. */
  lemma InvWire(list: seq<ShaHash>)
    requires |list| <= 50000
    ensures Print(EncodingOf(InvMessage(list)).items) == VarIntBytes(|list|) + Concat(list)
    ensures Print(EncodingOf(GetDataMessage(list)).items) == VarIntBytes(|list|) + Concat(list)
  {
    PrintOfInventory(list);
    EncodingOfInventory(list);
    hide *;
  }

  lemma EncodingOfInventory(list: seq<ShaHash>)
    requires |list| <= 50000
    ensures EncodingOf(InvMessage(list)).items == InvItems(list)
    ensures EncodingOf(GetDataMessage(list)).items == InvItems(list)
  {
    hide InvItems;
  }

  // ---------- version ----------

  /** version: protocol version, services, time, the receiver's and the sender's address, nonce, user
    * agent, and the stream numbers with their count. */
  lemma VersionWire(v: Version)
    requires |v.userAgent| <= MAX_USER_AGENT_LEN
    ensures Print(EncodingOf(VersionMessage(v)).items) ==
      ((PutBig(v.protocolVersion % TWO_TO_THE_32, 4) + (PutBig(v.services, 8) + PutBig(v.timestamp % TWO_TO_THE_64, 8)))
       + (AddressWire(v.addrYou) + AddressWire(v.addrMe)))
      + (PutBig(v.nonce, 8) + ((VarIntBytes(|v.userAgent|) + v.userAgent) + VarIntBytes(|v.streams|)))
      + VarIntsWire(v.streams)
  {
    var h := VersionHead(v);
    PrintAppend(h, Numbers(v.streams));
    PrintOfNumbers(v.streams);
    PrintOfSix(h[0], h[1], h[2], h[3], h[4], h[5]);
    FieldBytes(0, v.services, v.protocolVersion, v.timestamp);
    FieldBytes(0, v.nonce, 0, 0);
    ConcatOfThree(I32Field(v.protocolVersion), U64Field(v.services), I64Field(v.timestamp));
    ConcatOf1(U64Field(v.nonce));
    AddressItemBytes(v.addrYou, false);
    AddressItemBytes(v.addrMe, false);
    hide Print, PutBig, VarIntBytes, VarIntsWire, AddressWire, AddressFields, Concat, U64Field, I32Field, I64Field;
    hide Numbers;
  }

  // ---------- objects ----------

  /** What every object starts with: nonce, expiry, type, version and stream. */
  function StartWire(o: Start): seq<byte> {
    (PutBig(o.nonce, 8) + (PutBig(o.expires % TWO_TO_THE_64, 8) + PutBig(o.objectType, 4)))
    + (VarIntBytes(o.version) + VarIntBytes(o.stream))
  }

  lemma PrintOfStart(o: Start)
    ensures Print(StartItems(o)) == StartWire(o)
  {
    var header := ObjectHeader(o.nonce, o.expires, o.objectType);
    FieldBytes(o.objectType, o.nonce, 0, o.expires);
    PrintOfThree(Fields(header), Number(o.version), Number(o.stream));
    ConcatOfThree(header[0], header[1], header[2]);
    hide Print, Concat, PutBig, VarIntBytes, U32Field, U64Field, I64Field;
  }

  /** getpubkey: the start, then the tag from version 4 on and the ripe before. */
  lemma GetPubKeyWire(g: GetPubKey)
    ensures g.version >= 4 && g.tag.Some? ==>
      Print(EncodingOf(GetPubKeyMessage(g)).items) ==
        StartWire(Start(g.nonce, g.expires, g.objectType, g.version, g.stream)) + g.tag.value
    ensures g.version < 4 && g.ripe.Some? ==>
      Print(EncodingOf(GetPubKeyMessage(g)).items) ==
        StartWire(Start(g.nonce, g.expires, g.objectType, g.version, g.stream)) + g.ripe.value
  {
    var o := Start(g.nonce, g.expires, g.objectType, g.version, g.stream);
    PrintOfStart(o);
    hide StartWire, Print, StartItems;
    var last: Option<seq<byte>> := if g.version >= 4 then g.tag else g.ripe;
    if last.Some? {
      PrintAppend(StartItems(o), [Fields([last.value])]);
      PrintOfOne(Fields([last.value]));
      ConcatOf1(last.value);
    }
  }

  /** pubkey: the start; then, from version 4 on, the tag and the encrypted part; before, the behavior
    * and the two keys, and in version 3 the two proof-of-work values and the signature with its length. */
  lemma PubKeyWire(p: PubKeyObject)
    ensures p.version >= 4 && p.tag.Some? ==>
      Print(EncodingOf(PubKeyMessage(p)).items) == StartWire(StartOf(p)) + (p.tag.value + p.encrypted)
    ensures p.version < 4 && p.signingKey.Some? && p.encryptKey.Some? ==>
      Print(EncodingOf(PubKeyMessage(p)).items) == StartWire(StartOf(p)) +
        ((PutBig(p.behavior, 4) + (p.signingKey.value + p.encryptKey.value)) +
         if p.version == 3 then
           VarIntBytes(p.nonceTrials) + (VarIntBytes(p.extraBytes) + (VarIntBytes(|p.signature|) + p.signature))
         else [])
  {
    PrintOfStart(StartOf(p));
    hide StartWire, Print, StartItems, VarIntBytes, PutBig;
    PrintAppend(StartItems(StartOf(p)), PubKeyBody(p).items);
    if p.version >= 4 {
      if p.tag.Some? { EncryptedWire(p); }
    } else if p.signingKey.Some? && p.encryptKey.Some? {
      KeysWire(p);
    }
  }

  lemma EncryptedWire(p: PubKeyObject)
    requires p.version >= 4 && p.tag.Some?
    ensures Print(PubKeyBody(p).items) == p.tag.value + p.encrypted
  {
    hide Print;
    var tag := Fields([p.tag.value]);
    assert PubKeyBody(p).items == [tag] + [Tail(p.encrypted)];
    PrintAppend([tag], [Tail(p.encrypted)]);
    PrintOfOne(tag);
    PrintOfOne(Tail(p.encrypted));
    ConcatOf1(p.tag.value);
  }

  lemma KeysWire(p: PubKeyObject)
    requires p.version < 4 && p.signingKey.Some? && p.encryptKey.Some?
    ensures Print(PubKeyBody(p).items) == (PutBig(p.behavior, 4) + (p.signingKey.value + p.encryptKey.value)) +
      if p.version == 3 then
        VarIntBytes(p.nonceTrials) + (VarIntBytes(p.extraBytes) + (VarIntBytes(|p.signature|) + p.signature))
      else []
  {
    hide Print, VarIntBytes, PutBig;
    var b, k, e := U32Field(p.behavior), p.signingKey.value, p.encryptKey.value;
    var keys := KeyFields(p.behavior, k, e);
    ConcatOfThree(b, k, e);
    PrintOfOne(keys);
    PrintAppend([keys], ExtendedItems(p));
    PrintOfThree(Number(p.nonceTrials), Number(p.extraBytes), Text(p.signature));
    assert Print([keys]) + [] == Print([keys]);
  }
}
