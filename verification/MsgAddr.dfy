/** The addr message: a bounded list of peer addresses. */
module Addresses {
  import opened Octets
  import opened Wire
  import opened Grammar
  import opened Stream
  import opened NetAddresses
  import opened Lists

  const ADDR_LAYOUT := Layout(AddrKind, 0)

  function AddrItems(list: seq<NetAddr>): (items: seq<Item>)
    requires |list| <= MAX_ADDR_PER_MSG
    ensures |items| == 1 + |list|
  {
    [Number(|list|)] + seq(|list|, i requires 0 <= i < |list| => Fields(AddressFields(list[i], true)))
  }

  function AddrEncoding(list: seq<NetAddr>): Encoding {
    if |list| > MAX_ADDR_PER_MSG then Encoding([], Some(MessageError(TooManyItems)))
    else Encoding(AddrItems(list), None)
  }

  function AddrOfItem(item: Item): NetAddr {
    if item.Fields? && Widths(item.fields) == AddressWidths(true) then AddressOf(item.fields, true) else ZERO_ADDRESS
  }

  function AddrFrom(items: seq<Item>): (list: seq<NetAddr>)
    ensures items != [] ==> |list| == |items| - 1
  {
    if items == [] then [] else seq(|items| - 1, i requires 0 <= i < |items| - 1 => AddrOfItem(items[1 + i]))
  }

  function DecodeAddr(s: seq<byte>): Run<seq<NetAddr>> {
    match Parse(ADDR_LAYOUT, [], s)
    case Err(e, t) => Err(e, t)
    case Ok(items, t) => Ok(AddrFrom(items), t)
  }

  /** What is left of an address after a journey in an addr message. */
  function Travelled(a: NetAddr): NetAddr {
    NetAddr(a.timestamp % 0x1_0000_0000, a.services, WireIP(a.ip), a.port)
  }

  function AllTravelled(list: seq<NetAddr>): seq<NetAddr> {
    seq(|list|, i requires 0 <= i < |list| => Travelled(list[i]))
  }

  // ---------- laws ----------

  lemma AddrItemsConform(list: seq<NetAddr>)
    requires |list| <= MAX_ADDR_PER_MSG
    ensures Conforms(ADDR_LAYOUT, AddrItems(list)) && !EndsWithTail(ADDR_LAYOUT, AddrItems(list))
    ensures IsCountedList(AddrKind, AddrItems(list)) && AddrFrom(AddrItems(list)) == AllTravelled(list)
  {
    hide Conforms, EndsWithTail;
    var items := AddrItems(list);
    forall i | 1 <= i < |items|
      ensures items[i].Fields? && Widths(items[i].fields) == ListWidths(AddrKind)
      ensures AddrOfItem(items[i]) == Travelled(list[i - 1])
    {
      assert items[i] == Fields(AddressFields(list[i - 1], true));
      AddressRoundTrip(list[i - 1], true, []);
      ReadFieldsOfConcat(AddressFields(list[i - 1], true), []);
    }
    ListConforms(ADDR_LAYOUT, items);
  }

  /** Every complete item list is the encoding of the list it decodes to. */
  lemma AddrReencodes(items: seq<Item>)
    requires Conforms(ADDR_LAYOUT, items)
    ensures AddrEncoding(AddrFrom(items)) == Encoding(items, None)
    ensures !EndsWithTail(ADDR_LAYOUT, items)
  {
    hide Conforms, EndsWithTail, AddressFields, AddressOf;
    ListConforms(ADDR_LAYOUT, items);
    var list := AddrFrom(items);
    forall i | 1 <= i < |items| ensures AddrItems(list)[i] == items[i] {
      FieldsOfAddress(items[i].fields, true);
      assert list[i - 1] == AddressOf(items[i].fields, true);
    }
    assert AddrItems(list) == items;
  }

  /** A list within the limit is read back from its encoding, whatever follows: times modulo
    * 2^32 and IPs in 16-byte form. */
  lemma AddrRoundTrip(list: seq<NetAddr>, t: seq<byte>)
    requires |list| <= MAX_ADDR_PER_MSG
    ensures DecodeAddr(Print(AddrItems(list)) + t) == Ok(AllTravelled(list), t)
    ensures |Print(AddrItems(list))| == VarIntSize(|list|) + 30 * |list|
  {
    AddrItemsConform(list);
    ParseOfPrint(ADDR_LAYOUT, AddrItems(list), t);
    ListLength(AddrKind, AddrItems(list));
  }

  /** An accepted payload re-encodes into no more bytes, which decode to the same list. */
  lemma AddrNormalises(s: seq<byte>, t: seq<byte>)
    requires DecodeAddr(s).Ok?
    ensures var r := DecodeAddr(s);
      var e := AddrEncoding(r.value);
      e.fault.None? && |Print(e.items)| <= |s| - |r.rest| && DecodeAddr(Print(e.items) + t) == Ok(r.value, t)
  {
    ParseConforms(ADDR_LAYOUT, s);
    AddrReencodes(Parse(ADDR_LAYOUT, [], s).value);
    Normalise(ADDR_LAYOUT, s, t);
  }

  /** Whatever is added to or cleared from a new message, it encodes, and within its payload limit. */
  lemma AddrCallsEncode(calls: seq<Call<NetAddr>>)
    ensures var e := AddrEncoding(AfterCalls(MAX_ADDR_PER_MSG, calls));
      e.fault.None? && |Print(e.items)| <= 9 + 30 * MAX_ADDR_PER_MSG
  {
    CallsStayWithin(MAX_ADDR_PER_MSG, calls);
    AddrRoundTrip(AfterCalls(MAX_ADDR_PER_MSG, calls), []);
  }

  /** The addresses now held by a list of pointers. */
  ghost function Values(list: seq<NetAddress>): (vs: seq<NetAddr>)
    reads list
    ensures |vs| == |list|
  {
    seq(|list|, i requires 0 <= i < |list| reads list => list[i].Value())
  }

  lemma OneMoreAddress(items: seq<Item>, item: Item)
    requires items != []
    ensures AddrFrom(items + [item]) == AddrFrom(items) + [AddrOfItem(item)]
  {
    hide AddrOfItem;
  }

  lemma NoAddresses(count: Item)
    ensures AddrFrom([count]) == []
  {
  }

  class MsgAddr {
    var AddrList: seq<NetAddress>

    constructor ()
      ensures AddrList == []
    {
      AddrList := [];
    }

    method AddAddress(na: NetAddress) returns (err: Option<Error>)
      modifies this`AddrList
      ensures AddrList == Appended(MAX_ADDR_PER_MSG, old(AddrList), [na])
      ensures err == if |old(AddrList)| < MAX_ADDR_PER_MSG then None else Some(MessageError(TooManyItems))
    {
      if |AddrList| + 1 > MAX_ADDR_PER_MSG {
        return Some(MessageError(TooManyItems));
      }
      AddrList := AddrList + [na];
      return None;
    }

    /** AddAddresses: appends the longest prefix that fits, and fails if that is not all of it. */
    method AddAddresses(netAddrs: seq<NetAddress>) returns (err: Option<Error>)
      modifies this`AddrList
      ensures AddrList == Appended(MAX_ADDR_PER_MSG, old(AddrList), netAddrs)
      ensures err == if netAddrs == [] || |old(AddrList)| + |netAddrs| <= MAX_ADDR_PER_MSG then None
                     else Some(MessageError(TooManyItems))
    {
      var i := 0;
      assert netAddrs[..0] == [];
      while i < |netAddrs|
        invariant i <= |netAddrs|
        invariant AddrList == Appended(MAX_ADDR_PER_MSG, old(AddrList), netAddrs[..i])
        invariant i > 0 ==> |old(AddrList)| + i <= MAX_ADDR_PER_MSG
      {
        BatchesJoin(MAX_ADDR_PER_MSG, old(AddrList), netAddrs[..i], [netAddrs[i]]);
        assert netAddrs[..i] + [netAddrs[i]] == netAddrs[..i + 1];
        err := AddAddress(netAddrs[i]);
        if err.Some? {
          BatchesJoin(MAX_ADDR_PER_MSG, old(AddrList), netAddrs[..i + 1], netAddrs[i + 1..]);
          assert netAddrs[..i + 1] + netAddrs[i + 1..] == netAddrs;
          return;
        }
        i := i + 1;
      }
      assert netAddrs[..i] == netAddrs;
      return None;
    }

    method ClearAddresses()
      modifies this`AddrList
      ensures AddrList == []
    {
      AddrList := [];
    }

    /** Decode: on success the list is the message's, in new addresses; on failure it holds those
      * read before the error, unless the count itself was missing or refused. */
    method Decode(r: Reader) returns (err: Option<Error>)
      requires r.Valid()
      modifies this`AddrList, r`pos
      ensures r.Valid()
      ensures var run := DecodeAddr(old(r.Rest()));
        && r.Rest() == run.rest
        && (run.Ok? ==> err.None? && Values(AddrList) == run.value)
        && (run.Err? ==> err == Some(run.error))
      ensures var got := Collected(ADDR_LAYOUT, [], old(r.Rest()));
        if got == [] || got[0].Num() > MAX_ADDR_PER_MSG then AddrList == old(AddrList)
        else Values(AddrList) == AddrFrom(got) && forall na | na in AddrList :: fresh(na)
    {
      hide Parse, Collected, NextOp, ReadVarInt, ReadFields, AddrFrom, AddrOfItem;
      ghost var l, s := ADDR_LAYOUT, r.Rest();
      ListStart(l, s);
      var count;
      count, err := ReadUvarint(r);
      if err.Some? { return; }
      if count > MAX_ADDR_PER_MSG {
        return Some(MessageError(TooManyItems));
      }
      ghost var items := [Number(count)];
      AddrList := [];
      NoAddresses(Number(count));
      var i := 0;
      while i < count
        invariant i <= count && r.Valid() && |items| == 1 + i && items[0] == Number(count)
        invariant |AddrList| == i && (forall na | na in AddrList :: fresh(na))
        invariant Values(AddrList) == AddrFrom(items)
        invariant Parse(l, [], s) == Parse(l, items, r.Rest())
        invariant Collected(l, [], s) == Collected(l, items, r.Rest())
      {
        ListStep(l, items, r.Rest());
        ghost var before, fields := Values(AddrList), ReadFields(AddressWidths(true), r.Rest());
        var na;
        na, err := ReadNew(r);
        assert Values(AddrList) == before;
        if err.Some? { return; }
        items := items + [Fields(fields.value)];
        err := AddAddress(na);
        assert err.None?;
        assert Values(AddrList) == before + [na.Value()];
        OneMoreAddress(items[..1 + i], items[1 + i]);
        i := i + 1;
      }
      ListEnds(l, items, r.Rest());
      return None;
    }

    /** One round of Decode's loop: a new address, read with its timestamp. */
    method ReadNew(r: Reader) returns (na: NetAddress, err: Option<Error>)
      requires r.Valid()
      modifies r`pos
      ensures r.Valid() && fresh(na)
      ensures var run := ReadFields(AddressWidths(true), old(r.Rest()));
        && r.Rest() == run.rest
        && (run.Err? ==> err == Some(run.error))
        && (run.Ok? ==> err.None? && na.Value() == AddrOfItem(Fields(run.value)))
    {
      na := new NetAddress();
      err := ReadNetAddress(r, na, true);
    }

    method Encode(w: Writer) returns (err: Option<Error>)
      requires w.Valid()
      modifies w`out
      ensures w.Valid()
      ensures (w.State(), err) == PourEncoding(AddrEncoding(Values(AddrList)), old(w.State()))
    {
      hide Pour, PourItems, AddressFields;
      if |AddrList| > MAX_ADDR_PER_MSG {
        PourEnds([], w.State());
        return Some(MessageError(TooManyItems));
      }
      ghost var items := AddrItems(Values(AddrList));
      PourStep(items, 0, w.State());
      err := WriteVarInt(w, |AddrList|);
      if err.Some? { return; }
      var i := 0;
      while i < |AddrList|
        invariant i <= |AddrList| && w.Valid()
        invariant AddrList == old(AddrList) && Values(AddrList) == old(Values(AddrList))
        invariant PourItems(items, 0, old(w.State())) == PourItems(items, 1 + i, w.State())
      {
        PourStep(items, 1 + i, w.State());
        err := WriteNetAddress(w, AddrList[i], true);
        if err.Some? { return; }
        i := i + 1;
      }
      PourEnds(items, w.State());
      return None;
    }
  }
}
