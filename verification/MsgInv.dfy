/** The inv and getdata messages: bounded lists of 32-byte hashes. */
module Inventories {
  import opened Octets
  import opened Wire
  import opened Grammar
  import opened Stream
  import opened NetAddresses
  import opened Lists

  predicate IsInventory(k: Kind) { k.InvKind? || k.GetDataKind? }

  function InvItems(list: seq<ShaHash>): (items: seq<Item>)
    requires |list| <= MAX_INV_PER_MSG
    ensures |items| == 1 + |list|
  {
    [Number(|list|)] + seq(|list|, i requires 0 <= i < |list| => Fields([list[i]]))
  }

  function InvEncoding(list: seq<ShaHash>): Encoding {
    if |list| > MAX_INV_PER_MSG then Encoding([], Some(MessageError(TooManyItems)))
    else Encoding(InvItems(list), None)
  }

  function InvFrom(items: seq<Item>): (list: seq<ShaHash>)
    ensures items != [] ==> |list| == |items| - 1
  {
    if items == [] then [] else seq(|items| - 1, i requires 0 <= i < |items| - 1 => AsSha(items[1 + i].Field(0)))
  }

  function DecodeInv(k: Kind, s: seq<byte>): Run<seq<ShaHash>> {
    match Parse(Layout(k, 0), [], s)
    case Err(e, t) => Err(e, t)
    case Ok(items, t) => Ok(InvFrom(items), t)
  }

  // ---------- laws ----------

  lemma InvItemsConform(k: Kind, list: seq<ShaHash>)
    requires IsInventory(k) && |list| <= MAX_INV_PER_MSG
    ensures Conforms(Layout(k, 0), InvItems(list)) && !EndsWithTail(Layout(k, 0), InvItems(list))
    ensures IsCountedList(k, InvItems(list)) && InvFrom(InvItems(list)) == list
  {
    hide Conforms, EndsWithTail;
    var items := InvItems(list);
    forall i | 1 <= i < |items| ensures items[i].Fields? && Widths(items[i].fields) == ListWidths(k) {
      assert items[i] == Fields([list[i - 1]]);
    }
    ListConforms(Layout(k, 0), items);
  }

  lemma OneHash(item: Item)
    requires item.Fields? && Widths(item.fields) == [32]
    ensures item == Fields([AsSha(item.Field(0))])
  {
    FieldWidth(item.fields, [32], 0);
    assert item.fields == [item.fields[0]];
  }

  /** Every complete item list is the encoding of the list it decodes to. */
  lemma InvReencodes(k: Kind, items: seq<Item>)
    requires IsInventory(k) && Conforms(Layout(k, 0), items)
    ensures InvEncoding(InvFrom(items)) == Encoding(items, None)
    ensures !EndsWithTail(Layout(k, 0), items)
  {
    hide Conforms, EndsWithTail, AsSha;
    ListConforms(Layout(k, 0), items);
    var list := InvFrom(items);
    forall i | 1 <= i < |items| ensures InvItems(list)[i] == items[i] {
      OneHash(items[i]);
    }
    assert InvItems(list) == items;
  }

  /** A list within the limit is read back from its encoding, whatever follows. */
  lemma InvRoundTrip(k: Kind, list: seq<ShaHash>, t: seq<byte>)
    requires IsInventory(k) && |list| <= MAX_INV_PER_MSG
    ensures DecodeInv(k, Print(InvItems(list)) + t) == Ok(list, t)
    ensures |Print(InvItems(list))| == VarIntSize(|list|) + 32 * |list|
  {
    InvItemsConform(k, list);
    ParseOfPrint(Layout(k, 0), InvItems(list), t);
    ListLength(k, InvItems(list));
  }

  /** An accepted payload re-encodes into no more bytes, which decode to the same list. */
  lemma InvNormalises(k: Kind, s: seq<byte>, t: seq<byte>)
    requires IsInventory(k) && DecodeInv(k, s).Ok?
    ensures var r := DecodeInv(k, s);
      var e := InvEncoding(r.value);
      e.fault.None? && |Print(e.items)| <= |s| - |r.rest| && DecodeInv(k, Print(e.items) + t) == Ok(r.value, t)
  {
    ParseConforms(Layout(k, 0), s);
    InvReencodes(k, Parse(Layout(k, 0), [], s).value);
    Normalise(Layout(k, 0), s, t);
  }

  /** Whatever is added to a new message, it encodes, and within its payload limit. */
  lemma InvCallsEncode(k: Kind, calls: seq<Call<ShaHash>>)
    requires IsInventory(k)
    ensures var e := InvEncoding(AfterCalls(MAX_INV_PER_MSG, calls));
      e.fault.None? && |Print(e.items)| <= 9 + 32 * MAX_INV_PER_MSG
  {
    CallsStayWithin(MAX_INV_PER_MSG, calls);
    InvRoundTrip(k, AfterCalls(MAX_INV_PER_MSG, calls), []);
  }

  /** MsgInv and MsgGetData, which differ in nothing but their command. */
  class MsgInv {
    const kind: Kind
    var InvList: seq<ShaHash>

    ghost predicate Valid() {
      IsInventory(kind)
    }

    constructor (kind: Kind, list: seq<ShaHash>)
      requires IsInventory(kind)
      ensures Valid() && this.kind == kind && InvList == list
    {
      this.kind, InvList := kind, list;
    }

    method AddInvVect(iv: ShaHash) returns (err: Option<Error>)
      modifies this`InvList
      ensures InvList == Appended(MAX_INV_PER_MSG, old(InvList), [iv])
      ensures err == if |old(InvList)| < MAX_INV_PER_MSG then None else Some(MessageError(TooManyItems))
    {
      if |InvList| + 1 > MAX_INV_PER_MSG {
        return Some(MessageError(TooManyItems));
      }
      InvList := InvList + [iv];
      return None;
    }

    /** Decode: on success the list is the message's; on failure it holds the items read before
      * the error, unless the count itself was missing or refused. */
    method Decode(r: Reader) returns (err: Option<Error>)
      requires Valid() && r.Valid()
      modifies this`InvList, r`pos
      ensures r.Valid()
      ensures var run := DecodeInv(kind, old(r.Rest()));
        && r.Rest() == run.rest
        && (run.Ok? ==> err.None? && InvList == run.value)
        && (run.Err? ==> err == Some(run.error))
      ensures var got := Collected(Layout(kind, 0), [], old(r.Rest()));
        InvList == if got == [] || got[0].Num() > MAX_INV_PER_MSG then old(InvList) else InvFrom(got)
    {
      hide Parse, Collected, NextOp, ReadVarInt, ReadFields;
      ghost var l, s := Layout(kind, 0), r.Rest();
      ListStart(l, s);
      var count;
      count, err := ReadUvarint(r);
      if err.Some? { return; }
      if count > MAX_INV_PER_MSG {
        return Some(MessageError(TooManyItems));
      }
      ghost var items := [Number(count)];
      InvList := [];
      var i := 0;
      while i < count
        invariant i <= count && r.Valid() && |items| == 1 + i && items[0] == Number(count)
        invariant InvList == InvFrom(items)
        invariant Parse(l, [], s) == Parse(l, items, r.Rest())
        invariant Collected(l, [], s) == Collected(l, items, r.Rest())
      {
        ListStep(l, items, r.Rest());
        var fields;
        fields, err := ReadElements(r, [32]);
        if err.Some? { return; }
        items := items + [Fields(fields)];
        err := AddInvVect(AsSha(fields[0]));
        assert err.None?;
        i := i + 1;
      }
      ListEnds(l, items, r.Rest());
      return None;
    }

    method Encode(w: Writer) returns (err: Option<Error>)
      requires w.Valid()
      modifies w`out
      ensures w.Valid()
      ensures (w.State(), err) == PourEncoding(InvEncoding(InvList), old(w.State()))
    {
      hide Pour, PourItems;
      if |InvList| > MAX_INV_PER_MSG {
        PourEnds([], w.State());
        return Some(MessageError(TooManyItems));
      }
      ghost var items := InvItems(InvList);
      PourStep(items, 0, w.State());
      err := WriteVarInt(w, |InvList|);
      if err.Some? { return; }
      var i := 0;
      while i < |InvList|
        invariant i <= |InvList| && w.Valid()
        invariant PourItems(items, 0, old(w.State())) == PourItems(items, 1 + i, w.State())
      {
        PourStep(items, 1 + i, w.State());
        err := WriteElements(w, [InvList[i]]);
        if err.Some? { return; }
        i := i + 1;
      }
      PourEnds(items, w.State());
      return None;
    }
  }
}
