/** What reaches a writer that may be too small. */
module BoundedWriter {
  import opened Octets
  import opened Wire
  import opened Grammar
  import opened Stream

  /** After writing `all` piece by piece: everything if it fits; otherwise a short write, and a
    * proper prefix - up to the last byte of capacity if the writer splits writes. */
  predicate Delivered(before: Sink, after: Sink, err: Option<Error>, all: seq<byte>) {
    && after.Valid() && after.capacity == before.capacity && after.splits == before.splits
    && |before.out| <= |after.out| <= |before.out| + |all|
    && after.out == before.out + all[..|after.out| - |before.out|]
    && (if before.Fits(|all|) then err == None && after.out == before.out + all
        else
          && err == Some(ShortWrite) && |after.out| < |before.out| + |all|
          && (before.splits ==> |after.out| == before.capacity.value))
  }

  lemma DeliveredStep(before: Sink, mid: Sink, after: Sink, err: Option<Error>, first: seq<byte>, rest: seq<byte>)
    requires before.Valid()
    requires Delivered(before, mid, None, first) && Delivered(mid, after, err, rest)
    ensures Delivered(before, after, err, first + rest)
  {
    var all := first + rest;
    var n := |after.out| - |mid.out|;
    assert first + rest[..n] == all[..|first| + n];
    assert mid.out == before.out + first;
    assert mid.out + rest[..n] == before.out + (first + rest[..n]);
    assert rest[..|rest|] == rest && all[..|all|] == all;
  }

  lemma DeliveredShort(before: Sink, after: Sink, first: seq<byte>, rest: seq<byte>)
    requires before.Valid() && Delivered(before, after, Some(ShortWrite), first)
    ensures Delivered(before, after, Some(ShortWrite), first + rest)
  {
    var n := |after.out| - |before.out|;
    assert (first + rest)[..n] == first[..n];
  }

  lemma {:induction false} PourDelivers(chunks: seq<seq<byte>>, sink: Sink)
    requires sink.Valid()
    ensures Delivered(sink, Pour(chunks, sink).0, Pour(chunks, sink).1, Concat(chunks))
  {
    if chunks != [] {
      var (mid, err) := Put(chunks[0], sink);
      assert Delivered(sink, mid, err, chunks[0]) by {
        assert chunks[0][..|chunks[0]|] == chunks[0];
      }
      if err.None? {
        PourDelivers(chunks[1..], mid);
        var (after, e) := Pour(chunks[1..], mid);
        DeliveredStep(sink, mid, after, e, chunks[0], Concat(chunks[1..]));
      } else {
        DeliveredShort(sink, mid, chunks[0], Concat(chunks[1..]));
      }
    }
  }

  lemma ConcatOfChunks(item: Item)
    ensures Concat(Chunks(item)) == ItemBytes(item)
  {
    match item
    case Fields(_) =>
    case Number(v) => ConcatOf1(VarIntBytes(v));
    case Text(b) =>
      ConcatOf1(b);
      assert [VarIntBytes(|b|), b][1..] == [b];
      assert Concat([VarIntBytes(|b|), b]) == VarIntBytes(|b|) + Concat([b]);
    case Tail(b) => ConcatOf1(b);
  }

  lemma {:induction false} PourItemsDelivers(items: seq<Item>, i: nat, sink: Sink)
    requires sink.Valid() && i <= |items|
    ensures var (after, err) := PourItems(items, i, sink);
      Delivered(sink, after, err, Print(items[i..]))
    decreases |items| - i
  {
    hide Pour, Chunks, ItemBytes, Delivered;
    if i == |items| {
      NothingDelivered(sink);
    } else {
      PourStep(items, i, sink);
      PourDelivers(Chunks(items[i]), sink);
      ConcatOfChunks(items[i]);
      assert items[i..][1..] == items[i + 1..];
      var (mid, err) := Pour(Chunks(items[i]), sink);
      if err.None? {
        PourItemsDelivers(items, i + 1, mid);
        var (after, e) := PourItems(items, i + 1, mid);
        DeliveredStep(sink, mid, after, e, ItemBytes(items[i]), Print(items[i + 1..]));
      } else {
        assert err == Some(ShortWrite) by { ErrorIsShort(sink, mid, err, ItemBytes(items[i])); }
        DeliveredShort(sink, mid, ItemBytes(items[i]), Print(items[i + 1..]));
      }
    }
  }

  lemma NothingDelivered(sink: Sink)
    requires sink.Valid()
    ensures Delivered(sink, sink, None, Print([]))
  {
    assert sink.out + [] == sink.out;
  }

  lemma ErrorIsShort(before: Sink, after: Sink, err: Option<Error>, all: seq<byte>)
    requires Delivered(before, after, err, all)
    ensures err == None || err == Some(ShortWrite)
  {
  }

  /** An encoder on any writer: its whole output and then its own error if it fits, a short write
    * and a proper prefix of its output if it does not. */
  lemma EncodingIsDelivered(e: Encoding, sink: Sink)
    requires sink.Valid()
    ensures var (after, err) := PourEncoding(e, sink);
      var short := !sink.Fits(|Print(e.items)|);
      && Delivered(sink, after, if short then err else None, Print(e.items))
      && err == if short then Some(ShortWrite) else e.fault
  {
    PourItemsDelivers(e.items, 0, sink);
    assert e.items[0..] == e.items;
  }

  /** A bytes.Buffer takes everything. */
  lemma BufferTakesAll(e: Encoding)
    ensures PourEncoding(e, Sink([], None, false)) == (Sink(Print(e.items), None, false), e.fault)
  {
    EncodingIsDelivered(e, Sink([], None, false));
    assert [] + Print(e.items) == Print(e.items);
  }
}
