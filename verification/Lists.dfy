/** Counted lists of fixed-size items: what the addr, inv and getdata payloads decode to. */
module Lists {
  import opened Octets
  import opened Wire
  import opened Grammar

  predicate IsList(k: Kind) { k.AddrKind? || k.InvKind? || k.GetDataKind? }

  function ListMax(k: Kind): nat { if k.AddrKind? then MAX_ADDR_PER_MSG else MAX_INV_PER_MSG }

  function ListWidths(k: Kind): FieldWidths { if k.AddrKind? then [4, 8, 16, 2] else [32] }

  function ListSize(k: Kind): (size: nat)
    ensures size > 0
  {
    if k.AddrKind? then 30 else 32
  }

  lemma ListLayout(l: Layout, items: seq<Item>, i: nat)
    requires IsList(l.kind) && i <= |items|
    ensures NextOp(l, items, i) == NextInList(ListMax(l.kind), ListWidths(l.kind), items, i)
    ensures Sum(ListWidths(l.kind)) == ListSize(l.kind)
  {
    assert [4, 8, 16, 2][1..] == [8, 16, 2] && [8, 16, 2][1..] == [16, 2] && [16, 2][1..] == [2];
    assert [2][1..] == [] && [32][1..] == [];
  }

  /** A whole list message: the count, then as many items of the right fields. */
  predicate IsCountedList(k: Kind, items: seq<Item>) {
    && items != [] && items[0].Number? && items[0].number <= ListMax(k) && |items| == 1 + items[0].number
    && forall i | 1 <= i < |items| :: items[i].Fields? && Widths(items[i].fields) == ListWidths(k)
  }

  lemma ListConforms(l: Layout, items: seq<Item>)
    requires IsList(l.kind)
    ensures Conforms(l, items) <==> IsCountedList(l.kind, items)
    ensures Conforms(l, items) ==> !EndsWithTail(l, items)
  {
    hide NextOp;
    forall i | 0 <= i <= |items|
      ensures NextOp(l, items, i) == NextInList(ListMax(l.kind), ListWidths(l.kind), items, i)
    {
      ListLayout(l, items, i);
    }
    if Conforms(l, items) {
      assert NextOp(l, items, 0) == Expect(VarInt);
      assert |items| >= 1 && items[0].Number?;
      assert NextOp(l, items, 1) == if items[0].number > ListMax(l.kind) then Refuse(MessageError(TooManyItems))
        else if items[0].number == 0 then Done else Expect(Fixed(ListWidths(l.kind)));
      if |items| > 1 {
        assert NextOp(l, items, |items| - 1).Expect?;
      }
    }
  }

  // ---------- decoding ----------

  /** The complete items among the first n at the front of s. */
  function Elements(widths: FieldWidths, n: nat, s: seq<byte>): (es: seq<Item>)
    ensures |es| <= n
  {
    if n == 0 || ReadFields(widths, s).Err? then []
    else [Fields(ReadFields(widths, s).value)] + Elements(widths, n - 1, ReadFields(widths, s).rest)
  }

  lemma OneMoreFits(length: nat, size: nat, rest: nat)
    requires size > 0 && length == size + rest
    ensures length / size == rest / size + 1
  {
    DivisionIsUnique(length, size, rest / size + 1, rest % size);
  }

  lemma NoneFits(length: nat, size: nat)
    requires length < size
    ensures length / size == 0
  {
    DivisionIsUnique(length, size, 0, length);
  }

  /** Reading one element: as many bytes as the widths add up to, if they are there. */
  lemma OneElement(widths: FieldWidths, size: nat, s: seq<byte>)
    requires Sum(widths) == size
    ensures size > 0
    ensures ReadFields(widths, s).Ok? <==> size <= |s|
    ensures ReadFields(widths, s).Ok? ==> ReadFields(widths, s).rest == s[size..]
  {
    hide ReadFields;
    FieldsReadable(widths, s);
    assert Sum(widths) == widths[0] + Sum(widths[1..]);
    if ReadFields(widths, s).Ok? {
      FieldsAreConsumed(widths, s);
      ConcatLength(ReadFields(widths, s).value);
    }
  }

  /** Among n items there are as many as fit. */
  lemma {:induction false} ElementsCount(widths: FieldWidths, size: nat, n: nat, s: seq<byte>)
    requires Sum(widths) == size > 0
    ensures |Elements(widths, n, s)| == Min(n, |s| / size)
    decreases n
  {
    hide ReadFields;
    OneElement(widths, size, s);
    if |s| < size {
      NoneFits(|s|, size);
    } else if n > 0 {
      ElementsCount(widths, size, n - 1, s[size..]);
      OneMoreFits(|s|, size, |s[size..]|);
    }
  }

  /** The fields of the given widths found at an offset. */
  function ItemAt(widths: FieldWidths, s: seq<byte>, offset: int): Option<Item> {
    if 0 <= offset <= |s| && ReadFields(widths, s[offset..]).Ok?
    then Some(Fields(ReadFields(widths, s[offset..]).value)) else None
  }

  /** Each item is read where its position puts it. */
  lemma {:induction false} ElementAt(widths: FieldWidths, size: nat, n: nat, s: seq<byte>, i: nat)
    requires Sum(widths) == size > 0 && i < |Elements(widths, n, s)|
    ensures 0 <= size * i <= |s| && ItemAt(widths, s, size * i) == Some(Elements(widths, n, s)[i])
    decreases n
  {
    hide ReadFields;
    OneElement(widths, size, s);
    if i == 0 {
      assert size * 0 == 0 && s[0..] == s;
    } else {
      ElementAt(widths, size, n - 1, s[size..], i - 1);
      assert size * i == size * (i - 1) + size;
      assert s[size * i..] == s[size..][size * (i - 1)..];
    }
  }

  /** Full reads of given widths succeed exactly when that many bytes are there. */
  lemma {:induction false} FieldsReadable(widths: seq<nat>, s: seq<byte>)
    ensures ReadFields(widths, s).Ok? <==> Sum(widths) <= |s|
  {
    if widths != [] {
      var head := ReadFull(widths[0], s);
      if head.Ok? {
        FieldsReadable(widths[1..], head.rest);
      }
    }
  }

  /** Where a list decoder is after some items: k of the count are read, the rest are still to come. */
  predicate Midway(k: Kind, done: seq<Item>) {
    done != [] && done[0].Number? && done[0].number <= ListMax(k) && |done| <= 1 + done[0].number
  }

  lemma {:induction false} ListRun(l: Layout, done: seq<Item>, s: seq<byte>)
    requires IsList(l.kind) && Midway(l.kind, done)
    ensures var n := 1 + done[0].number - |done|;
      var size := ListSize(l.kind);
      var es := Elements(ListWidths(l.kind), n, s);
      && Collected(l, done, s) == done + es
      && (Parse(l, done, s).Ok? <==> |es| == n)
      && (|es| == n ==> size * n <= |s| && Parse(l, done, s) == Ok(done + es, s[size * n..]))
    decreases 1 + done[0].number - |done|
  {
    hide NextOp, Parse, Collected, ReadFields;
    var widths, size := ListWidths(l.kind), ListSize(l.kind);
    var n := 1 + done[0].number - |done|;
    ListLayout(l, done, |done|);
    if n == 0 {
      ParseStops(l, done, s);
      assert done + [] == done && size * 0 == 0 && s[0..] == s;
    } else {
      ParseFixed(l, done, s, widths);
      OneElement(widths, size, s);
      if |s| >= size {
        var one := Fields(ReadFields(widths, s).value);
        var more := done + [one];
        ListRun(l, more, s[size..]);
        var es := Elements(widths, n - 1, s[size..]);
        assert more + es == done + ([one] + es);
        assert size * n == size * (n - 1) + size;
        if |es| == n - 1 { assert s[size..][size * (n - 1)..] == s[size * n..]; }
      } else {
        assert done + [] == done;
      }
    }
  }

  /** What is left after an offset, nothing if there are not so many bytes. */
  function After(s: seq<byte>, offset: int): seq<byte> { if 0 <= offset <= |s| then s[offset..] else [] }

  /** What a decoder of a list with an acceptable count c makes of the bytes after it: the items
    * that are there, in order, each at the offset its position gives; and success exactly when all
    * of them are there, leaving what follows them. */
  predicate DecodesItems(k: Kind, c: u64, t: seq<byte>, got: seq<Item>, run: Run<seq<Item>>) {
    var size := ListSize(k);
    && |got| == 1 + Min(c, |t| / size) && got[0] == Number(c)
    && (forall i | 0 <= i < |got| - 1 :: ItemAt(ListWidths(k), t, size * i) == Some(got[1 + i]))
    && (run.Ok? <==> size * c <= |t|)
    && (run.Ok? ==> run == Ok(got, After(t, size * c)))
  }

  /** Counted decode. The count is read first and refused above the limit; then the items. */
  lemma CountedDecode(l: Layout, s: seq<byte>)
    requires IsList(l.kind)
    ensures var c, run, got := ReadVarInt(s), Parse(l, [], s), Collected(l, [], s);
      if c.Err? then run == Err(c.error, c.rest) && got == []
      else if c.value > ListMax(l.kind) then run == Err(MessageError(TooManyItems), c.rest) && got == [Number(c.value)]
      else DecodesItems(l.kind, c.value, c.rest, got, run)
  {
    hide NextOp, Parse, Collected, ReadVarInt, Elements, ItemAt, ListWidths;
    var c := ReadVarInt(s);
    var size, widths := ListSize(l.kind), ListWidths(l.kind);
    ListStart(l, s);
    if c.Ok? && c.value <= ListMax(l.kind) {
      ListLayout(l, [], 0);
      ListRun(l, [Number(c.value)], c.rest);
      ElementsCount(widths, size, c.value, c.rest);
      forall i | 0 <= i < |Elements(widths, c.value, c.rest)|
        ensures ItemAt(widths, c.rest, size * i) == Some(Collected(l, [], s)[1 + i])
      {
        ElementAt(widths, size, c.value, c.rest, i);
      }
      FitsIffDivides(c.value, size, |c.rest|);
    }
  }

  lemma FitsIffDivides(n: nat, size: nat, length: nat)
    requires size > 0
    ensures size * n <= length <==> n <= length / size
  {
    var q := length / size;
    assert length == size * q + length % size;
    if n <= q {
      assert size * q == size * n + size * (q - n);
      if n < q { Multiples(size, q - n); }
    } else {
      assert size * n == size * q + size * (n - q);
      Multiples(size, n - q);
    }
  }

  /** One more item of a list decoder that has some still to read. */
  lemma ListStep(l: Layout, done: seq<Item>, s: seq<byte>)
    requires IsList(l.kind) && Midway(l.kind, done) && |done| < 1 + done[0].number
    ensures var r := ReadFields(ListWidths(l.kind), s);
      && (r.Err? ==> Parse(l, done, s) == Err(r.error, r.rest) && Collected(l, done, s) == done)
      && (r.Ok? ==> Widths(r.value) == ListWidths(l.kind)
                    && Parse(l, done, s) == Parse(l, done + [Fields(r.value)], r.rest)
                    && Collected(l, done, s) == Collected(l, done + [Fields(r.value)], r.rest))
  {
    hide NextOp, Parse, Collected, ReadFields;
    ListLayout(l, done, |done|);
    ParseFixed(l, done, s, ListWidths(l.kind));
  }

  lemma ListEnds(l: Layout, done: seq<Item>, s: seq<byte>)
    requires IsList(l.kind) && Midway(l.kind, done) && |done| == 1 + done[0].number
    ensures Parse(l, done, s) == Ok(done, s) && Collected(l, done, s) == done
  {
    hide NextOp, Parse, Collected;
    ListLayout(l, done, |done|);
    ParseStops(l, done, s);
  }

  /** The count of a list: read first, then refused if it is above the limit. */
  lemma ListStart(l: Layout, s: seq<byte>)
    requires IsList(l.kind)
    ensures var c := ReadVarInt(s);
      if c.Err? then Parse(l, [], s) == Err(c.error, c.rest) && Collected(l, [], s) == []
      else if c.value > ListMax(l.kind) then
        Parse(l, [], s) == Err(MessageError(TooManyItems), c.rest) && Collected(l, [], s) == [Number(c.value)]
      else
        && Midway(l.kind, [Number(c.value)])
        && Parse(l, [], s) == Parse(l, [Number(c.value)], c.rest)
        && Collected(l, [], s) == Collected(l, [Number(c.value)], c.rest)
  {
    hide NextOp, Parse, Collected, ReadVarInt;
    var c := ReadVarInt(s);
    ListLayout(l, [], 0);
    ParseNumber(l, [], s);
    if c.Ok? {
      var one := [Number(c.value)];
      assert [] + one == one;
      ListLayout(l, one, 1);
      ParseStops(l, one, c.rest);
    }
  }

  // ---------- building ----------

  /** Adding items one by one to a list that takes at most max of them: the longest prefix that fits. */
  function Appended<T>(max: nat, list: seq<T>, more: seq<T>): seq<T> {
    list + more[..Min(|more|, if |list| <= max then max - |list| else 0)]
  }

  datatype Call<T> = Add(items: seq<T>) | Clear

  /** The list after a run of calls on a newly constructed message. */
  function AfterCalls<T>(max: nat, calls: seq<Call<T>>): seq<T> {
    if calls == [] then []
    else
      var list := AfterCalls(max, calls[..|calls| - 1]);
      match calls[|calls| - 1]
      case Add(items) => Appended(max, list, items)
      case Clear => []
  }

  /** Whatever the calls, the list never passes its limit. */
  lemma {:induction false} CallsStayWithin<T>(max: nat, calls: seq<Call<T>>)
    ensures |AfterCalls(max, calls)| <= max
  {
    if calls != [] {
      CallsStayWithin(max, calls[..|calls| - 1]);
    }
  }

  /** Two batches are one: nothing is added after a batch that did not fit. */
  lemma BatchesJoin<T>(max: nat, list: seq<T>, a: seq<T>, b: seq<T>)
    ensures Appended(max, Appended(max, list, a), b) == Appended(max, list, a + b)
  {
    var room := if |list| <= max then max - |list| else 0;
    if |a| <= room {
      assert a[..|a|] == a;
      assert (a + b)[..Min(|a + b|, room)] == a + b[..Min(|b|, room - |a|)];
    } else {
      assert (a + b)[..room] == a[..room];
    }
  }

  // ---------- sizes ----------

  lemma {:induction false} ListTailLength(k: Kind, items: seq<Item>, i: nat)
    requires IsList(k) && IsCountedList(k, items) && 1 <= i <= |items|
    ensures |Print(items[i..])| == ListSize(k) * (|items| - i)
    decreases |items| - i
  {
    if i < |items| {
      ListTailLength(k, items, i + 1);
      assert items[i..][1..] == items[i + 1..];
      ConcatLength(items[i].fields);
      ListLayout(Layout(k, 0), [], 0);
      assert ListSize(k) * (|items| - i) == ListSize(k) * (|items| - (i + 1)) + ListSize(k);
    }
  }

  /** The encoded size of a list message. */
  lemma ListLength(k: Kind, items: seq<Item>)
    requires IsList(k) && IsCountedList(k, items)
    ensures |Print(items)| == VarIntSize(items[0].number) + ListSize(k) * items[0].number
  {
    ListTailLength(k, items, 1);
  }
}
