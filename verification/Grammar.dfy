/** The layouts of the message payloads as a grammar: what a payload must hold next, given the
  * items read so far. Parsing and printing by the grammar, and the laws every layout shares. */
module Grammar {
  import opened Octets
  import opened Wire

  type FieldWidths = w: seq<nat> | |w| > 0 && forall i | 0 <= i < |w| :: w[i] > 0 witness [1]

  /** One thing a payload can hold: a run of fixed-width fields, a variable length integer, or a
    * counted byte string. A count above the limit is refused before its bytes are read. */
  datatype Op =
    | Fixed(widths: FieldWidths)
    | VarInt
    | Counted(limit: nat, refusal: Error)

  datatype Item =
    | Fields(fields: seq<seq<byte>>)
    | Number(number: u64)
    | Text(text: seq<byte>)
    | Tail(tail: seq<byte>)
  {
    /** Total projections, for items whose shape the grammar has settled. */
    function Field(i: nat): seq<byte> { if Fields? && i < |fields| then fields[i] else [] }
    function Num(): u64 { if Number? then number else 0 }
    function Str(): seq<byte> { if Text? then text else if Tail? then tail else [] }
  }

  function At(items: seq<Item>, i: nat): Item {
    if i < |items| then items[i] else Tail([])
  }

  /** What comes next: another item, the end of the message, everything left, or a refusal. */
  datatype Next =
    | Expect(op: Op)
    | Done
    | TakeRest
    | Refuse(error: Error)

  datatype Kind = VersionKind | VerAckKind | GetAddrKind | AddrKind | InvKind | GetDataKind | GetPubKeyKind | PubKeyKind

  /** A message kind, read by a process that can allocate `memory` bytes at once. */
  datatype Layout = Layout(kind: Kind, memory: nat)

  const MAX_USER_AGENT_LEN: nat := 2000
  const MAX_ADDR_PER_MSG: nat := 1000
  const MAX_INV_PER_MSG: nat := 50000
  const MAX_INT: nat := 0x7fff_ffff_ffff_ffff

  predicate Allocatable(memory: nat, count: nat, size: nat) {
    count <= MAX_INT && count * size <= memory
  }

  /** The grammar. Only the items before position i matter. */
  function NextOp(l: Layout, items: seq<Item>, i: nat): Next
    requires i <= |items|
  {
    match l.kind
    case VerAckKind => Done
    case GetAddrKind => Done
    case VersionKind => NextInVersion(l.memory, items, i)
    case AddrKind => NextInList(MAX_ADDR_PER_MSG, [4, 8, 16, 2], items, i)
    case InvKind => NextInList(MAX_INV_PER_MSG, [32], items, i)
    case GetDataKind => NextInList(MAX_INV_PER_MSG, [32], items, i)
    case GetPubKeyKind => NextInGetPubKey(items, i)
    case PubKeyKind => NextInPubKey(l.memory, items, i)
  }

  function NextInVersion(memory: nat, items: seq<Item>, i: nat): Next
    requires i <= |items|
  {
    if i == 0 then Expect(Fixed([4, 8, 8]))
    else if i == 1 || i == 2 then Expect(Fixed([8, 16, 2]))
    else if i == 3 then Expect(Fixed([8]))
    else if i == 4 then Expect(Counted(MAX_MESSAGE_PAYLOAD, MessageError(StringTooLong)))
    else if i == 5 then
      if |items[4].Str()| > MAX_USER_AGENT_LEN then Refuse(MessageError(UserAgentTooLong)) else Expect(VarInt)
    else
      var count := items[5].Num();
      if !Allocatable(memory, count, 8) then Refuse(Panic)
      else if i >= 6 + count then Done
      else Expect(VarInt)
  }

  function NextInList(max: nat, widths: FieldWidths, items: seq<Item>, i: nat): Next
    requires i <= |items|
  {
    if i == 0 then Expect(VarInt)
    else if items[0].Num() > max then Refuse(MessageError(TooManyItems))
    else if i >= 1 + items[0].Num() then Done
    else Expect(Fixed(widths))
  }

  const GETPUBKEY_TYPE: nat := 0
  const PUBKEY_TYPE: nat := 1

  function NextInGetPubKey(items: seq<Item>, i: nat): Next
    requires i <= |items|
  {
    if i == 0 then Expect(Fixed([8, 8, 4]))
    else if BigEndian(items[0].Field(2)) != GETPUBKEY_TYPE then Refuse(MessageError(WrongObjectType))
    else if i == 1 || i == 2 then Expect(VarInt)
    else if i >= 4 then Done
    else if items[1].Num() >= 4 then Expect(Fixed([32]))
    else Expect(Fixed([20]))
  }

  function NextInPubKey(memory: nat, items: seq<Item>, i: nat): Next
    requires i <= |items|
  {
    if i == 0 then Expect(Fixed([8, 8, 4]))
    else if BigEndian(items[0].Field(2)) != PUBKEY_TYPE then Refuse(MessageError(WrongObjectType))
    else if i == 1 || i == 2 then Expect(VarInt)
    else if items[1].Num() >= 4 then
      if i == 3 then Expect(Fixed([32])) else TakeRest
    else if i == 3 then Expect(Fixed([4, 64, 64]))
    else if items[1].Num() == 3 && i <= 5 then Expect(VarInt)
    else if items[1].Num() == 3 && i == 6 then Expect(Counted(Min(memory, MAX_INT), Panic))
    else Done
  }

  // ---------- printing ----------

  /** The separate writes an item is printed with. */
  function Chunks(item: Item): seq<seq<byte>> {
    match item
    case Fields(fields) => fields
    case Number(v) => [VarIntBytes(v)]
    case Text(b) => [VarIntBytes(|b|), b]
    case Tail(b) => [b]
  }

  function ItemBytes(item: Item): seq<byte> {
    match item
    case Fields(fields) => Concat(fields)
    case Number(v) => VarIntBytes(v)
    case Text(b) => VarIntBytes(|b|) + b
    case Tail(b) => b
  }

  function Print(items: seq<Item>): seq<byte> {
    if items == [] then [] else ItemBytes(items[0]) + Print(items[1..])
  }

  // ---------- parsing ----------

  function ReadOp(op: Op, s: seq<byte>): (r: Run<Item>)
    ensures |r.rest| <= |s|
    ensures r.Ok? ==> |r.rest| < |s| && !r.value.Tail?
  {
    match op
    case Fixed(widths) =>
      (match ReadFields(widths, s)
       case Err(e, t) => Err(e, t)
       case Ok(fs, t) => FieldsAreConsumed(widths, s); Ok(Fields(fs), t))
    case VarInt =>
      (match ReadVarInt(s)
       case Err(e, t) => Err(e, t)
       case Ok(v, t) => Ok(Number(v), t))
    case Counted(limit, refusal) =>
      match ReadCounted(limit, refusal, s)
      case Err(e, t) => Err(e, t)
      case Ok(b, t) => Ok(Text(b), t)
  }

  /** Reads items until the grammar says the message is complete. */
  function Parse(l: Layout, done: seq<Item>, s: seq<byte>): Run<seq<Item>>
    decreases |s|
  {
    match NextOp(l, done, |done|)
    case Done => Ok(done, s)
    case TakeRest => Ok(done + [Tail(s)], [])
    case Refuse(e) => Err(e, s)
    case Expect(op) =>
      match ReadOp(op, s)
      case Err(e, t) => Err(e, t)
      case Ok(item, t) => Parse(l, done + [item], t)
  }

  /** The items complete when the run ends, whether it succeeds or fails. */
  function Collected(l: Layout, done: seq<Item>, s: seq<byte>): (r: seq<Item>)
    ensures done <= r
    ensures Parse(l, done, s).Ok? ==> r == Parse(l, done, s).value
    decreases |s|
  {
    match NextOp(l, done, |done|)
    case Done => done
    case TakeRest => done + [Tail(s)]
    case Refuse(e) => done
    case Expect(op) =>
      match ReadOp(op, s)
      case Err(e, t) => done
      case Ok(item, t) => Collected(l, done + [item], t)
  }

  // ---------- single steps, for decoders that follow the grammar item by item ----------

  lemma ParseStep(l: Layout, done: seq<Item>, s: seq<byte>, op: Op)
    requires NextOp(l, done, |done|) == Expect(op)
    ensures var r := ReadOp(op, s);
      && (r.Err? ==> Parse(l, done, s) == Err(r.error, r.rest) && Collected(l, done, s) == done)
      && (r.Ok? ==> Parse(l, done, s) == Parse(l, done + [r.value], r.rest)
                    && Collected(l, done, s) == Collected(l, done + [r.value], r.rest))
  {
    hide NextOp, ReadOp;
  }

  lemma ParseFixed(l: Layout, done: seq<Item>, s: seq<byte>, widths: FieldWidths)
    requires NextOp(l, done, |done|) == Expect(Fixed(widths))
    ensures var r := ReadFields(widths, s);
      && (r.Err? ==> Parse(l, done, s) == Err(r.error, r.rest) && Collected(l, done, s) == done)
      && (r.Ok? ==> Widths(r.value) == widths
                    && Parse(l, done, s) == Parse(l, done + [Fields(r.value)], r.rest)
                    && Collected(l, done, s) == Collected(l, done + [Fields(r.value)], r.rest))
  {
    hide NextOp, Parse, Collected, ReadFields;
    ParseStep(l, done, s, Fixed(widths));
    if ReadFields(widths, s).Ok? { FieldsAreConsumed(widths, s); }
  }

  lemma ParseNumber(l: Layout, done: seq<Item>, s: seq<byte>)
    requires NextOp(l, done, |done|) == Expect(VarInt)
    ensures var r := ReadVarInt(s);
      && (r.Err? ==> Parse(l, done, s) == Err(r.error, r.rest) && Collected(l, done, s) == done)
      && (r.Ok? ==> Parse(l, done, s) == Parse(l, done + [Number(r.value)], r.rest)
                    && Collected(l, done, s) == Collected(l, done + [Number(r.value)], r.rest))
  {
    hide NextOp, Parse, Collected, ReadVarInt;
    ParseStep(l, done, s, VarInt);
  }

  lemma ParseText(l: Layout, done: seq<Item>, s: seq<byte>, limit: nat, refusal: Error)
    requires NextOp(l, done, |done|) == Expect(Counted(limit, refusal))
    ensures var r := ReadCounted(limit, refusal, s);
      && (r.Err? ==> Parse(l, done, s) == Err(r.error, r.rest) && Collected(l, done, s) == done)
      && (r.Ok? ==> Parse(l, done, s) == Parse(l, done + [Text(r.value)], r.rest)
                    && Collected(l, done, s) == Collected(l, done + [Text(r.value)], r.rest))
  {
    hide NextOp, Parse, Collected, ReadCounted;
    ParseStep(l, done, s, Counted(limit, refusal));
  }

  lemma ParseStops(l: Layout, done: seq<Item>, s: seq<byte>)
    ensures var next := NextOp(l, done, |done|);
      && (next.Done? ==> Parse(l, done, s) == Ok(done, s) && Collected(l, done, s) == done)
      && (next.TakeRest? ==> Parse(l, done, s) == Ok(done + [Tail(s)], []))
      && (next.Refuse? ==> Parse(l, done, s) == Err(next.error, s) && Collected(l, done, s) == done)
  {
    hide NextOp;
  }

  // ---------- conforming item lists ----------

  predicate Matches(op: Op, item: Item) {
    match op
    case Fixed(widths) => item.Fields? && Widths(item.fields) == widths
    case VarInt => item.Number?
    case Counted(limit, _) => item.Text? && |item.text| <= limit && |item.text| < 0x1_0000_0000_0000_0000
  }

  predicate Started(l: Layout, items: seq<Item>, n: nat)
    requires n <= |items|
  {
    forall i | 0 <= i < n :: NextOp(l, items, i).Expect? && Matches(NextOp(l, items, i).op, items[i])
  }

  predicate EndsWithTail(l: Layout, items: seq<Item>) {
    |items| > 0 && NextOp(l, items, |items| - 1).TakeRest? && items[|items| - 1].Tail?
  }

  /** The item list of a whole message. */
  predicate Conforms(l: Layout, items: seq<Item>) {
    || (Started(l, items, |items|) && NextOp(l, items, |items|).Done?)
    || (EndsWithTail(l, items) && Started(l, items, |items| - 1))
  }

  lemma OnlyThePrefixMatters(l: Layout, a: seq<Item>, b: seq<Item>, i: nat)
    requires i <= |a| && i <= |b| && a[..i] == b[..i]
    ensures NextOp(l, a, i) == NextOp(l, b, i)
  {
    assert forall j | 0 <= j < i :: a[j] == a[..i][j] == b[j];
  }

  /** A conforming list is complete where the grammar says so. */
  lemma EndsWhereDone(l: Layout, items: seq<Item>, n: nat)
    requires Conforms(l, items) && 0 < n <= |items|
    requires NextOp(l, items, n).Done? && NextOp(l, items, n - 1).Expect?
    ensures |items| == n && !EndsWithTail(l, items)
  {
    hide NextOp;
  }

  // ---------- printing, then parsing ----------

  lemma ReadOpOfBytes(op: Op, item: Item, t: seq<byte>)
    requires Matches(op, item)
    ensures ReadOp(op, ItemBytes(item) + t) == Ok(item, t)
  {
    match op
    case Fixed(widths) => ReadFieldsOfConcat(item.fields, t);
    case VarInt => ReadVarIntOfBytes(item.number, t);
    case Counted(limit, refusal) => ReadCountedOfBytes(limit, refusal, item.text, t);
  }

  lemma PrintStep(items: seq<Item>, i: nat, t: seq<byte>)
    requires i < |items|
    ensures Print(items[i..]) + t == ItemBytes(items[i]) + (Print(items[i + 1..]) + t)
  {
    assert items[i..][1..] == items[i + 1..];
  }

  /** Items that the grammar expects are read back from their bytes, and the run goes on after them. */
  lemma {:induction false} ParseOfStartedFrom(l: Layout, items: seq<Item>, i: nat, t: seq<byte>)
    requires i <= |items| && Started(l, items, |items|)
    ensures Parse(l, items[..i], Print(items[i..]) + t) == Parse(l, items, t)
    ensures Collected(l, items[..i], Print(items[i..]) + t) == Collected(l, items, t)
    decreases |items| - i
  {
    hide NextOp, ReadOp, ItemBytes, Parse, Collected;
    var done := items[..i];
    if i == |items| {
      assert done == items && Print(items[i..]) + t == t;
    } else {
      var next, more := NextOp(l, items, i), items[..i + 1];
      assert NextOp(l, done, |done|) == next by { OnlyThePrefixMatters(l, done, items, i); }
      assert done + [items[i]] == more;
      PrintStep(items, i, t);
      ReadOpOfBytes(next.op, items[i], Print(items[i + 1..]) + t);
      ParseStep(l, done, Print(items[i..]) + t, next.op);
      ParseOfStartedFrom(l, items, i + 1, t);
    }
  }

  lemma ParseOfStarted(l: Layout, items: seq<Item>, t: seq<byte>)
    requires Started(l, items, |items|)
    ensures Parse(l, [], Print(items) + t) == Parse(l, items, t)
    ensures Collected(l, [], Print(items) + t) == Collected(l, items, t)
  {
    assert items[..0] == [] && items[0..] == items;
    ParseOfStartedFrom(l, items, 0, t);
  }

  /** Whatever conforms is read back from its bytes; only a message that takes the rest of its
    * payload cannot be followed by anything. */
  lemma ParseOfPrint(l: Layout, items: seq<Item>, t: seq<byte>)
    requires Conforms(l, items)
    requires EndsWithTail(l, items) ==> t == []
    ensures Parse(l, [], Print(items) + t) == Ok(items, t)
  {
    hide NextOp, Parse, Collected, Print;
    if EndsWithTail(l, items) {
      var n := |items| - 1;
      var head, tail := items[..n], items[n].tail;
      assert items == head + [Tail(tail)];
      forall i | 0 <= i <= n ensures NextOp(l, head, i) == NextOp(l, items, i) {
        OnlyThePrefixMatters(l, head, items, i);
      }
      PrintAppend(head, [Tail(tail)]);
      TailBytes(tail);
      assert Print(items) + t == Print(head) + tail;
      ParseOfStarted(l, head, tail);
      ParseStops(l, head, tail);
    } else {
      ParseOfStarted(l, items, t);
      ParseStops(l, items, t);
    }
  }

  // ---------- parsing, then printing ----------

  lemma ReadOpMatches(op: Op, s: seq<byte>)
    requires ReadOp(op, s).Ok?
    ensures var r := ReadOp(op, s);
      && Matches(op, r.value)
      && |ItemBytes(r.value)| <= |s| - |r.rest|
      && (|ItemBytes(r.value)| == |s| - |r.rest| ==> s == ItemBytes(r.value) + r.rest)
  {
    match op
    case Fixed(widths) => FieldsAreConsumed(widths, s);
    case VarInt => VarIntIsShortest(s);
    case Counted(limit, refusal) =>
      VarIntIsShortest(s);
      var n := ReadVarInt(s);
      assert n.rest == n.rest[..n.value] + n.rest[n.value..];
      var b := n.rest[..n.value];
      assert VarIntBytes(|b|) + b + n.rest[n.value..] == VarIntBytes(|b|) + n.rest;
  }

  lemma {:induction false} PrintAppend(a: seq<Item>, b: seq<Item>)
    ensures Print(a + b) == Print(a) + Print(b)
  {
    if a == [] {
      assert a + b == b;
    } else {
      assert (a + b)[1..] == a[1..] + b;
      PrintAppend(a[1..], b);
    }
  }

  lemma PrintOfSix(a: Item, b: Item, c: Item, d: Item, e: Item, f: Item)
    ensures Print([a, b, c, d, e, f]) ==
      (ItemBytes(a) + (ItemBytes(b) + ItemBytes(c))) + (ItemBytes(d) + (ItemBytes(e) + ItemBytes(f)))
  {
    hide ItemBytes, Print;
    assert [a, b, c, d, e, f] == [a, b, c] + [d, e, f];
    PrintAppend([a, b, c], [d, e, f]);
    PrintOfThree(a, b, c);
    PrintOfThree(d, e, f);
  }

  lemma StartedExtends(l: Layout, done: seq<Item>, item: Item)
    requires Started(l, done, |done|)
    requires NextOp(l, done, |done|).Expect? && Matches(NextOp(l, done, |done|).op, item)
    ensures Started(l, done + [item], |done| + 1)
  {
    var more := done + [item];
    forall i | 0 <= i < |more|
      ensures NextOp(l, more, i).Expect? && Matches(NextOp(l, more, i).op, more[i])
    {
      OnlyThePrefixMatters(l, done, more, i);
    }
  }

  lemma TailConforms(l: Layout, done: seq<Item>, s: seq<byte>)
    requires Started(l, done, |done|) && NextOp(l, done, |done|).TakeRest?
    ensures Conforms(l, done + [Tail(s)])
  {
    var all := done + [Tail(s)];
    forall i | 0 <= i <= |done|
      ensures NextOp(l, all, i) == NextOp(l, done, i)
    {
      OnlyThePrefixMatters(l, done, all, i);
    }
  }

  /** How the bytes an item list prints to compare with the bytes it was read from. */
  predicate PrintsWithin(items: seq<Item>, s: seq<byte>, rest: seq<byte>) {
    && |Print(items)| <= |s| - |rest|
    && (|Print(items)| == |s| - |rest| ==> s == Print(items) + rest)
  }

  lemma PrintOfOne(item: Item)
    ensures Print([item]) == ItemBytes(item)
  {
    assert [item][1..] == [];
  }

  lemma PrintOfThree(a: Item, b: Item, c: Item)
    ensures Print([a, b, c]) == ItemBytes(a) + (ItemBytes(b) + ItemBytes(c))
  {
    assert [a, b, c][1..] == [b, c] && [b, c][1..] == [c];
    PrintOfOne(c);
  }

  lemma TailBytes(s: seq<byte>)
    ensures Print([Tail(s)]) == s
  {
    assert [Tail(s)][1..] == [];
  }

  lemma PrintsWithinStep(item: Item, items: seq<Item>, s: seq<byte>, t: seq<byte>, rest: seq<byte>)
    requires |ItemBytes(item)| <= |s| - |t|
    requires |ItemBytes(item)| == |s| - |t| ==> s == ItemBytes(item) + t
    requires PrintsWithin(items, t, rest)
    ensures PrintsWithin([item] + items, s, rest)
  {
    assert ([item] + items)[1..] == items;
    if |Print([item] + items)| == |s| - |rest| {
      assert ItemBytes(item) + Print(items) + rest == ItemBytes(item) + (Print(items) + rest);
    }
  }

  /** What is accepted conforms, and prints into no more bytes than were read. If it prints into
    * just as many, they are the bytes read. */
  lemma {:induction false} ParseConformsFrom(l: Layout, done: seq<Item>, s: seq<byte>)
    requires Started(l, done, |done|) && Parse(l, done, s).Ok?
    ensures var r := Parse(l, done, s);
      && done <= r.value && Conforms(l, r.value)
      && (EndsWithTail(l, r.value) ==> r.rest == [])
      && PrintsWithin(r.value[|done|..], s, r.rest)
    decreases |s|
  {
    hide NextOp, ReadOp, ItemBytes;
    var r := Parse(l, done, s);
    var next := NextOp(l, done, |done|);
    if next.Done? {
      assert r.value[|done|..] == [];
      NoTailWhenDone(l, done);
    } else if next.TakeRest? {
      TailConforms(l, done, s);
      assert r.value[|done|..] == [Tail(s)];
      assert Print([Tail(s)]) == s by { TailBytes(s); }
    } else {
      var one := ReadOp(next.op, s);
      ReadOpMatches(next.op, s);
      StartedExtends(l, done, one.value);
      ParseConformsFrom(l, done + [one.value], one.rest);
      var tail := r.value[|done| + 1..];
      assert r.value[|done|..] == [one.value] + tail;
      PrintsWithinStep(one.value, tail, s, one.rest, r.rest);
    }
  }

  lemma NoTailWhenDone(l: Layout, items: seq<Item>)
    requires Started(l, items, |items|)
    ensures !EndsWithTail(l, items)
  {
  }

  lemma ParseConforms(l: Layout, s: seq<byte>)
    requires Parse(l, [], s).Ok?
    ensures var r := Parse(l, [], s);
      && Conforms(l, r.value)
      && (EndsWithTail(l, r.value) ==> r.rest == [])
      && PrintsWithin(r.value, s, r.rest)
  {
    ParseConformsFrom(l, [], s);
    assert Parse(l, [], s).value[0..] == Parse(l, [], s).value;
  }

  /** Normalisation: for every payload accepted, the printed form is no longer than what was
    * read and is read back as the same items, whatever follows (nothing may follow a tail). */
  lemma Normalise(l: Layout, s: seq<byte>, t: seq<byte>)
    requires Parse(l, [], s).Ok?
    requires EndsWithTail(l, Parse(l, [], s).value) ==> t == []
    ensures var r := Parse(l, [], s);
      |Print(r.value)| <= |s| - |r.rest| && Parse(l, [], Print(r.value) + t) == Ok(r.value, t)
  {
    ParseConforms(l, s);
    ParseOfPrint(l, Parse(l, [], s).value, t);
  }
}
