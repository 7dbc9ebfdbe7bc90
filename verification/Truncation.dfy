/** What a decoder reports when its input is cut short: EOF exactly when the cut falls between
  * two full reads, an unexpected EOF when it falls inside one. */
module Truncation {
  import opened Octets
  import opened Wire
  import opened Grammar

  // ---------- the full reads a decoder makes ----------

  /** The sizes of the non-empty full reads an item takes. */
  function OpCalls(op: Op, s: seq<byte>): seq<nat> {
    match op
    case Fixed(widths) => widths
    case VarInt => VarIntCalls(s)
    case Counted(_, _) =>
      VarIntCalls(s) +
      (match ReadVarInt(s)
       case Err(_, _) => []
       case Ok(n, _) => if n == 0 then [] else [n])
  }

  function VarIntCalls(s: seq<byte>): seq<nat> {
    if s == [] then [] else if VarIntExtra(s[0]) == 0 then [1] else [1, VarIntExtra(s[0])]
  }

  /** The sizes of the non-empty full reads of a whole run, in order. */
  function Calls(l: Layout, done: seq<Item>, s: seq<byte>): seq<nat>
    decreases |s|
  {
    match NextOp(l, done, |done|)
    case Expect(op) =>
      (match ReadOp(op, s)
       case Err(_, _) => []
       case Ok(item, t) => OpCalls(op, s) + Calls(l, done + [item], t))
    case _ => []
  }

  /** Cutting after k bytes cuts between two calls. */
  ghost predicate Boundary(calls: seq<nat>, k: nat) {
    exists j | 0 <= j <= |calls| :: Sum(calls[..j]) == k
  }

  // ---------- partial sums ----------

  predicate Between(calls: seq<nat>, k: nat) {
    k == 0 || (calls != [] && calls[0] <= k && Between(calls[1..], k - calls[0]))
  }

  lemma {:induction false} BetweenIsBoundary(calls: seq<nat>, k: nat)
    ensures Between(calls, k) <==> Boundary(calls, k)
  {
    forall j | 1 <= j <= |calls| ensures Sum(calls[..j]) == calls[0] + Sum(calls[1..][..j - 1]) {
      assert calls[..j][1..] == calls[1..][..j - 1];
    }
    if k == 0 {
      assert Sum(calls[..0]) == k;
    } else if calls != [] && calls[0] <= k {
      BetweenIsBoundary(calls[1..], k - calls[0]);
      if Between(calls, k) {
        var j :| 0 <= j <= |calls[1..]| && Sum(calls[1..][..j]) == k - calls[0];
        assert Sum(calls[..j + 1]) == k;
      }
      if Boundary(calls, k) {
        var j :| 0 <= j <= |calls| && Sum(calls[..j]) == k;
        assert Sum(calls[1..][..j - 1]) == k - calls[0];
      }
    }
  }

  lemma {:induction false} BetweenAppend(a: seq<nat>, b: seq<nat>, k: nat)
    ensures Between(a + b, k) <==> if k < Sum(a) then Between(a, k) else Between(b, k - Sum(a))
  {
    if a == [] {
      assert a + b == b;
    } else {
      assert (a + b)[1..] == a[1..] + b;
      if a[0] <= k { BetweenAppend(a[1..], b, k - a[0]); }
    }
  }

  // ---------- cutting one item ----------

  function Short<T>(calls: seq<nat>, k: nat): Run<T> {
    Err(if Between(calls, k) then EOF else UnexpectedEOF, [])
  }

  /** Reading from the first k bytes of s: the same outcome if k covers it, an error otherwise. */
  predicate CutOutcome<T(==)>(whole: Run<T>, cut: Run<T>, calls: seq<nat>, length: nat, k: nat)
    requires whole.Ok? && k <= length && |whole.rest| <= length
  {
    var used := length - |whole.rest|;
    if k < used then cut == Short(calls, k)
    else cut == Ok(whole.value, whole.rest[..k - used])
  }

  lemma {:induction false} FieldsCut(widths: seq<nat>, s: seq<byte>, k: nat)
    requires k <= |s| && ReadFields(widths, s).Ok?
    requires forall i | 0 <= i < |widths| :: widths[i] > 0
    ensures CutOutcome(ReadFields(widths, s), ReadFields(widths, s[..k]), widths, |s|, k)
  {
    if widths != [] {
      var n := widths[0];
      FieldsAreConsumed(widths, s);
      if n <= k {
        assert s[..k][..n] == s[..n] && s[..k][n..] == s[n..][..k - n];
        FieldsCut(widths[1..], s[n..], k - n);
      }
    }
  }

  lemma PairCalls(a: nat, b: nat)
    ensures Sum([a]) == a && Sum([a, b]) == a + b
    ensures forall k: nat :: Between([a], k) <==> k == 0 || k == a
    ensures forall k: nat :: Between([a, b], k) <==> k == 0 || k == a || k == a + b
  {
    assert [a, b][1..] == [b];
    assert [a][1..] == [] && [b][1..] == [];
    forall k: nat
      ensures Between([a], k) <==> k == 0 || k == a
      ensures Between([a, b], k) <==> k == 0 || k == a || k == a + b
    {
      assert Between([a], k) <==> k == 0 || (a <= k && Between([], k - a));
      assert Between([a, b], k) <==> k == 0 || (a <= k && Between([b], k - a));
      if a <= k {
        assert Between([b], k - a) <==> k == a || (b <= k - a && Between([], k - a - b));
      }
    }
  }

  lemma VarIntCut(s: seq<byte>, k: nat)
    requires k <= |s| && ReadVarInt(s).Ok?
    ensures CutOutcome(ReadVarInt(s), ReadVarInt(s[..k]), VarIntCalls(s), |s|, k)
    ensures Sum(VarIntCalls(s)) == |s| - |ReadVarInt(s).rest|
  {
    var extra := VarIntExtra(s[0]);
    PairCalls(1, extra);
    if k > 0 {
      assert s[..k][..1] == s[..1] && s[..k][1..] == s[1..][..k - 1];
      if k > extra {
        assert s[1..][..k - 1][..extra] == s[1..][..extra];
        assert s[1..][..k - 1][extra..] == s[1..][extra..][..k - 1 - extra];
      }
    }
  }

  lemma FullCut(n: nat, s: seq<byte>, k: nat)
    requires n <= |s| && k <= |s|
    ensures CutOutcome(ReadFull(n, s), ReadFull(n, s[..k]), if n == 0 then [] else [n], |s|, k)
    ensures Sum(if n == 0 then [] else [n]) == n
  {
    PairCalls(n, 0);
    if n <= k {
      assert s[..k][..n] == s[..n] && s[..k][n..] == s[n..][..k - n];
    }
  }

  lemma CountedCut(limit: nat, refusal: Error, s: seq<byte>, k: nat)
    requires k <= |s| && ReadCounted(limit, refusal, s).Ok?
    ensures CutOutcome(ReadCounted(limit, refusal, s), ReadCounted(limit, refusal, s[..k]),
                       OpCalls(Counted(limit, refusal), s), |s|, k)
    ensures Sum(OpCalls(Counted(limit, refusal), s)) == |s| - |ReadCounted(limit, refusal, s).rest|
  {
    var r := ReadVarInt(s);
    var used := |s| - |r.rest|;
    var last := if r.value == 0 then [] else [r.value];
    VarIntCut(s, k);
    FullCut(r.value, r.rest, if k >= used then k - used else 0);
    BetweenAppend(VarIntCalls(s), last, k);
    SumAppend(VarIntCalls(s), last);
  }

  lemma {:induction false} SumAppend(a: seq<nat>, b: seq<nat>)
    ensures Sum(a + b) == Sum(a) + Sum(b)
  {
    if a == [] {
      assert a + b == b;
    } else {
      assert (a + b)[1..] == a[1..] + b;
      SumAppend(a[1..], b);
    }
  }

  lemma OpCut(op: Op, s: seq<byte>, k: nat)
    requires k <= |s| && ReadOp(op, s).Ok?
    ensures CutOutcome(ReadOp(op, s), ReadOp(op, s[..k]), OpCalls(op, s), |s|, k)
    ensures Sum(OpCalls(op, s)) == |s| - |ReadOp(op, s).rest|
  {
    match op
    case Fixed(widths) => FieldsCut(widths, s, k); FieldsAreConsumed(widths, s);
    case VarInt => VarIntCut(s, k);
    case Counted(limit, refusal) => CountedCut(limit, refusal, s, k);
  }

  // ---------- cutting a whole payload ----------

  /** The length of the part of a message that runs to the end of its payload. */
  function TailLength(items: seq<Item>): nat {
    if items != [] && items[|items| - 1].Tail? then |items[|items| - 1].tail| else 0
  }

  lemma CallsStep(l: Layout, done: seq<Item>, s: seq<byte>, op: Op)
    requires NextOp(l, done, |done|) == Expect(op) && ReadOp(op, s).Ok?
    ensures Calls(l, done, s) == OpCalls(op, s) + Calls(l, done + [ReadOp(op, s).value], ReadOp(op, s).rest)
  {
  }

  /** A cut at or after the end of the next item is a cut of what follows it. */
  lemma CutStep(l: Layout, done: seq<Item>, s: seq<byte>, k: nat, op: Op)
    requires NextOp(l, done, |done|) == Expect(op) && ReadOp(op, s).Ok? && k <= |s|
    ensures var one := ReadOp(op, s);
      var used := |s| - |one.rest|;
      var more := done + [one.value];
      && (k < used ==> Parse(l, done, s[..k]) == Short(Calls(l, done, s), k))
      && (k >= used && Parse(l, more, one.rest[..k - used]) == Short(Calls(l, more, one.rest), k - used) ==>
            Parse(l, done, s[..k]) == Short(Calls(l, done, s), k))
  {
    hide Parse, Calls, ReadOp, NextOp, OpCalls;
    var one := ReadOp(op, s);
    OpCut(op, s, k);
    CallsStep(l, done, s, op);
    ParseStep(l, done, s[..k], op);
    BetweenAppend(OpCalls(op, s), Calls(l, done + [one.value], one.rest), k);
  }

  /** How much of s a run must see before it can succeed. */
  function Needed(r: Run<seq<Item>>, s: seq<byte>): int
    requires r.Ok?
  {
    |s| - |r.rest| - TailLength(r.value)
  }

  lemma NothingMoreNeeded(l: Layout, done: seq<Item>, s: seq<byte>)
    requires Parse(l, done, s).Ok? && !NextOp(l, done, |done|).Expect?
    requires done != [] ==> !done[|done| - 1].Tail?
    ensures Needed(Parse(l, done, s), s) == 0
  {
  }

  lemma {:induction false} ParseCutFrom(l: Layout, done: seq<Item>, s: seq<byte>, k: nat)
    requires Parse(l, done, s).Ok?
    requires done != [] ==> !done[|done| - 1].Tail?
    requires k < Needed(Parse(l, done, s), s)
    ensures k <= |s| && Parse(l, done, s[..k]) == Short(Calls(l, done, s), k)
    decreases |s|
  {
    hide Parse, Calls, ReadOp, NextOp, Short;
    var next := NextOp(l, done, |done|);
    if next.Expect? {
      ParseStep(l, done, s, next.op);
      var one := ReadOp(next.op, s);
      var used := |s| - |one.rest|;
      if k >= used {
        ParseCutFrom(l, done + [one.value], one.rest, k - used);
      }
      CutStep(l, done, s, k, next.op);
    } else {
      NothingMoreNeeded(l, done, s);
    }
  }

  /** For every payload accepted and every cut short of its end - or short of the tail, for the
    * one layout that has one - decoding fails: with EOF exactly when the cut lies between two
    * non-empty full reads, with an unexpected EOF otherwise. */
  lemma ParseCut(l: Layout, s: seq<byte>, k: nat)
    requires Parse(l, [], s).Ok?
    requires k < Needed(Parse(l, [], s), s)
    ensures Parse(l, [], s[..k]) ==
      Err(if Boundary(Calls(l, [], s), k) then EOF else UnexpectedEOF, [])
  {
    ParseCutFrom(l, [], s, k);
    BetweenIsBoundary(Calls(l, [], s), k);
  }

  lemma {:induction false} TailIsLast(l: Layout, done: seq<Item>, s: seq<byte>)
    requires Parse(l, done, s).Ok? && TailLength(done) == 0
    requires done != [] ==> !done[|done| - 1].Tail?
    ensures var r := Parse(l, done, s);
      r.value != [] && r.value[|r.value| - 1].Tail? ==>
        r.rest == [] && TailLength(r.value) <= |s| && |done| < |r.value| && done <= r.value
    decreases |s|
  {
    hide ReadOp;
    var next := NextOp(l, done, |done|);
    if next.Expect? {
      var one := ReadOp(next.op, s);
      ParseStep(l, done, s, next.op);
      TailIsLast(l, done + [one.value], one.rest);
    }
  }

  /** A cut inside the tail leaves the other items as they are and cuts the tail. */
  lemma {:induction false} TailCut(l: Layout, done: seq<Item>, s: seq<byte>, k: nat)
    requires Parse(l, done, s).Ok? && k <= |s|
    requires done != [] ==> !done[|done| - 1].Tail?
    requires var items := Parse(l, done, s).value;
      items != [] && items[|items| - 1].Tail? && |s| - k <= TailLength(items)
    ensures var items := Parse(l, done, s).value;
      var n, tail := |items| - 1, items[|items| - 1].tail;
      Parse(l, done, s[..k]) == Ok(items[..n] + [Tail(tail[..|tail| - (|s| - k)])], [])
    decreases |s|
  {
    hide NextOp, ReadOp, OpCalls, Parse, Collected;
    var next := NextOp(l, done, |done|);
    ParseStops(l, done, s);
    ParseStops(l, done, s[..k]);
    if next.Expect? {
      var one := ReadOp(next.op, s);
      ParseStep(l, done, s, next.op);
      TailIsLast(l, done + [one.value], one.rest);
      OpCut(next.op, s, k);
      ParseStep(l, done, s[..k], next.op);
      TailCut(l, done + [one.value], one.rest, k - (|s| - |one.rest|));
    } else if next.TakeRest? {
      assert (done + [Tail(s)])[..|done|] == done;
    }
  }

  // ---------- cutting an encoding ----------

  function NumberCalls(v: nat): seq<nat> {
    if VarIntSize(v) == 1 then [1] else [1, VarIntSize(v) - 1]
  }

  /** The sizes of the full reads that take back a printed item. */
  function ItemCalls(item: Item): seq<nat> {
    match item
    case Fields(fields) => Widths(fields)
    case Number(v) => NumberCalls(v)
    case Text(b) => NumberCalls(|b|) + (if b == [] then [] else [|b|])
    case Tail(_) => []
  }

  function AllCalls(items: seq<Item>): seq<nat> {
    if items == [] then [] else ItemCalls(items[0]) + AllCalls(items[1..])
  }

  lemma OpCallsOfBytes(op: Op, item: Item, t: seq<byte>)
    requires Matches(op, item)
    ensures OpCalls(op, ItemBytes(item) + t) == ItemCalls(item)
  {
    match op
    case Fixed(_) =>
    case VarInt => VarIntCallsOfBytes(item.number, t);
    case Counted(_, _) =>
      var b := item.text;
      assert ItemBytes(item) + t == VarIntBytes(|b|) + (b + t);
      VarIntCallsOfBytes(|b|, b + t);
      ReadVarIntOfBytes(|b|, b + t);
  }

  lemma VarIntCallsOfBytes(v: u64, t: seq<byte>)
    ensures VarIntCalls(VarIntBytes(v) + t) == NumberCalls(v)
  {
    assert (VarIntBytes(v) + t)[0] == VarIntBytes(v)[0];
  }

  lemma {:induction false} CallsOfPrintFrom(l: Layout, items: seq<Item>, i: nat)
    requires i <= |items| && Conforms(l, items) && (EndsWithTail(l, items) ==> i < |items|)
    ensures Calls(l, items[..i], Print(items[i..])) == AllCalls(items[i..])
    decreases |items| - i
  {
    hide ReadOp, ItemBytes, OpCalls, ItemCalls, NextOp;
    var done := items[..i];
    var next := NextOp(l, items, i);
    assert NextOp(l, done, |done|) == next by { OnlyThePrefixMatters(l, done, items, i); }
    if i < |items| {
      assert items[i..][1..] == items[i + 1..];
      if next.TakeRest? {
        assert items[i + 1..] == [];
        TailTakesNoCalls(items[i]);
      } else {
        var rest := Print(items[i + 1..]);
        ReadOpOfBytes(next.op, items[i], rest);
        OpCallsOfBytes(next.op, items[i], rest);
        assert done + [items[i]] == items[..i + 1];
        CallsStep(l, done, Print(items[i..]), next.op);
        CallsOfPrintFrom(l, items, i + 1);
      }
    }
  }

  lemma TailTakesNoCalls(item: Item)
    ensures item.Tail? ==> ItemCalls(item) == []
  {
  }

  /** Truncation of an encoding: every proper prefix of it - short of its tail, if it has one -
    * fails to decode, with EOF exactly on the boundaries between two of its reads. */
  lemma PrintCut(l: Layout, items: seq<Item>, k: nat)
    requires Conforms(l, items) && k + TailLength(items) < |Print(items)|
    ensures Parse(l, [], Print(items)[..k]) ==
      Err(if Boundary(AllCalls(items), k) then EOF else UnexpectedEOF, [])
  {
    hide Parse, Calls, Conforms, Boundary, AllCalls, EndsWithTail;
    assert Print(items) + [] == Print(items);
    ParseOfPrint(l, items, []);
    ParseCut(l, Print(items), k);
    PrintIsNotEmpty(items);
    assert items[..0] == [] && items[0..] == items;
    assert EndsWithTail(l, items) ==> 0 < |items|;
    CallsOfPrintFrom(l, items, 0);
  }

  lemma PrintIsNotEmpty(items: seq<Item>)
    ensures Print(items) != [] ==> items != []
  {
  }

  /** No encoding of a self-delimiting layout is a proper prefix of another. */
  lemma PrefixFree(l: Layout, a: seq<Item>, b: seq<Item>, t: seq<byte>)
    requires Conforms(l, a) && Conforms(l, b) && !EndsWithTail(l, a)
    requires Print(a) + t == Print(b)
    ensures a == b && t == []
  {
    ParseOfPrint(l, a, t);
    ParseOfPrint(l, b, []);
    assert Print(b) + [] == Print(b);
  }
}
