/** How the decoders of the modelled messages fail: for every error, the payloads that give it. */
module PayloadFailures {
  import opened Octets
  import opened Wire
  import opened Grammar
  import opened Truncation
  import opened Messages

  // ---------- one item ----------

  /** The input ends in a read of an item, and between two of its non-empty full reads. */
  predicate RunsOut(op: Op, left: seq<byte>) {
    match op
    case Fixed(widths) => |left| < Sum(widths) && Between(widths, |left|)
    case VarInt => VarIntRunsOut(left)
    case Counted(limit, _) =>
      || VarIntRunsOut(left)
      || (ReadVarInt(left).Ok? && ReadVarInt(left).rest == [] && 0 < ReadVarInt(left).value <= limit)
  }

  predicate VarIntRunsOut(left: seq<byte>) {
    left == [] || (|left| == 1 && VarIntExtra(left[0]) > 0)
  }

  /** The input ends in a read of an item, and inside one of its full reads. */
  predicate EndsInside(op: Op, left: seq<byte>) {
    match op
    case Fixed(widths) => |left| < Sum(widths) && !Between(widths, |left|)
    case VarInt => VarIntEndsInside(left)
    case Counted(limit, _) =>
      || VarIntEndsInside(left)
      || (ReadVarInt(left).Ok? && 0 < |ReadVarInt(left).rest| < ReadVarInt(left).value <= limit)
  }

  predicate VarIntEndsInside(left: seq<byte>) {
    |left| > 1 && |left| < 1 + VarIntExtra(left[0])
  }

  /** The length of a counted item is above its limit. */
  predicate OverLimit(op: Op, left: seq<byte>) {
    op.Counted? && ReadVarInt(left).Ok? && ReadVarInt(left).value > op.limit
  }

  predicate OpFailsWith(op: Op, left: seq<byte>, e: Error) {
    || (RunsOut(op, left) && e == EOF)
    || (EndsInside(op, left) && e == UnexpectedEOF)
    || (OverLimit(op, left) && e == op.refusal)
  }

  lemma {:induction false} FieldsFail(widths: seq<nat>, s: seq<byte>)
    requires forall i | 0 <= i < |widths| :: widths[i] > 0
    ensures ReadFields(widths, s).Err? <==> |s| < Sum(widths)
    ensures |s| < Sum(widths) ==> ReadFields(widths, s).error == if Between(widths, |s|) then EOF else UnexpectedEOF
  {
    if widths != [] {
      var n := widths[0];
      if n <= |s| {
        FieldsFail(widths[1..], s[n..]);
      } else {
        SumIsPositive(widths);
      }
    }
  }

  lemma SumIsPositive(widths: seq<nat>)
    requires widths != []
    ensures Sum(widths) >= widths[0]
  {
  }

  lemma VarIntFails(s: seq<byte>)
    ensures ReadVarInt(s).Err? <==> VarIntRunsOut(s) || VarIntEndsInside(s)
    ensures ReadVarInt(s).Err? ==> ReadVarInt(s).error == if VarIntRunsOut(s) then EOF else UnexpectedEOF
  {
  }

  lemma OpFails(op: Op, s: seq<byte>, e: Error)
    ensures ReadOp(op, s).Err? && ReadOp(op, s).error == e <==> OpFailsWith(op, s, e)
  {
    match op
    case Fixed(widths) => FieldsFail(widths, s);
    case VarInt => VarIntFails(s);
    case Counted(limit, refusal) => VarIntFails(s);
  }

  // ---------- whole payloads ----------

  /** The input left when the last complete item had been read. */
  function Left(l: Layout, done: seq<Item>, s: seq<byte>): seq<byte>
    decreases |s|
  {
    match NextOp(l, done, |done|)
    case Expect(op) =>
      (match ReadOp(op, s)
       case Err(_, _) => s
       case Ok(item, t) => Left(l, done + [item], t))
    case _ => s
  }

  /** The layout expects an item that fails with e, or refuses with e the items it has. */
  predicate LayoutFailsWith(l: Layout, got: seq<Item>, left: seq<byte>, e: Error) {
    match NextOp(l, got, |got|)
    case Expect(op) => OpFailsWith(op, left, e)
    case Refuse(r) => e == r
    case _ => false
  }

  lemma NothingAfterTheRest(l: Layout, done: seq<Item>, tail: Item)
    requires NextOp(l, done, |done|).TakeRest?
    ensures NextOp(l, done + [tail], |done| + 1).TakeRest?
  {
  }

  lemma {:induction false} ParseFailsFrom(l: Layout, done: seq<Item>, s: seq<byte>, e: Error)
    ensures Parse(l, done, s).Err? && Parse(l, done, s).error == e <==>
      LayoutFailsWith(l, Collected(l, done, s), Left(l, done, s), e)
    decreases |s|
  {
    var next := NextOp(l, done, |done|);
    if next.TakeRest? { NothingAfterTheRest(l, done, Tail(s)); }
    hide NextOp, ReadOp, OpFailsWith;
    if next.Expect? {
      OpFails(next.op, s, e);
      var one := ReadOp(next.op, s);
      ParseStep(l, done, s, next.op);
      if one.Ok? {
        ParseFailsFrom(l, done + [one.value], one.rest, e);
      }
    }
  }

  /** The items collected are ones the layout expected, but for a tail at the end. */
  predicate Expected(l: Layout, got: seq<Item>) {
    forall i | 0 <= i < |got| :: NextOp(l, got, i).Expect? || NextOp(l, got, i).TakeRest?
  }

  lemma {:induction false} CollectedIsExpected(l: Layout, done: seq<Item>, s: seq<byte>)
    requires Expected(l, done)
    ensures Expected(l, Collected(l, done, s))
    decreases |s|
  {
    hide NextOp, ReadOp;
    var next := NextOp(l, done, |done|);
    if next.Expect? && ReadOp(next.op, s).Ok? {
      var one := ReadOp(next.op, s);
      ExpectedExtends(l, done, one.value);
      CollectedIsExpected(l, done + [one.value], one.rest);
    } else if next.TakeRest? {
      ExpectedExtends(l, done, Tail(s));
    }
  }

  lemma ExpectedExtends(l: Layout, done: seq<Item>, item: Item)
    requires Expected(l, done)
    requires NextOp(l, done, |done|).Expect? || NextOp(l, done, |done|).TakeRest?
    ensures Expected(l, done + [item])
  {
    var more := done + [item];
    forall i | 0 <= i < |more| ensures NextOp(l, more, i).Expect? || NextOp(l, more, i).TakeRest? {
      OnlyThePrefixMatters(l, done, more, i);
    }
  }

  // ---------- the errors of each kind of message ----------

  /** More is expected after the last complete item, and the input ends between two of its reads. */
  predicate PayloadRunsOut(l: Layout, got: seq<Item>, left: seq<byte>) {
    var next := NextOp(l, got, |got|);
    next.Expect? && RunsOut(next.op, left)
  }

  /** More is expected after the last complete item, and the input ends inside one of its reads. */
  predicate PayloadEndsInside(l: Layout, got: seq<Item>, left: seq<byte>) {
    var next := NextOp(l, got, |got|);
    next.Expect? && EndsInside(next.op, left)
  }

  /** The two allocations made from an unchecked count, eight bytes for each of a version's stream
    * numbers and one for each of a version 3 pubkey's signature, that are over the memory or the
    * largest int. */
  predicate AllocationFails(l: Layout, got: seq<Item>, left: seq<byte>) {
    match l.kind
    case VersionKind =>
      |got| == 6 && (got[5].Num() > 0x7fff_ffff_ffff_ffff || 8 * got[5].Num() > l.memory)
    case PubKeyKind =>
      && |got| == 6 && got[1].Num() == 3 && ReadVarInt(left).Ok?
      && (ReadVarInt(left).value > 0x7fff_ffff_ffff_ffff || ReadVarInt(left).value > l.memory)
    case _ => false
  }

  /** When a payload, of which the items got were complete and left came after them, gives e. */
  predicate FailsWith(l: Layout, got: seq<Item>, left: seq<byte>, e: Error) {
    match e
    case EOF => PayloadRunsOut(l, got, left)
    case UnexpectedEOF => PayloadEndsInside(l, got, left)
    case Panic => AllocationFails(l, got, left)
    case MessageError(reason) =>
      (match reason
       case StringTooLong =>
         l.kind.VersionKind? && |got| == 4 && ReadVarInt(left).Ok? && ReadVarInt(left).value > 33554432
       case UserAgentTooLong => l.kind.VersionKind? && |got| == 5 && |got[4].Str()| > 2000
       case TooManyItems =>
         && |got| == 1
         && ((l.kind.AddrKind? && got[0].Num() > 1000)
             || ((l.kind.InvKind? || l.kind.GetDataKind?) && got[0].Num() > 50000))
       case WrongObjectType =>
         && |got| == 1
         && ((l.kind.GetPubKeyKind? && BigEndian(got[0].Field(2)) != 0)
             || (l.kind.PubKeyKind? && BigEndian(got[0].Field(2)) != 1))
       case _ => false)
    case _ => false
  }

  /** What the layout says of the last complete item, that it was expected, holds of these. */
  lemma LayoutErrors(l: Layout, got: seq<Item>, left: seq<byte>, e: Error)
    requires Expected(l, got)
    ensures LayoutFailsWith(l, got, left, e) <==> FailsWith(l, got, left, e)
  {
    match l.kind
    case VersionKind => VersionErrors(l, got, left, e);
    case GetPubKeyKind => ObjectErrors(l, got, left, e);
    case PubKeyKind => ObjectErrors(l, got, left, e);
    case _ => ListErrors(l, got, left, e);
  }

  lemma VersionErrors(l: Layout, got: seq<Item>, left: seq<byte>, e: Error)
    requires Expected(l, got) && l.kind.VersionKind?
    ensures LayoutFailsWith(l, got, left, e) <==> FailsWith(l, got, left, e)
  {
    hide RunsOut, EndsInside, ReadVarInt;
    if |got| > 5 { assert NextOp(l, got, 5).Expect?; }
    if |got| > 6 { assert NextOp(l, got, 6).Expect?; }
  }

  lemma ListErrors(l: Layout, got: seq<Item>, left: seq<byte>, e: Error)
    requires Expected(l, got) && !l.kind.VersionKind? && !l.kind.GetPubKeyKind? && !l.kind.PubKeyKind?
    ensures LayoutFailsWith(l, got, left, e) <==> FailsWith(l, got, left, e)
  {
    hide RunsOut, EndsInside, ReadVarInt;
    if |got| > 1 { assert NextOp(l, got, 1).Expect?; }
  }

  lemma ObjectErrors(l: Layout, got: seq<Item>, left: seq<byte>, e: Error)
    requires Expected(l, got) && (l.kind.GetPubKeyKind? || l.kind.PubKeyKind?)
    ensures LayoutFailsWith(l, got, left, e) <==> FailsWith(l, got, left, e)
  {
    hide RunsOut, EndsInside, ReadVarInt, BigEndian;
    if |got| > 1 { assert NextOp(l, got, 1).Expect?; }
  }

  lemma KindSuccess(k: Kind, memory: nat, s: seq<byte>)
    requires Parse(KindLayout(k, memory), [], s).Ok?
    ensures DecodeKind(k, memory, s).Ok?
  {
    hide NextOp, ReadOp;
  }

  /** A decoder fails with e exactly when the payload's complete items, and the bytes left after
    * them, are as `FailsWith` says. */
  lemma DecodeFailsExactly(k: Kind, memory: nat, p: seq<byte>, e: Error)
    ensures var l := KindLayout(k, memory);
      DecodeKind(k, memory, p).Err? && DecodeKind(k, memory, p).error == e <==>
        FailsWith(l, Collected(l, [], p), Left(l, [], p), e)
  {
    var l := KindLayout(k, memory);
    ParseFailsFrom(l, [], p, e);
    CollectedIsExpected(l, [], p);
    hide LayoutFailsWith, FailsWith, Expected;
    LayoutErrors(l, Collected(l, [], p), Left(l, [], p), e);
    if Parse(l, [], p).Err? {
      KindFailure(k, memory, p);
    } else {
      KindSuccess(k, memory, p);
    }
  }

  /** A decoder fails to return exactly when one of the two unchecked counts cannot be allocated. */
  lemma PanicsExactly(k: Kind, memory: nat, p: seq<byte>)
    ensures var l := KindLayout(k, memory);
      DecodeKind(k, memory, p).Err? && DecodeKind(k, memory, p).error == Panic <==>
        AllocationFails(l, Collected(l, [], p), Left(l, [], p))
  {
    DecodeFailsExactly(k, memory, p, Panic);
  }

  /** A decoder reports EOF exactly when its payload is incomplete and ends between two of the
    * non-empty full reads it takes, and an unexpected EOF exactly when it ends inside one. */
  lemma RunsOutExactly(k: Kind, memory: nat, p: seq<byte>)
    ensures var l := KindLayout(k, memory);
      DecodeKind(k, memory, p).Err? && DecodeKind(k, memory, p).error == EOF <==>
        PayloadRunsOut(l, Collected(l, [], p), Left(l, [], p))
    ensures var l := KindLayout(k, memory);
      DecodeKind(k, memory, p).Err? && DecodeKind(k, memory, p).error == UnexpectedEOF <==>
        PayloadEndsInside(l, Collected(l, [], p), Left(l, [], p))
  {
    DecodeFailsExactly(k, memory, p, EOF);
    DecodeFailsExactly(k, memory, p, UnexpectedEOF);
  }
}
