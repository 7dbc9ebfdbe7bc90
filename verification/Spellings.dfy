/** The payloads that are accepted, stated without a decoder: the encoding of a message with any
  * spelling of its varints, followed by anything. */
module Spellings {
  import opened Octets
  import opened Wire
  import opened Grammar
  import opened Stream
  import opened NetAddresses
  import opened Objects
  import opened GetPubKeys
  import opened PubKeys
  import opened Lists
  import opened Inventories
  import opened Addresses
  import opened Versions
  import opened Messages
  import opened Framing
  import opened FrameLaws
  import opened Sessions

  // ---------- spellings of items ----------

  /** b is a varint of any width whose value is v. */
  predicate SpellsNumber(v: nat, b: seq<byte>) {
    b != [] && |b| == 1 + VarIntExtra(b[0]) && v == if |b| == 1 then b[0] else BigEndian(b[1..])
  }

  predicate Spells(item: Item, b: seq<byte>) {
    match item
    case Fields(fields) => b == Concat(fields)
    case Number(v) => SpellsNumber(v, b)
    case Text(t) => |t| <= |b| && b[|b| - |t|..] == t && SpellsNumber(|t|, b[..|b| - |t|])
    case Tail(t) => b == t
  }

  predicate Spelled(items: seq<Item>, pieces: seq<seq<byte>>) {
    |items| == |pieces| && forall i | 0 <= i < |items| :: Spells(items[i], pieces[i])
  }

  /** s is a spelling of the items, followed by rest. */
  ghost predicate SpelledBy(items: seq<Item>, s: seq<byte>, rest: seq<byte>) {
    exists pieces :: Spelled(items, pieces) && s == Concat(pieces) + rest
  }

  // ---------- one item ----------

  lemma ReadNumberOfSpelling(v: u64, b: seq<byte>, t: seq<byte>)
    requires SpellsNumber(v, b)
    ensures ReadVarInt(b + t) == Ok(v, t)
  {
    hide BigEndian;
    var extra := VarIntExtra(b[0]);
    assert (b + t)[..1] == [b[0]] && (b + t)[1..] == b[1..] + t;
    if extra == 0 {
      assert b[1..] + t == t;
    } else {
      assert (b[1..] + t)[..extra] == b[1..] && (b[1..] + t)[extra..] == t;
    }
  }

  lemma NumberIsSpelled(s: seq<byte>)
    requires ReadVarInt(s).Ok?
    ensures var r := ReadVarInt(s);
      var n := |s| - |r.rest|;
      SpellsNumber(r.value, s[..n]) && s == s[..n] + r.rest
  {
    VarIntParts(s);
    hide ReadVarInt, BigEndian;
    var n := |s| - |ReadVarInt(s).rest|;
    assert s[..n][1..] == s[1..n];
  }

  lemma ReadOpOfSpelling(op: Op, item: Item, b: seq<byte>, t: seq<byte>)
    requires Matches(op, item) && Spells(item, b)
    ensures ReadOp(op, b + t) == Ok(item, t)
  {
    hide ReadVarInt, SpellsNumber;
    match op
    case Fixed(widths) => ReadFieldsOfConcat(item.fields, t);
    case VarInt => ReadNumberOfSpelling(item.number, b, t);
    case Counted(limit, refusal) =>
      var text, count := item.text, b[..|b| - |item.text|];
      assert b + t == count + (text + t);
      ReadNumberOfSpelling(|text|, count, text + t);
      assert (text + t)[..|text|] == text && (text + t)[|text|..] == t;
  }

  lemma OpIsSpelled(op: Op, s: seq<byte>)
    requires ReadOp(op, s).Ok?
    ensures var r := ReadOp(op, s);
      var n := |s| - |r.rest|;
      Spells(r.value, s[..n]) && s == s[..n] + r.rest
  {
    hide ReadVarInt, SpellsNumber, ReadFields;
    var r := ReadOp(op, s);
    var n := |s| - |r.rest|;
    match op
    case Fixed(widths) =>
      FieldsAreConsumed(widths, s);
      assert s[..n] == Concat(r.value.fields);
    case VarInt => NumberIsSpelled(s);
    case Counted(limit, refusal) =>
      NumberIsSpelled(s);
      var c := ReadVarInt(s);
      var size := |s| - |c.rest|;
      assert s[..n] == s[..size] + c.rest[..c.value];
      assert s[..n][n - c.value..] == r.value.text && s[..n][..n - c.value] == s[..size];
      assert s == s[..n] + r.rest;
  }

  // ---------- whole payloads ----------

  lemma {:induction false} ParseOfSpellingFrom(l: Layout, items: seq<Item>, pieces: seq<seq<byte>>,
                                               i: nat, t: seq<byte>)
    requires Started(l, items, |items|) && Spelled(items, pieces) && i <= |items|
    ensures Parse(l, items[..i], Concat(pieces[i..]) + t) == Parse(l, items, t)
    decreases |items| - i
  {
    hide NextOp, ReadOp, Parse, Collected, Spells;
    var done := items[..i];
    if i == |items| {
      assert done == items && Concat(pieces[i..]) + t == t;
    } else {
      var next, more, rest := NextOp(l, items, i), items[..i + 1], Concat(pieces[i + 1..]) + t;
      assert NextOp(l, done, |done|) == next by { OnlyThePrefixMatters(l, done, items, i); }
      assert done + [items[i]] == more;
      assert pieces[i..][1..] == pieces[i + 1..];
      assert Concat(pieces[i..]) + t == pieces[i] + rest;
      ReadOpOfSpelling(next.op, items[i], pieces[i], rest);
      ParseStep(l, done, Concat(pieces[i..]) + t, next.op);
      ParseOfSpellingFrom(l, items, pieces, i + 1, t);
    }
  }

  lemma ParseOfSpelling(l: Layout, items: seq<Item>, pieces: seq<seq<byte>>, t: seq<byte>)
    requires Conforms(l, items) && Spelled(items, pieces)
    requires EndsWithTail(l, items) ==> t == []
    ensures Parse(l, [], Concat(pieces) + t) == Ok(items, t)
  {
    hide NextOp, Parse, Collected, Spells, Concat;
    assert items[..0] == [] && pieces[0..] == pieces;
    if EndsWithTail(l, items) {
      var n := |items| - 1;
      var head, tail := items[..n], items[n].tail;
      assert items == head + [Tail(tail)];
      forall i | 0 <= i <= n ensures NextOp(l, head, i) == NextOp(l, items, i) {
        OnlyThePrefixMatters(l, head, items, i);
      }
      ConcatOfLast(pieces);
      TailSpelling(tail, pieces[n]);
      assert head[..0] == [] && pieces[..n][0..] == pieces[..n];
      ParseOfSpellingFrom(l, head, pieces[..n], 0, tail);
      ParseStops(l, head, tail);
      assert Concat(pieces) + t == Concat(pieces[..n]) + tail;
    } else {
      ParseOfSpellingFrom(l, items, pieces, 0, t);
      ParseStops(l, items, t);
    }
  }

  lemma TailSpelling(tail: seq<byte>, b: seq<byte>)
    requires Spells(Tail(tail), b)
    ensures b == tail
  {
  }

  lemma {:induction false} ConcatOfLast(pieces: seq<seq<byte>>)
    requires pieces != []
    ensures Concat(pieces) == Concat(pieces[..|pieces| - 1]) + pieces[|pieces| - 1]
  {
    var n := |pieces| - 1;
    if n == 0 {
      ConcatOf1(pieces[0]);
      assert pieces == [pieces[0]];
    } else {
      ConcatOfLast(pieces[1..]);
      assert pieces[..n][1..] == pieces[1..][..n - 1];
    }
  }

  lemma {:induction false} ParsedIsSpelledFrom(l: Layout, done: seq<Item>, s: seq<byte>)
    returns (pieces: seq<seq<byte>>)
    requires Parse(l, done, s).Ok?
    ensures var r := Parse(l, done, s);
      done <= r.value && Spelled(r.value[|done|..], pieces) && s == Concat(pieces) + r.rest
    decreases |s|
  {
    hide NextOp, ReadOp, Parse, Collected, Spells;
    var next := NextOp(l, done, |done|);
    ParseStops(l, done, s);
    if next.Expect? {
      var one := ReadOp(next.op, s);
      ParseStep(l, done, s, next.op);
      OpIsSpelled(next.op, s);
      var more := ParsedIsSpelledFrom(l, done + [one.value], one.rest);
      var items := Parse(l, done, s).value;
      pieces := [s[..|s| - |one.rest|]] + more;
      assert items[|done|..] == [one.value] + items[|done| + 1..];
      assert pieces[1..] == more;
      assert Concat(pieces) + Parse(l, done, s).rest == s[..|s| - |one.rest|] + one.rest;
    } else if next.TakeRest? {
      pieces := [s];
      ConcatOf1(s);
      assert Parse(l, done, s).value[|done|..] == [Tail(s)];
      assert Spells(Tail(s), s) by { TailIsSpelled(s); }
    } else {
      pieces := [];
      assert Parse(l, done, s).value[|done|..] == [];
    }
  }

  lemma TailIsSpelled(s: seq<byte>)
    ensures Spells(Tail(s), s)
  {
  }

  /** A layout's parser accepts exactly the spellings of complete item lists, followed by anything;
    * only a message that takes the rest of its payload is followed by nothing. */
  lemma ParseAcceptsSpellings(l: Layout, s: seq<byte>, items: seq<Item>, rest: seq<byte>)
    ensures Parse(l, [], s) == Ok(items, rest) <==>
      Conforms(l, items) && (EndsWithTail(l, items) ==> rest == []) && SpelledBy(items, s, rest)
  {
    hide Parse, Conforms, EndsWithTail, Spelled, Concat;
    if Parse(l, [], s) == Ok(items, rest) {
      ParseConforms(l, s);
      var pieces := ParsedIsSpelledFrom(l, [], s);
      assert items[0..] == items;
    }
    if Conforms(l, items) && (EndsWithTail(l, items) ==> rest == []) && SpelledBy(items, s, rest) {
      var pieces :| Spelled(items, pieces) && s == Concat(pieces) + rest;
      ParseOfSpelling(l, items, pieces, rest);
    }
  }

  // ---------- messages ----------

  /** The two lists allocated from their length before they are read can be. */
  predicate Allocates(m: Message, memory: nat) {
    && (m.VersionMessage? ==> Allocatable(memory, |m.version.streams|, 8))
    && (m.PubKeyMessage? && m.pubKey.version == EXTENDED_PUBKEY_VERSION ==> |m.pubKey.signature| <= memory)
  }

  predicate TakesRest(m: Message) { m.PubKeyMessage? && m.pubKey.version >= ENCRYPTED_PUBKEY_VERSION }

  /** A message that is what its receiver would see, and says its own type. */
  predicate AsReceived(m: Message) { !m.OtherMessage? && WellTyped(m) && Carried(m) == m && EncodingOf(m).fault.None? }

  /** A decoded payload's items are the encoding of what it decoded to. */
  lemma KindReencodes(k: Kind, memory: nat, s: seq<byte>)
    requires DecodeKind(k, memory, s).Ok?
    ensures var m, run := DecodeKind(k, memory, s).value, Parse(KindLayout(k, memory), [], s);
      && KindOf(m) == Some(k) && run.Ok? && run.rest == DecodeKind(k, memory, s).rest
      && EncodingOf(m) == Encoding(run.value, None)
  {
    hide Parse, Conforms, EndsWithTail, VersionEncoding, AddrEncoding, InvEncoding, GetPubKeyEncoding, PubKeyEncoding;
    hide VersionFrom, AddrFrom, InvFrom, GetPubKeyFrom, PubKeyFrom;
    var l := KindLayout(k, memory);
    if k.VerAckKind? || k.GetAddrKind? {
      NothingToParse(l, s);
    } else {
      var items := Parse(l, [], s).value;
      ParseConforms(l, s);
      match k
      case VersionKind => VersionReencodes(memory, items);
      case AddrKind => AddrReencodes(items);
      case InvKind => InvReencodes(k, items);
      case GetDataKind => InvReencodes(k, items);
      case GetPubKeyKind => GetPubKeyReencodes(NO_GETPUBKEY, items);
      case PubKeyKind => PubKeyReencodes(memory, NO_PUBKEY, items);
      case _ =>
    }
  }

  lemma NothingToParse(l: Layout, s: seq<byte>)
    requires l.kind.VerAckKind? || l.kind.GetAddrKind?
    ensures Parse(l, [], s) == Ok([], s)
  {
  }

  /** Payloads of the same items decode to the same message. */
  lemma SameItemsSameMessage(k: Kind, memory: nat, s: seq<byte>, t: seq<byte>)
    requires var l := KindLayout(k, memory);
      Parse(l, [], s).Ok? && Parse(l, [], t).Ok? && Parse(l, [], s).value == Parse(l, [], t).value
    ensures DecodeKind(k, memory, s).Ok? && DecodeKind(k, memory, t).Ok?
    ensures DecodeKind(k, memory, s).value == DecodeKind(k, memory, t).value
    ensures DecodeKind(k, memory, s).rest == Parse(KindLayout(k, memory), [], s).rest
  {
    hide Parse, VersionFrom, AddrFrom, InvFrom, GetPubKeyFrom, PubKeyFrom;
    if k.VerAckKind? || k.GetAddrKind? {
      NothingToParse(KindLayout(k, memory), s);
      NothingToParse(KindLayout(k, memory), t);
    }
  }

  lemma CompleteMessage(k: Kind, memory: nat, m: Message)
    requires KindOf(m) == Some(k) && EncodingOf(m).fault.None? && Conforms(KindLayout(k, memory), EncodingOf(m).items)
    ensures Allocates(m, memory)
    ensures EndsWithTail(KindLayout(k, memory), EncodingOf(m).items) <==> TakesRest(m)
  {
    var l, items := KindLayout(k, memory), EncodingOf(m).items;
    match m
    case VersionMessage(v) => VersionShape(memory, items);
    case AddrMessage(_) => ListConforms(l, items);
    case InvMessage(_) => ListConforms(l, items);
    case GetDataMessage(_) => ListConforms(l, items);
    case GetPubKeyMessage(_) => GetPubKeyReencodes(NO_GETPUBKEY, items);
    case PubKeyMessage(_) => PubKeyShape(memory, items);
    case _ =>
    hide Conforms, EndsWithTail, StartItems, VersionHead, Numbers;
  }

  /** A payload decodes to m exactly when it is a spelling of m's encoding, followed by what is left
    * unread - which is nothing if m takes the rest of its payload. */
  lemma DecodesExactly(k: Kind, memory: nat, s: seq<byte>, m: Message, rest: seq<byte>)
    ensures DecodeKind(k, memory, s) == Ok(m, rest) <==>
      && KindOf(m) == Some(k) && AsReceived(m) && Allocates(m, memory)
      && (TakesRest(m) ==> rest == []) && SpelledBy(EncodingOf(m).items, s, rest)
  {
    hide DecodeKind, EncodingOf, Parse, Print, Conforms, EndsWithTail, SpelledBy, Carried, WellTyped, KindLayout;
    var l, items := KindLayout(k, memory), EncodingOf(m).items;
    ParseAcceptsSpellings(l, s, items, rest);
    if DecodeKind(k, memory, s) == Ok(m, rest) {
      KindReencodes(k, memory, s);
      KindNormalises(k, memory, s);
      CompleteMessage(k, memory, m);
      KindRoundTrip(m, memory);
    }
    if KindOf(m) == Some(k) && AsReceived(m) && Allocates(m, memory)
      && (TakesRest(m) ==> rest == []) && SpelledBy(items, s, rest)
    {
      KindConforms(m, memory);
      CompleteMessage(k, memory, m);
      KindRoundTrip(m, memory);
      assert Print(items) + [] == Print(items);
      ParseOfPrint(l, items, []);
      SameItemsSameMessage(k, memory, s, Print(items));
    }
  }

  // ---------- frames ----------

  /** s is a frame on the network - magic, command, length and checksum those of p - for a message of
    * the kind that the command and, for objects, payload bytes 16 to 19 name, with a payload within
    * that kind's limit that spells m's encoding, then anything. No decoder is mentioned. */
  ghost predicate SpelledFrame(env: Env, net: u32, s: seq<byte>, command: Command, p: seq<byte>,
                               rest: seq<byte>, m: Message) {
    && |p| <= MAX_MESSAGE_PAYLOAD
    && s == HeaderBytes(net, command, |p|, ChecksumOf(env, p)) + p + rest
    && AsReceived(m) && |p| <= MaxPayloadOf(m)
    && TargetOf(command, p) == Some(Modelled(KindOf(m).value))
    && exists unread :: (TakesRest(m) ==> unread == []) && SpelledBy(EncodingOf(m).items, p, unread)
  }

  /** No spelling is shorter than the encoding that is written. */
  lemma {:induction false} PrintIsShortest(items: seq<Item>, pieces: seq<seq<byte>>)
    requires Spelled(items, pieces) && forall i | 0 <= i < |items| :: Writes64(items[i])
    ensures |Print(items)| <= |Concat(pieces)|
  {
    if items != [] {
      PieceIsNoShorter(items[0], pieces[0]);
      hide Spells, ItemBytes;
      PrintIsShortest(items[1..], pieces[1..]);
    }
  }

  /** Every count is a uint64. */
  predicate Writes64(item: Item) { item.Text? ==> |item.text| <= MAX_INT }

  lemma PieceIsNoShorter(item: Item, b: seq<byte>)
    requires Spells(item, b) && Writes64(item)
    ensures |ItemBytes(item)| <= |b|
  {
    match item
    case Fields(_) =>
    case Number(v) => NumberIsNoShorter(v, b);
    case Text(t) => NumberIsNoShorter(|t|, b[..|b| - |t|]);
    case Tail(_) =>
  }

  lemma NumberIsNoShorter(v: u64, b: seq<byte>)
    requires SpellsNumber(v, b)
    ensures VarIntSize(v) <= |b|
  {
    ReadNumberOfSpelling(v, b, []);
    assert b + [] == b;
    VarIntIsShortest(b);
  }

  lemma EncodingWrites64(m: Message)
    requires !m.OtherMessage? && EncodingOf(m).fault.None?
    ensures var items := EncodingOf(m).items; forall i | 0 <= i < |items| :: Writes64(items[i])
  {
    hide AddressFields, ObjectHeader, HeadFields;
  }

  lemma FrameIsSpelled(env: Env, net: u32, s: seq<byte>, command: Command, p: seq<byte>, rest: seq<byte>, m: Message)
    requires !m.OtherMessage?
    ensures MessageFrame(env, net, s, command, p, rest, m) <==> SpelledFrame(env, net, s, command, p, rest, m)
  {
    hide DecodeKind, EncodingOf, Print, SpelledBy, AsReceived, Allocates, TakesRest, HeaderBytes, ChecksumOf, TargetOf;
    if MessageFrame(env, net, s, command, p, rest, m) {
      var k := TargetOf(command, p).value.kind;
      DecodesExactly(k, env.memory, p, m, DecodeKind(k, env.memory, p).rest);
      TypesAgree(m);
    }
    if SpelledFrame(env, net, s, command, p, rest, m) {
      var unread :| (TakesRest(m) ==> unread == []) && SpelledBy(EncodingOf(m).items, p, unread);
      SpelledIsAllocated(env, m, p, unread);
      DecodesExactly(KindOf(m).value, env.memory, p, m, unread);
    }
  }

  lemma TypesAgree(m: Message)
    requires AsReceived(m)
    ensures KindOf(m).Some? && MaxPayloadOf(m) == MaxOfKind(KindOf(m).value)
  {
  }

  lemma SpelledIsAllocated(env: Env, m: Message, p: seq<byte>, unread: seq<byte>)
    requires AsReceived(m) && SpelledBy(EncodingOf(m).items, p, unread) && |p| <= MaxPayloadOf(m)
    ensures Allocates(m, env.memory)
  {
    hide EncodingOf, Print, Spelled, WellTyped, Carried;
    var pieces :| Spelled(EncodingOf(m).items, pieces) && p == Concat(pieces) + unread;
    EncodingWrites64(m);
    PrintIsShortest(EncodingOf(m).items, pieces);
    FramedIsAllocatable(m, env.memory);
  }

  /** ReadMessageN accepts m, with payload p, exactly when the stream starts with a frame whose payload
    * spells m's encoding. */
  lemma ReadAcceptsSpellings(env: Env, net: u32, s: seq<byte>, m: Message, p: seq<byte>)
    requires !m.OtherMessage?
    ensures ReadFrame(env, net, s).outcome == Accepted(m, p) <==>
      exists command: Command, rest: seq<byte> :: SpelledFrame(env, net, s, command, p, rest, m)
  {
    hide ReadFrame, MessageFrame, SpelledFrame;
    ReadDecidesTheGrammar(env, net, s, m, p);
    forall command: Command, rest: seq<byte>
      ensures MessageFrame(env, net, s, command, p, rest, m) <==> SpelledFrame(env, net, s, command, p, rest, m)
    {
      FrameIsSpelled(env, net, s, command, p, rest, m);
    }
  }
}
