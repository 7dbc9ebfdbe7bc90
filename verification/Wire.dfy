/** What one call on a stream does: full reads, variable length integers, fixed fields and
  * counted byte strings, as functions of the bytes still unread. */
module Wire {
  import opened Octets

  datatype Reason =
    | CommandTooLong
    | PayloadTooLarge
    | PayloadOverTypeLimit
    | WrongNetwork
    | InvalidCommand
    | UnhandledCommand
    | ObjectTooShort
    | UnknownObjectType
    | ChecksumFailed
    | WrongObjectType
    | StringTooLong
    | BytesTooLong
    | UserAgentTooLong
    | TooManyItems

  /** Panic stands for a run that does not return: a failed allocation or a nil dereference. */
  datatype Error =
    | EOF
    | UnexpectedEOF
    | ShortWrite
    | MessageError(reason: Reason)
    | Panic
    | OtherError(code: int)

  /** The outcome of reading a value from a stream, with the bytes left unread. */
  datatype Run<+T> =
    | Ok(value: T, rest: seq<byte>)
    | Err(error: Error, rest: seq<byte>)

  const MAX_MESSAGE_PAYLOAD: nat := 0x200_0000

  // ---------- full reads ----------

  /** io.ReadFull into a buffer of n bytes. */
  function ReadFull(n: nat, s: seq<byte>): Run<seq<byte>> {
    if n == 0 then Ok([], s)
    else if |s| == 0 then Err(EOF, [])
    else if |s| < n then Err(UnexpectedEOF, [])
    else Ok(s[..n], s[n..])
  }

  /** Consecutive full reads of the given sizes. */
  function ReadFields(widths: seq<nat>, s: seq<byte>): (r: Run<seq<seq<byte>>>)
    ensures |r.rest| <= |s|
    ensures r.Ok? ==> |r.value| == |widths|
  {
    if widths == [] then Ok([], s)
    else match ReadFull(widths[0], s)
      case Err(e, t) => Err(e, t)
      case Ok(b, t) =>
        match ReadFields(widths[1..], t)
        case Err(e, u) => Err(e, u)
        case Ok(bs, u) => Ok([b] + bs, u)
  }

  /** A run of reads after others that gave these fields. */
  function Prefixed(fields: seq<seq<byte>>, run: Run<seq<seq<byte>>>): Run<seq<seq<byte>>> {
    match run
    case Err(e, t) => Err(e, t)
    case Ok(bs, t) => Ok(fields + bs, t)
  }

  /** The fields that consecutive full reads complete, up to the first that fails. */
  function FieldsRead(widths: seq<nat>, s: seq<byte>): (fields: seq<seq<byte>>)
    ensures |fields| <= |widths|
    ensures ReadFields(widths, s).Ok? ==> fields == ReadFields(widths, s).value
    ensures ReadFields(widths, s).Err? ==> |fields| < |widths|
  {
    if widths == [] then []
    else match ReadFull(widths[0], s)
      case Err(_, _) => []
      case Ok(b, t) => [b] + FieldsRead(widths[1..], t)
  }

  /** A zeroed array of n bytes after a full read into it, complete or not. */
  function Filled(n: nat, s: seq<byte>): (b: seq<byte>)
    ensures |b| == n
  {
    s[..Min(n, |s|)] + Zeros(n - Min(n, |s|))
  }

  function Sum(ns: seq<nat>): nat {
    if ns == [] then 0 else ns[0] + Sum(ns[1..])
  }

  function Widths(fields: seq<seq<byte>>): (w: seq<nat>)
    ensures |w| == |fields|
  {
    seq(|fields|, i requires 0 <= i < |fields| => |fields[i]|)
  }

  function Concat(chunks: seq<seq<byte>>): seq<byte> {
    if chunks == [] then [] else chunks[0] + Concat(chunks[1..])
  }

  // ---------- variable length integers ----------

  /** The number of bytes that follow a discriminant byte. */
  function VarIntExtra(d: byte): nat {
    if d == 0xff then 8 else if d == 0xfe then 4 else if d == 0xfd then 2 else 0
  }

  function VarIntBytes(v: nat): (s: seq<byte>)
    ensures |s| == VarIntSize(v)
  {
    if v < 0xfd then [v]
    else if v <= 0xffff then [0xfd] + PutBig(v, 2)
    else if v <= 0xffff_ffff then [0xfe] + PutBig(v, 4)
    else [0xff] + PutBig(v, 8)
  }

  function VarIntSize(v: nat): nat {
    if v < 0xfd then 1 else if v <= 0xffff then 3 else if v <= 0xffff_ffff then 5 else 9
  }

  function ReadVarInt(s: seq<byte>): (r: Run<u64>)
    ensures |r.rest| <= |s|
    ensures r.Ok? ==> |r.rest| < |s|
  {
    match ReadFull(1, s)
    case Err(e, t) => Err(e, t)
    case Ok(d, t) =>
      var extra := VarIntExtra(d[0]);
      if extra == 0 then Ok(d[0], t)
      else match ReadFull(extra, t)
        case Err(e, u) => Err(e, u)
        case Ok(b, u) =>
          BigEndianBound(b);
          PowValues();
          Ok(BigEndian(b), u)
  }

  /** A length, refused above the limit, and that many bytes. */
  function ReadCounted(limit: nat, refusal: Error, s: seq<byte>): (r: Run<seq<byte>>)
    ensures |r.rest| <= |s|
    ensures r.Ok? ==> |r.rest| < |s|
  {
    match ReadVarInt(s)
    case Err(e, t) => Err(e, t)
    case Ok(n, t) => if n > limit then Err(refusal, t) else ReadFull(n, t)
  }

  // ---------- laws ----------

  lemma {:induction false} ReadFieldsConcat(v: seq<nat>, w: seq<nat>, s: seq<byte>)
    ensures ReadFields(v + w, s) ==
      match ReadFields(v, s)
      case Err(e, t) => Err(e, t)
      case Ok(bs, t) =>
        match ReadFields(w, t)
        case Err(e, u) => Err(e, u)
        case Ok(cs, u) => Ok(bs + cs, u)
  {
    if v == [] {
      assert v + w == w;
      if ReadFields(w, s).Ok? { assert [] + ReadFields(w, s).value == ReadFields(w, s).value; }
    } else {
      assert (v + w)[0] == v[0] && (v + w)[1..] == v[1..] + w;
      var head := ReadFull(v[0], s);
      if head.Ok? {
        ReadFieldsConcat(v[1..], w, head.rest);
        var mid := ReadFields(v[1..], head.rest);
        if mid.Ok? && ReadFields(w, mid.rest).Ok? {
          var cs := ReadFields(w, mid.rest).value;
          assert [head.value] + (mid.value + cs) == [head.value] + mid.value + cs;
        }
      }
    }
  }

  lemma WidthsOfCons(b: seq<byte>, bs: seq<seq<byte>>)
    ensures Widths([b] + bs) == [|b|] + Widths(bs)
    ensures Concat([b] + bs) == b + Concat(bs)
  {
    assert ([b] + bs)[1..] == bs;
  }

  lemma FullIsConsumed(n: nat, s: seq<byte>)
    requires ReadFull(n, s).Ok?
    ensures var r := ReadFull(n, s); |r.value| == n && s == r.value + r.rest
  {
  }

  lemma ConcatIsAssociative(a: seq<byte>, b: seq<byte>, c: seq<byte>)
    ensures a + (b + c) == a + b + c
  {
  }

  lemma ConcatOfThree(a: seq<byte>, b: seq<byte>, c: seq<byte>)
    ensures Concat([a, b, c]) == a + (b + c)
  {
    assert [a, b, c][1..] == [b, c] && [b, c][1..] == [c];
    ConcatOf1(c);
  }

  /** Fields that were read are the bytes consumed, cut at the widths asked for. */
  lemma {:induction false} FieldsAreConsumed(widths: seq<nat>, s: seq<byte>)
    requires ReadFields(widths, s).Ok?
    ensures var r := ReadFields(widths, s);
      Widths(r.value) == widths && s == Concat(r.value) + r.rest && |s| == Sum(widths) + |r.rest|
  {
    if widths == [] {
      assert Concat([]) + s == s;
    } else {
      var head := ReadFull(widths[0], s);
      FullIsConsumed(widths[0], s);
      FieldsAreConsumed(widths[1..], head.rest);
      var tail := ReadFields(widths[1..], head.rest);
      WidthsOfCons(head.value, tail.value);
      ConcatIsAssociative(head.value, Concat(tail.value), tail.rest);
      assert [widths[0]] + widths[1..] == widths;
    }
  }

  lemma {:induction false} ConcatLength(chunks: seq<seq<byte>>)
    ensures |Concat(chunks)| == Sum(Widths(chunks))
  {
    if chunks != [] {
      ConcatLength(chunks[1..]);
      assert Widths(chunks)[1..] == Widths(chunks[1..]);
    }
  }

  lemma ConcatOf1(a: seq<byte>)
    ensures Concat([a]) == a
  {
    assert [a][1..] == [];
  }

  lemma OneSlice(w: nat, more: seq<nat>, s: seq<byte>)
    requires w > 0
    ensures |s| < w ==> FieldsRead([w] + more, s) == []
    ensures |s| < w ==> ReadFields([w] + more, s) == Err(if s == [] then EOF else UnexpectedEOF, [])
    ensures |s| >= w ==> FieldsRead([w] + more, s) == [s[..w]] + FieldsRead(more, s[w..])
    ensures |s| >= w ==> ReadFields([w] + more, s) == Prefixed([s[..w]], ReadFields(more, s[w..]))
  {
    assert ([w] + more)[1..] == more;
  }

  lemma NoSlice(s: seq<byte>)
    ensures FieldsRead([], s) == [] && ReadFields([], s) == Ok([], s)
  {
  }

  /** One field is one full read. */
  lemma OneField(w: nat, s: seq<byte>)
    requires w > 0
    ensures var one := ReadFull(w, s);
      ReadFields([w], s) == if one.Err? then Err(one.error, one.rest) else Ok([one.value], one.rest)
    ensures |s| >= w ==> Filled(w, s) == s[..w] && ReadFull(w, s) == Ok(s[..w], s[w..])
  {
    assert [w] + [] == [w];
    OneSlice(w, [], s);
    if |s| >= w {
      NoSlice(s[w..]);
      assert [s[..w]] + [] == [s[..w]];
    }
  }

  lemma NoFields(fields: seq<seq<byte>>, run: Run<seq<seq<byte>>>)
    ensures Prefixed([], run) == run
    ensures fields + [] == fields
  {
    if run.Ok? { assert [] + run.value == run.value; }
  }

  lemma TwoSlices(a: nat, b: nat, s: seq<byte>)
    requires a > 0 && b > 0
    ensures FieldsRead([a, b], s) ==
      if |s| < a then [] else if |s| < a + b then [s[..a]] else [s[..a], s[a..a + b]]
    ensures ReadFields([a, b], s).Ok? <==> |s| >= a + b
    ensures |s| >= a + b ==> ReadFields([a, b], s) == Ok([s[..a], s[a..a + b]], s[a + b..])
  {
    hide ReadFields, FieldsRead;
    assert [a, b] == [a] + ([b] + []);
    OneSlice(a, [b] + [], s);
    if |s| >= a {
      var t := s[a..];
      OneSlice(b, [], t);
      if |t| >= b {
        NoSlice(t[b..]);
        assert t[..b] == s[a..a + b] && t[b..] == s[a + b..];
      }
    }
  }

  /** Three fields: which of them are read, by the bytes there are, and from where. */
  lemma ThreeSlices(a: nat, b: nat, c: nat, s: seq<byte>)
    requires a > 0 && b > 0 && c > 0
    ensures FieldsRead([a, b, c], s) ==
      if |s| < a then []
      else if |s| < a + b then [s[..a]]
      else if |s| < a + b + c then [s[..a], s[a..a + b]]
      else [s[..a], s[a..a + b], s[a + b..a + b + c]]
    ensures ReadFields([a, b, c], s).Ok? <==> |s| >= a + b + c
    ensures |s| >= a + b + c ==>
      ReadFields([a, b, c], s) == Ok([s[..a], s[a..a + b], s[a + b..a + b + c]], s[a + b + c..])
  {
    hide ReadFields, FieldsRead;
    assert [a, b, c] == [a] + [b, c];
    OneSlice(a, [b, c], s);
    if |s| >= a {
      TwoSlices(b, c, s[a..]);
      SliceOfDrop(s, a, b, c);
    }
  }

  lemma SliceOfDrop(s: seq<byte>, a: nat, b: nat, c: nat)
    requires a <= |s|
    ensures |s| >= a + b ==> s[a..][..b] == s[a..a + b]
    ensures |s| >= a + b + c ==> s[a..][b..b + c] == s[a + b..a + b + c] && s[a..][b + c..] == s[a + b + c..]
  {
  }

  /** Consecutive full reads, one at a time. */
  lemma ReadFieldsStep(widths: seq<nat>, i: nat, fields: seq<seq<byte>>, t: seq<byte>)
    requires i < |widths|
    ensures var one := ReadFull(widths[i], t);
      && (one.Err? ==> ReadFields(widths[i..], t) == Err(one.error, one.rest) && FieldsRead(widths[i..], t) == [])
      && (one.Ok? ==>
            && Prefixed(fields, ReadFields(widths[i..], t)) ==
               Prefixed(fields + [one.value], ReadFields(widths[i + 1..], one.rest))
            && fields + FieldsRead(widths[i..], t) == fields + [one.value] + FieldsRead(widths[i + 1..], one.rest))
  {
    hide ReadFull;
    assert widths[i..][1..] == widths[i + 1..];
    var one := ReadFull(widths[i], t);
    if one.Ok? && ReadFields(widths[i + 1..], one.rest).Ok? {
      var bs := ReadFields(widths[i + 1..], one.rest).value;
      assert fields + ([one.value] + bs) == fields + [one.value] + bs;
    }
  }

  lemma {:induction false} ReadFieldsOfConcat(fields: seq<seq<byte>>, t: seq<byte>)
    ensures ReadFields(Widths(fields), Concat(fields) + t) == Ok(fields, t)
  {
    if fields != [] {
      var s, u := Concat(fields) + t, Concat(fields[1..]) + t;
      assert s == fields[0] + u;
      ReadFieldsOfConcat(fields[1..], t);
      assert Widths(fields)[1..] == Widths(fields[1..]);
      assert ReadFull(|fields[0]|, s) == Ok(fields[0], u) by {
        assert s[..|fields[0]|] == fields[0] && s[|fields[0]|..] == u;
      }
      assert [fields[0]] + fields[1..] == fields;
    }
  }

  /** The bytes of a varint: below 253 one byte; then 253, 254 or 255 and two, four or eight bytes, as
    * few as hold the number, big end first. */
  lemma VarIntLayout(v: u64)
    ensures VarIntBytes(v) ==
      if v < 253 then [v]
      else if v < 65536 then [253] + PutBig(v, 2)
      else if v < 4294967296 then [254] + PutBig(v, 4)
      else [255] + PutBig(v, 8)
    ensures v == BigEndian(if v < 253 then VarIntBytes(v) else VarIntBytes(v)[1..])
  {
    PowValues();
    PutThenRead(v, if v < 253 then 1 else if v < 65536 then 2 else if v < 4294967296 then 4 else 8);
    if v < 253 { assert [v][..0] == []; }
  }

  /** A written varint is read back, whatever follows it. */
  lemma ReadVarIntOfBytes(v: u64, t: seq<byte>)
    ensures ReadVarInt(VarIntBytes(v) + t) == Ok(v, t)
  {
    var w := VarIntBytes(v);
    var s := w + t;
    assert s[..1] == [w[0]] && s[1..] == w[1..] + t;
    var extra := VarIntExtra(w[0]);
    if extra > 0 {
      assert (w[1..] + t)[..extra] == w[1..] && (w[1..] + t)[extra..] == t;
      PowValues();
      PutThenRead(v, extra);
      assert w[1..] == PutBig(v, extra);
    }
  }

  /** Where the bytes of an accepted varint are. */
  lemma VarIntParts(s: seq<byte>)
    requires ReadVarInt(s).Ok?
    ensures s != []
    ensures var r, extra := ReadVarInt(s), VarIntExtra(s[0]);
      && |s| == 1 + extra + |r.rest| && s == s[..1 + extra] + r.rest
      && r.value == if extra == 0 then s[0] else BigEndian(s[1..1 + extra])
  {
    hide BigEndian;
    var extra := VarIntExtra(s[0]);
    assert s[1..][..extra] == s[1..1 + extra] && s[1..][extra..] == s[1 + extra..];
  }

  /** The first bytes of a varint whose encoding is not longer than need be. */
  lemma MinimalVarInt(d: byte, b: seq<byte>)
    requires |b| == VarIntExtra(d)
    ensures var v := if b == [] then d else BigEndian(b);
      VarIntSize(v) <= 1 + |b| && (VarIntSize(v) == 1 + |b| ==> VarIntBytes(v) == [d] + b)
  {
    BigEndianBound(b);
    ReadThenPut(b);
    PowValues();
    hide BigEndian, PutBig, Pow256;
  }

  /** No accepted encoding is shorter than the one written, and one of the same length is the one written. */
  lemma VarIntIsShortest(s: seq<byte>)
    requires ReadVarInt(s).Ok?
    ensures var r := ReadVarInt(s);
      && VarIntSize(r.value) <= |s| - |r.rest|
      && (VarIntSize(r.value) == |s| - |r.rest| <==> s == VarIntBytes(r.value) + r.rest)
  {
    VarIntParts(s);
    hide ReadVarInt, VarIntBytes, VarIntSize, BigEndian;
    var r, extra := ReadVarInt(s), VarIntExtra(s[0]);
    MinimalVarInt(s[0], s[1..1 + extra]);
    assert [s[0]] + s[1..1 + extra] == s[..1 + extra];
    if s == VarIntBytes(r.value) + r.rest {
      assert |s| == |VarIntBytes(r.value)| + |r.rest|;
    }
  }

  /** No varint encoding is a proper prefix of another. */
  lemma VarIntPrefixFree(v: u64, w: u64, t: seq<byte>)
    requires VarIntBytes(v) + t == VarIntBytes(w)
    ensures v == w && t == []
  {
    ReadVarIntOfBytes(v, t);
    ReadVarIntOfBytes(w, []);
    assert VarIntBytes(w) + [] == VarIntBytes(w);
  }

  lemma ReadCountedOfBytes(limit: nat, refusal: Error, b: seq<byte>, t: seq<byte>)
    requires |b| <= limit && |b| < 0x1_0000_0000_0000_0000
    ensures ReadCounted(limit, refusal, VarIntBytes(|b|) + b + t) == Ok(b, t)
  {
    assert VarIntBytes(|b|) + b + t == VarIntBytes(|b|) + (b + t);
    ReadVarIntOfBytes(|b|, b + t);
    assert (b + t)[..|b|] == b && (b + t)[|b|..] == t;
  }
}
