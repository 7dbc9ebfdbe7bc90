/** The byte streams a message is read from and written to, and the element, varint, string and
  * byte-array readers and writers over them. */
module Stream {
  import opened Octets
  import opened Wire
  import opened Grammar

  /** A Go call returned value v and error err, and left rest unread: just what `run` says. */
  predicate Agrees<T(==)>(run: Run<T>, v: T, err: Option<Error>, rest: seq<byte>) {
    match run
    case Ok(x, t) => err == None && v == x && rest == t
    case Err(e, t) => err == Some(e) && rest == t
  }

  class Reader {
    const data: seq<byte>
    var pos: nat

    ghost predicate Valid()
      reads this
    {
      pos <= |data|
    }

    ghost function Rest(): seq<byte>
      requires Valid()
      reads this
    {
      data[pos..]
    }

    constructor (data: seq<byte>)
      ensures Valid() && Rest() == data
    {
      this.data := data;
      pos := 0;
    }

    /** io.ReadFull(r, buf[0:count]). */
    method ReadFull(buf: array<byte>, count: nat) returns (n: nat, err: Option<Error>)
      requires Valid() && count <= buf.Length
      modifies this`pos, buf
      ensures Valid()
      ensures n == Min(count, |old(Rest())|)
      ensures Rest() == old(Rest())[n..]
      ensures buf[..n] == old(Rest())[..n] && buf[n..] == old(buf[n..])
      ensures err == if n == count then None else if n == 0 then Some(EOF) else Some(UnexpectedEOF)
      ensures Agrees(Wire.ReadFull(count, old(Rest())), buf[..n], err, Rest())
    {
      n := 0;
      while n < count && pos < |data|
        invariant n <= count && pos <= |data| && pos == old(pos) + n
        invariant forall i | 0 <= i < n :: buf[i] == data[old(pos) + i]
        invariant forall i | n <= i < buf.Length :: buf[i] == old(buf[i])
      {
        buf[n] := data[pos];
        n, pos := n + 1, pos + 1;
      }
      err := if n == count then None else if n == 0 then Some(EOF) else Some(UnexpectedEOF);
      assert buf[..n] == old(Rest())[..n];
      assert buf[n..] == old(buf[n..]);
      assert Rest() == old(Rest())[n..];
    }

    /** ioutil.ReadAll. */
    method ReadAll() returns (all: seq<byte>)
      requires Valid()
      modifies this`pos
      ensures Valid() && all == old(Rest()) && Rest() == []
    {
      all := data[pos..];
      pos := |data|;
    }
  }

  // ---------- readers ----------

  /** readElements: one full read per element, up to the first that fails; those before it are read. */
  method ReadElements(r: Reader, widths: seq<nat>) returns (fields: seq<seq<byte>>, err: Option<Error>)
    requires r.Valid()
    modifies r`pos
    ensures r.Valid()
    ensures Agrees(ReadFields(widths, old(r.Rest())), fields, err, r.Rest())
    ensures fields == FieldsRead(widths, old(r.Rest()))
  {
    hide Wire.ReadFull, ReadFields, FieldsRead;
    ghost var s := r.Rest();
    fields := [];
    err := None;
    var i := 0;
    assert widths[0..] == widths;
    NoFields([], ReadFields(widths, s));
    while i < |widths|
      invariant i <= |widths| && r.Valid() && err.None?
      invariant ReadFields(widths, s) == Prefixed(fields, ReadFields(widths[i..], r.Rest()))
      invariant FieldsRead(widths, s) == fields + FieldsRead(widths[i..], r.Rest())
    {
      ReadFieldsStep(widths, i, fields, r.Rest());
      var scratch := new byte[widths[i]](_ => 0);
      var n;
      n, err := r.ReadFull(scratch, widths[i]);
      if err.Some? { return; }
      assert scratch[..n] == scratch[..];
      fields := fields + [scratch[..]];
      i := i + 1;
    }
    NoSlice(r.Rest());
    NoFields(fields, Ok([], r.Rest()));
  }

  /** readElement of a zeroed array: what there is of it is filled in, whether or not it is enough. */
  method ReadArray(r: Reader, size: nat) returns (a: seq<byte>, err: Option<Error>)
    requires r.Valid()
    modifies r`pos
    ensures r.Valid()
    ensures Agrees(Wire.ReadFull(size, old(r.Rest())), a, err, r.Rest())
    ensures a == Filled(size, old(r.Rest()))
  {
    var buf := new byte[size](_ => 0);
    var n;
    n, err := r.ReadFull(buf, size);
    assert buf[..] == buf[..n] + buf[n..];
    assert err.None? ==> buf[..] == buf[..n];
    a := buf[..];
  }

  /** readVarInt. */
  method ReadUvarint(r: Reader) returns (rv: u64, err: Option<Error>)
    requires r.Valid()
    modifies r`pos
    ensures r.Valid()
    ensures Agrees(ReadVarInt(old(r.Rest())), rv, err, r.Rest())
    ensures err.Some? ==> rv == 0
  {
    var b := new byte[8](_ => 0);
    rv := 0;
    var n;
    n, err := r.ReadFull(b, 1);
    if err.Some? { return; }
    var discriminant := b[0];
    assert b[..1] == [discriminant];
    var extra := if discriminant == 0xff then 8 else if discriminant == 0xfe then 4
                 else if discriminant == 0xfd then 2 else 0;
    if extra == 0 {
      rv := discriminant;
    } else {
      n, err := r.ReadFull(b, extra);
      if err.Some? { return; }
      BigEndianBound(b[..extra]);
      PowValues();
      rv := BigEndian(b[..extra]);
    }
  }

  /** readVarString. */
  method ReadVarString(r: Reader) returns (str: seq<byte>, err: Option<Error>)
    requires r.Valid()
    modifies r`pos
    ensures r.Valid()
    ensures Agrees(ReadCounted(MAX_MESSAGE_PAYLOAD, MessageError(StringTooLong), old(r.Rest())), str, err, r.Rest())
  {
    str := [];
    var count;
    count, err := ReadUvarint(r);
    if err.Some? { return; }
    if count > MAX_MESSAGE_PAYLOAD {
      err := Some(MessageError(StringTooLong));
      return;
    }
    var buf := new byte[count](_ => 0);
    var n;
    n, err := r.ReadFull(buf, count);
    if err.None? { str := buf[..]; assert buf[..n] == buf[..]; }
  }

  /** readVarBytes. */
  method ReadVarBytes(r: Reader, maxAllowed: u32) returns (bytes: seq<byte>, err: Option<Error>)
    requires r.Valid()
    modifies r`pos
    ensures r.Valid()
    ensures Agrees(ReadCounted(maxAllowed, MessageError(BytesTooLong), old(r.Rest())), bytes, err, r.Rest())
  {
    bytes := [];
    var count;
    count, err := ReadUvarint(r);
    if err.Some? { return; }
    if count > maxAllowed {
      err := Some(MessageError(BytesTooLong));
      return;
    }
    var b := new byte[count](_ => 0);
    var n;
    n, err := r.ReadFull(b, count);
    if err.None? { bytes := b[..]; assert b[..n] == b[..]; }
  }

  // ---------- writing ----------

  /** Where bytes go: what was written, and how much more fits. A writer that is full either
    * takes nothing of a write or, if it splits, the part that fits. */
  datatype Sink = Sink(out: seq<byte>, capacity: Option<nat>, splits: bool)
  {
    predicate Fits(n: nat) { capacity.None? || |out| + n <= capacity.value }
    predicate Valid() { Fits(0) }
  }

  function Put(p: seq<byte>, sink: Sink): (Sink, Option<Error>)
    requires sink.Valid()
  {
    if sink.Fits(|p|) then (sink.(out := sink.out + p), None)
    else if sink.splits then (sink.(out := sink.out + p[..sink.capacity.value - |sink.out|]), Some(ShortWrite))
    else (sink, Some(ShortWrite))
  }

  /** Consecutive writes, up to the first that fails. */
  function Pour(chunks: seq<seq<byte>>, sink: Sink): (Sink, Option<Error>)
    requires sink.Valid()
  {
    if chunks == [] then (sink, None)
    else
      var (after, err) := Put(chunks[0], sink);
      if err.Some? then (after, err) else Pour(chunks[1..], after)
  }

  /** The items an encoder writes, and the error it then returns if any. */
  datatype Encoding = Encoding(items: seq<Item>, fault: Option<Error>)

  function PourItems(items: seq<Item>, i: nat, sink: Sink): (Sink, Option<Error>)
    requires sink.Valid() && i <= |items|
    decreases |items| - i
  {
    if i == |items| then (sink, None)
    else
      PourKeepsValid(Chunks(items[i]), sink);
      var (after, err) := Pour(Chunks(items[i]), sink);
      if err.Some? then (after, err) else PourItems(items, i + 1, after)
  }

  function PourEncoding(e: Encoding, sink: Sink): (Sink, Option<Error>)
    requires sink.Valid()
  {
    var (after, err) := PourItems(e.items, 0, sink);
    if err.Some? then (after, err) else (after, e.fault)
  }

  lemma {:induction false} PourKeepsValid(chunks: seq<seq<byte>>, sink: Sink)
    requires sink.Valid()
    ensures Pour(chunks, sink).0.Valid()
  {
    if chunks != [] && Put(chunks[0], sink).1.None? {
      PourKeepsValid(chunks[1..], Put(chunks[0], sink).0);
    }
  }

  lemma PourStep(items: seq<Item>, i: nat, sink: Sink)
    requires sink.Valid() && i < |items|
    ensures var (after, err) := Pour(Chunks(items[i]), sink);
      after.Valid() && PourItems(items, i, sink) == if err.Some? then (after, err) else PourItems(items, i + 1, after)
  {
    PourKeepsValid(Chunks(items[i]), sink);
  }

  lemma {:induction false} PourItemsAppend(a: seq<Item>, b: seq<Item>, i: nat, sink: Sink)
    requires sink.Valid() && i <= |a|
    ensures PourItems(a, i, sink).0.Valid()
    ensures PourItems(a + b, i, sink) ==
      if PourItems(a, i, sink).1.Some? then PourItems(a, i, sink) else PourItems(b, 0, PourItems(a, i, sink).0)
    decreases |a| - i
  {
    if i < |a| {
      PourStep(a, i, sink);
      PourStep(a + b, i, sink);
      var (after, err) := Pour(Chunks(a[i]), sink);
      if err.None? { PourItemsAppend(a, b, i + 1, after); }
    } else {
      PourShift(a, b, 0, sink);
    }
  }

  lemma {:induction false} PourShift(a: seq<Item>, b: seq<Item>, i: nat, sink: Sink)
    requires sink.Valid() && i <= |b|
    ensures PourItems(a + b, |a| + i, sink) == PourItems(b, i, sink)
    decreases |b| - i
  {
    if i < |b| {
      PourStep(a + b, |a| + i, sink);
      PourStep(b, i, sink);
      PourShift(a, b, i + 1, Pour(Chunks(b[i]), sink).0);
    }
  }

  /** An encoding in two parts. */
  lemma PourEncodingAppend(a: seq<Item>, b: seq<Item>, fault: Option<Error>, sink: Sink)
    requires sink.Valid()
    ensures var (after, err) := PourItems(a, 0, sink);
      && after.Valid()
      && PourEncoding(Encoding(a + b, fault), sink) ==
         if err.Some? then (after, err) else PourEncoding(Encoding(b, fault), after)
  {
    PourItemsAppend(a, b, 0, sink);
  }

  /** An encoding of at most one item. */
  lemma PourBody(items: seq<Item>, fault: Option<Error>, sink: Sink)
    requires sink.Valid() && |items| <= 1
    ensures PourEncoding(Encoding(items, fault), sink) ==
      if items == [] then (sink, fault)
      else
        var (after, err) := Pour(Chunks(items[0]), sink);
        (after, if err.Some? then err else fault)
  {
    if items != [] {
      PourStep(items, 0, sink);
      PourEnds(items, Pour(Chunks(items[0]), sink).0);
    }
  }

  lemma PourOne(p: seq<byte>, sink: Sink)
    requires sink.Valid()
    ensures Pour([p], sink) == Put(p, sink)
  {
    assert [p][1..] == [];
  }

  lemma PourEnds(items: seq<Item>, sink: Sink)
    requires sink.Valid()
    ensures PourItems(items, |items|, sink) == (sink, None)
  {
  }

  lemma {:induction false} PourAppend(a: seq<seq<byte>>, b: seq<seq<byte>>, sink: Sink)
    requires sink.Valid()
    ensures Pour(a, sink).0.Valid()
    ensures Pour(a + b, sink) ==
      if Pour(a, sink).1.Some? then Pour(a, sink) else Pour(b, Pour(a, sink).0)
  {
    if a == [] {
      assert a + b == b;
    } else {
      assert (a + b)[1..] == a[1..] + b;
      if Put(a[0], sink).1.None? { PourAppend(a[1..], b, Put(a[0], sink).0); }
    }
  }

  class Writer {
    var out: seq<byte>
    const capacity: Option<nat>
    const splits: bool

    ghost predicate Valid()
      reads this
    {
      State().Valid()
    }

    ghost function State(): Sink
      reads this
    {
      Sink(out, capacity, splits)
    }

    /** bytes.Buffer: a writer that takes everything. */
    constructor Buffer()
      ensures Valid() && State() == Sink([], None, false)
    {
      out, capacity, splits := [], None, false;
    }

    constructor Bounded(max: nat, splits: bool)
      ensures Valid() && State() == Sink([], Some(max), splits)
    {
      out, capacity, this.splits := [], Some(max), splits;
    }

    method Write(p: seq<byte>) returns (n: nat, err: Option<Error>)
      requires Valid()
      modifies this`out
      ensures Valid()
      ensures (State(), err) == Put(p, old(State()))
      ensures n <= |p| && out == old(out) + p[..n]
    {
      if capacity.Some? && |out| + |p| > capacity.value {
        n := if splits then capacity.value - |out| else 0;
        err := Some(ShortWrite);
      } else {
        n := |p|;
        err := None;
      }
      out := out + p[..n];
      assert p[..|p|] == p && old(out) + p[..0] == old(out);
    }
  }

  // ---------- writers ----------

  /** writeElements. */
  method WriteElements(w: Writer, fields: seq<seq<byte>>) returns (err: Option<Error>)
    requires w.Valid()
    modifies w`out
    ensures w.Valid()
    ensures (w.State(), err) == Pour(fields, old(w.State()))
  {
    err := None;
    var i := 0;
    while i < |fields|
      invariant i <= |fields| && w.Valid() && err.None?
      invariant Pour(fields[i..], w.State()) == Pour(fields, old(w.State()))
    {
      var n;
      n, err := w.Write(fields[i]);
      assert fields[i..][1..] == fields[i + 1..];
      if err.Some? { return; }
      i := i + 1;
    }
  }

  /** writeVarInt. */
  method WriteVarInt(w: Writer, val: nat) returns (err: Option<Error>)
    requires w.Valid()
    modifies w`out
    ensures w.Valid()
    ensures (w.State(), err) == Pour([VarIntBytes(val)], old(w.State()))
  {
    var n;
    assert [VarIntBytes(val)][1..] == [];
    if val < 0xfd {
      n, err := w.Write([val]);
      return;
    }
    if val <= 0xffff {
      n, err := w.Write([0xfd] + PutBig(val, 2));
      return;
    }
    if val <= 0xffff_ffff {
      n, err := w.Write([0xfe] + PutBig(val, 4));
      return;
    }
    n, err := w.Write([0xff] + PutBig(val, 8));
  }

  /** writeVarString and writeVarBytes. */
  method WriteVarString(w: Writer, str: seq<byte>) returns (err: Option<Error>)
    requires w.Valid()
    modifies w`out
    ensures w.Valid()
    ensures (w.State(), err) == Pour([VarIntBytes(|str|), str], old(w.State()))
  {
    assert [VarIntBytes(|str|), str] == [VarIntBytes(|str|)] + [str] && [str][1..] == [];
    PourAppend([VarIntBytes(|str|)], [str], w.State());
    err := WriteVarInt(w, |str|);
    if err.Some? { return; }
    var n;
    n, err := w.Write(str);
  }
}
