/** Messages with nested messages, written through the writer's fork and ldelim and read back. */
module Messages {
  import opened Suites
  import opened Varints
  import opened ReaderSide
  import opened WriterSide

  datatype Scalar =
    | UInt32(value: uint32)
    | Int32(number: int32)
    | SInt32(number: int32)
    | UInt64(lo: uint32, hi: uint32)
    | SInt64(lo: uint32, hi: uint32)
    | Boolean(b: bool)
    | Fixed(value: uint32)
    | Data(data: bytes)

  type int32 = v: int | -0x8000_0000 <= v < 0x8000_0000

  /** The content of a message: scalars and nested messages. */
  datatype Message =
    | Empty
    | Piece(scalar: Scalar, rest: Message)
    | Nested(inner: Message, rest: Message)

  function ScalarBytes(s: Scalar): bytes {
    match s
    case UInt32(v) => Varint(v)
    case Int32(v) => Int32Bytes(v)
    case SInt32(v) => Sint32Bytes(v)
    case UInt64(lo, hi) => Varint(Value64(lo, hi))
    case SInt64(lo, hi) => Varint(ZigZag(Value64(lo, hi)))
    case Boolean(b) => [if b then 1 else 0]
    case Fixed(v) => Fixed32(v)
    case Data(data) => Varint(|data|) + data
  }

  /** The wire format: a nested message goes behind its length. */
  function Encoding(m: Message): bytes {
    match m
    case Empty => []
    case Piece(s, rest) => ScalarBytes(s) + Encoding(rest)
    case Nested(inner, rest) => Varint(|Encoding(inner)|) + Encoding(inner) + Encoding(rest)
  }

  /** No nested message and no piece of data is longer than a 32-bit length can say. */
  predicate Fits(m: Message) {
    match m
    case Empty => true
    case Piece(s, rest) => (s.Data? ==> |s.data| < TWO32) && Fits(rest)
    case Nested(inner, rest) => |Encoding(inner)| < TWO32 && Fits(inner) && Fits(rest)
  }

  // ----- The calls on a writer -----

  datatype Call = Write(data: bytes) | Fork | Reset | Ldelim

  /** What the writer holds: what was written since the last fork, and before each open one. */
  datatype Held = Held(current: bytes, outer: seq<bytes>)

  function Back(h: Held): Held {
    if h.outer == [] then Held([], []) else Held(h.outer[0], h.outer[1..])
  }

  function After(h: Held, c: Call): Held {
    match c
    case Write(data) => h.(current := h.current + data)
    case Fork => Held([], [h.current] + h.outer)
    case Reset => Back(h)
    case Ldelim => Back(h).(current := Back(h).current + Varint(|h.current| % TWO32) + h.current)
  }

  function AfterAll(h: Held, calls: seq<Call>): Held
    decreases calls
  {
    if calls == [] then h else AfterAll(After(h, calls[0]), calls[1..])
  }

  lemma {:induction false} AfterBoth(h: Held, a: seq<Call>, b: seq<Call>)
    ensures AfterAll(h, a + b) == AfterAll(AfterAll(h, a), b)
    decreases a
  {
    if a == [] {
      assert a + b == b;
    } else {
      AfterBoth(After(h, a[0]), a[1..], b);
      assert (a + b)[1..] == a[1..] + b;
    }
  }

  /** The calls that write a message. */
  function Calls(m: Message): seq<Call> {
    match m
    case Empty => []
    case Piece(s, rest) => [Write(ScalarBytes(s))] + Calls(rest)
    case Nested(inner, rest) => [Fork] + Calls(inner) + [Ldelim] + Calls(rest)
  }

  lemma AfterFirst(h: Held, c: Call, calls: seq<Call>)
    ensures AfterAll(h, [c] + calls) == AfterAll(After(h, c), calls)
  {
    assert ([c] + calls)[1..] == calls;
  }

  lemma NoCalls(h: Held)
    ensures AfterAll(h, []) == h
  {
  }

  lemma UndoFork(h: Held, inner: bytes)
    requires |inner| < TWO32
    ensures After(Held(inner, [h.current] + h.outer), Ldelim) == Held(h.current + Varint(|inner|) + inner, h.outer)
  {
    hide Varint;
    var forked := Held(inner, [h.current] + h.outer);
    assert forked.outer[1..] == h.outer;
    assert Back(forked) == h;
    Small(|inner|);
  }

  lemma Regroup(a: bytes, b: bytes, c: bytes, d: bytes)
    ensures a + b + c + d == a + (b + c + d)
  {
  }

  lemma Closed(h: Held, inner: bytes, rest: bytes)
    requires |inner| < TWO32
    ensures
      var closed := After(Held(inner, [h.current] + h.outer), Ldelim);
      closed.(current := closed.current + rest) == h.(current := h.current + (Varint(|inner|) + inner + rest))
  {
    hide Varint, After;
    UndoFork(h, inner);
    Regroup(h.current, Varint(|inner|), inner, rest);
  }

  /** Whatever was written before and however many forks are open, the calls append exactly the wire
      format of the message and leave no fork behind. */
  lemma {:induction false} CallsWriteEncoding(m: Message, h: Held)
    requires Fits(m)
    ensures AfterAll(h, Calls(m)) == h.(current := h.current + Encoding(m))
    decreases m
  {
    hide AfterAll, ScalarBytes, Varint;
    match m
    case Empty =>
      NoCalls(h);
    case Piece(s, rest) =>
      var written := After(h, Write(ScalarBytes(s)));
      AfterFirst(h, Write(ScalarBytes(s)), Calls(rest));
      CallsWriteEncoding(rest, written);
      assert h.current + ScalarBytes(s) + Encoding(rest) == h.current + (ScalarBytes(s) + Encoding(rest));
    case Nested(inner, rest) =>
      var forked := After(h, Fork);
      CallsWriteEncoding(inner, forked);
      var done := Held(Encoding(inner), [h.current] + h.outer);
      assert forked.(current := forked.current + Encoding(inner)) == done;
      var closed := After(done, Ldelim);
      CallsWriteEncoding(rest, closed);
      AfterFirst(done, Ldelim, Calls(rest));
      AfterBoth(forked, Calls(inner), [Ldelim] + Calls(rest));
      AfterFirst(h, Fork, Calls(inner) + ([Ldelim] + Calls(rest)));
      assert Calls(m) == [Fork] + (Calls(inner) + ([Ldelim] + Calls(rest)));
      Closed(h, Encoding(inner), Encoding(rest));
  }

  /** A write that is followed by a reset leaves no trace. */
  lemma ForkAndReset(m: Message, h: Held)
    requires Fits(m)
    ensures AfterAll(h, [Fork] + Calls(m) + [Reset]) == h
  {
    hide Encoding, Calls;
    var forked := After(h, Fork);
    CallsWriteEncoding(m, forked);
    AfterBoth(forked, Calls(m), [Reset]);
    assert [Fork] + Calls(m) + [Reset] == [Fork] + (Calls(m) + [Reset]);
    AfterFirst(h, Fork, Calls(m) + [Reset]);
    var done := AfterAll(forked, Calls(m));
    assert [Reset] == [Reset] + [];
    AfterFirst(done, Reset, []);
    assert ([h.current] + h.outer)[1..] == h.outer;
  }

  lemma BooleanIsRead(b: bool, rest: bytes)
    ensures ReadUint32(ScalarBytes(Boolean(b)) + rest) == Read(if b then 1 else 0, 1)
  {
    hide ReadUint32, Length32;
    var v: uint32 := if b then 1 else 0;
    assert Varint(v) == ScalarBytes(Boolean(b));
    Uint32RoundTrip(v, rest);
    assert Length32(v) == |Varint(v)|;
  }

  lemma FixedIsRead(v: uint32, rest: bytes)
    ensures LittleEndian((ScalarBytes(Scalar.Fixed(v)) + rest)[..4]) == v
  {
    hide LittleEndian, Fixed32;
    Fixed32Value(v);
    assert (Fixed32(v) + rest)[..4] == Fixed32(v);
  }

  /** Every kind of scalar is read back, whatever follows it. */
  lemma ScalarIsRead(s: Scalar, rest: bytes)
    requires s.Data? ==> |s.data| < TWO32
    ensures
      var data, n := ScalarBytes(s) + rest, |ScalarBytes(s)|;
      match s
      case UInt32(v) => ReadUint32(data) == Read(v, n)
      case Int32(v) => var r := ReadUint32(data); r.Read? && Signed(r.value) == v && r.used == n
      case SInt32(v) => var r := ReadUint32(data); r.Read? && FromZigZag32(r.value) == v && r.used == n
      case UInt64(lo, hi) => ReadLong(data) == Read(Value64(lo, hi), n)
      case SInt64(lo, hi) =>
        var r := ReadLong(data); r.Read? && r.value < TWO64 && UnZigZag(r.value) == Value64(lo, hi) && r.used == n
      case Boolean(b) => ReadUint32(data) == Read(if b then 1 else 0, n)
      case Fixed(v) => n == 4 && LittleEndian(data[..4]) == v
      case Data(x) => ReadBytes(data) == Read(x, n)
  {
    hide ReadUint32, ReadLong, ReadBytes, Varint, Value64, ZigZag, UnZigZag, Int32Bytes, Sint32Bytes, Fixed32, LittleEndian,
      Length32, Length64, Signed, FromZigZag32;
    match s
    case UInt32(v) =>
      Uint32RoundTrip(v, rest);
    case Int32(v) =>
      Int32RoundTrip(v, rest);
    case SInt32(v) =>
      Sint32RoundTrip(v, rest);
    case UInt64(lo, hi) =>
      LongRoundTrip(lo, hi, rest);
    case SInt64(lo, hi) =>
      Sint64RoundTrip(lo, hi, rest);
    case Boolean(b) =>
      BooleanIsRead(b, rest);
    case Fixed(v) =>
      FixedIsRead(v, rest);
    case Data(x) =>
      BytesRoundTrip(x, rest);
  }

  /** A nested message is read back as bytes, whatever follows it. */
  lemma NestedIsRead(m: Message, following: bytes)
    requires m.Nested? && Fits(m)
    ensures
      var inner := Encoding(m.inner);
      ReadBytes(Encoding(m) + following) == Read(inner, |Varint(|inner|)| + |inner|)
      && (Encoding(m) + following)[|Varint(|inner|)| + |inner|..] == Encoding(m.rest) + following
  {
    hide Varint, ReadBytes;
    var inner, rest := Encoding(m.inner), Encoding(m.rest) + following;
    BytesRoundTrip(inner, rest);
    var head := Varint(|inner|) + inner;
    assert Encoding(m) == head + Encoding(m.rest);
    assert Encoding(m) + following == head + rest;
    assert (head + rest)[|head|..] == rest;
  }

  method WriteScalar(w: Writer, s: Scalar)
    requires w.Valid() && (s.Data? ==> |s.data| < TWO32)
    modifies w, w.tail`next
    ensures w.Valid() && fresh(w.repr - old(w.repr))
    ensures w.Current() == old(w.Current()) + ScalarBytes(s) && w.Outer() == old(w.Outer())
  {
    hide Writer.Valid, Writer.Current, Writer.Outer, Varint, Fixed32, Value64, ZigZag, TwosComplement;
    match s
    case UInt32(v) =>
      w.Uint32(v);
    case Int32(v) =>
      w.Int32(v);
    case SInt32(v) =>
      w.Sint32(v);
    case UInt64(lo, hi) =>
      w.Uint64(lo, hi);
    case SInt64(lo, hi) =>
      w.Sint64(lo, hi);
    case Boolean(b) =>
      w.Bool(b);
    case Fixed(v) =>
      w.WriteFixed(v);
    case Data(data) =>
      w.Bytes(data);
      assert old(w.Current()) + Varint(|data|) + data == old(w.Current()) + (Varint(|data|) + data);
  }

  /** Writes a message with fork and ldelim on the linked lists of a writer. */
  method WriteMessage(w: Writer, m: Message)
    requires w.Valid() && Fits(m)
    modifies w, w.repr
    ensures w.Valid() && fresh(w.repr - old(w.repr))
    ensures w.Current() == old(w.Current()) + Encoding(m) && w.Outer() == old(w.Outer())
    decreases m
  {
    hide Writer.Valid, Writer.Current, Writer.Outer, Varint, ScalarBytes;
    ghost var h := Held(w.Current(), w.Outer());
    w.EndsAreOwned();
    match m
    case Empty =>
    case Piece(s, rest) =>
      WriteScalar(w, s);
      WriteMessage(w, rest);
      assert h.current + ScalarBytes(s) + Encoding(rest) == h.current + (ScalarBytes(s) + Encoding(rest));
    case Nested(inner, rest) =>
      w.Fork();
      WriteMessage(w, inner);
      assert Held(w.Current(), w.Outer()) == Held(Encoding(inner), [h.current] + h.outer);
      w.EndsAreOwned();
      w.Ldelim();
      assert Held(w.Current(), w.Outer()) == After(Held(Encoding(inner), [h.current] + h.outer), Ldelim);
      Closed(h, Encoding(inner), Encoding(rest));
      WriteMessage(w, rest);
  }

  /** A message goes through a buffer of exactly its length. */
  method EncodeMessage(m: Message) returns (buf: array<byte>)
    requires Fits(m)
    ensures fresh(buf) && buf[..] == Encoding(m)
  {
    hide Writer.Valid, Writer.Finishable, Encoding;
    var w := new Writer();
    WriteMessage(w, m);
    w.NumbersAreOwned();
    w.ValidIsFinishable();
    assert w.Current() == Encoding(m);
    buf := w.Finish();
  }
}
