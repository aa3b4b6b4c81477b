/** Writing the JavaScript wire format: operations are queued in a linked list, nested messages in a
    list of their own, and only the last call fills a buffer. */
module WriterSide {
  import Base64
  import opened Suites
  import opened Varints

  // ----- Operations -----

  function Last<T>(s: seq<T>): T
    requires |s| > 0
  {
    s[|s| - 1]
  }

  datatype Payload =
    | Nothing
    | OneByte(b: byte)
    | Number(v: uint32)
    | Long(bits: LongBits)
    | Fixed(v: uint32)
    | Data(data: bytes)

  /** Four bytes, the least significant one first. */
  function Fixed32(v: uint32): (r: bytes)
    ensures |r| == 4
  {
    [v % 256, v / 0x100 % 256, v / 0x1_0000 % 256, v / 0x100_0000]
  }

  /** The number that bytes stand for, the least significant one first. */
  function LittleEndian(data: bytes): nat {
    if data == [] then 0 else data[0] as int + 0x100 * LittleEndian(data[1..])
  }

  lemma Fixed32Value(v: uint32)
    ensures LittleEndian(Fixed32(v)) == v
  {
    var r := Fixed32(v);
    var n: nat := v;
    assert n / 0x1_0000 == n / 0x100 / 0x100 && n / 0x100_0000 == n / 0x100 / 0x100 / 0x100;
    assert LittleEndian(r[3..]) == n / 0x100_0000;
    assert r[2..][0] == r[2] && r[2..][1..] == r[3..];
    assert LittleEndian(r[2..]) == n / 0x1_0000;
    assert r[1..][0] == r[1] && r[1..][1..] == r[2..];
    assert LittleEndian(r[1..]) == n / 0x100;
  }

  function Zeros(n: nat): (r: bytes)
    ensures |r| == n
  {
    seq(n, _ => 0)
  }

  method WriteFixed32(v: uint32, buf: array<byte>, pos: nat)
    requires pos + 4 <= buf.Length
    modifies buf
    ensures buf[..] == Written(old(buf[..]), pos, Fixed32(v))
  {
    buf[pos] := v % 256;
    buf[pos + 1] := v / 0x100 % 256;
    buf[pos + 2] := v / 0x1_0000 % 256;
    buf[pos + 3] := v / 0x100_0000;
  }

  method WriteBytes(data: bytes, buf: array<byte>, pos: nat)
    requires pos + |data| <= buf.Length
    modifies buf
    ensures buf[..] == Written(old(buf[..]), pos, data)
  {
    ghost var before := buf[..];
    for i := 0 to |data|
      invariant buf[..] == Written(before, pos, data[..i])
    {
      PutByte(data[i], buf, pos + i, before, pos, data[..i]);
      assert data[..i + 1] == data[..i] + [data[i]];
    }
    assert data[..|data|] == data;
  }

  /** A scheduled operation: what to write and how many bytes that takes. */
  class Op {
    const payload: Payload
    const len: nat
    ghost const text: bytes
    var next: Op?

    constructor (payload: Payload, len: nat, ghost text: bytes)
      ensures this.payload == payload && this.len == len && this.text == text && next == null
    {
      this.payload, this.len, this.text, next := payload, len, text, null;
    }

    /** The operation and what it owns. */
    ghost function Objects(): (r: set<object>)
      ensures this in r && (payload.Long? ==> payload.bits in r)
    {
      if payload.Long? then {this, payload.bits} else {this}
    }

    /** The operation has room for what it will write. A 64-bit number belongs to one operation only. */
    ghost predicate Writable()
      reads if payload.Long? then {payload.bits} else {}
    {
      && len == |text|
      && match payload
         case Nothing => text == []
         case OneByte(b) => text == [b]
         case Number(v) => text == Varint(v)
         case Long(bits) => |Varint(bits.Value())| <= len && bits.holder == this
         case Fixed(v) => text == Fixed32(v)
         case Data(data) => text == data
    }

    /** What the operation will write. Writing uses up a 64-bit number, so that this can be done once
        for all operations but those. */
    ghost function Due(): (r: bytes)
      reads if payload.Long? then {payload.bits} else {}
      ensures payload.Long? ==> |r| > 0
    {
      if payload.Long? then Varint(payload.bits.Value()) else text
    }

    /** The operation will write its text. */
    ghost predicate Ready()
      reads if payload.Long? then {payload.bits} else {}
    {
      Writable() && Due() == text
    }

    /** What the operation makes of its part of an empty buffer. */
    ghost function Filled(): (r: bytes)
      requires Writable()
      reads if payload.Long? then {payload.bits} else {}
      ensures |r| == |text|
    {
      Due() + Zeros(len - |Due()|)
    }

    method Write(buf: array<byte>, pos: nat)
      requires Writable() && pos + len <= buf.Length
      modifies buf, Objects() - {this}
      ensures buf[..] == Written(old(buf[..]), pos, old(Due()))
      ensures Writable() && (payload.Long? ==> payload.bits.Value() == Last(old(Due())))
    {
      match payload
      case Nothing =>
      case OneByte(b) =>
        buf[pos] := b;
      case Number(v) =>
        WriteVarint32(v, buf, pos);
      case Long(bits) =>
        var end := bits.WriteVarint64(buf, pos);
      case Fixed(v) =>
        WriteFixed32(v, buf, pos);
      case Data(data) =>
        WriteBytes(data, buf, pos);
    }
  }

  /** What a list of operations writes. */
  ghost function Text(ops: seq<Op>): bytes {
    if ops == [] then [] else Text(ops[..|ops| - 1]) + ops[|ops| - 1].text
  }

  lemma {:induction false} TextOfBoth(a: seq<Op>, b: seq<Op>)
    ensures Text(a + b) == Text(a) + Text(b)
  {
    if b == [] {
      assert a + b == a;
    } else {
      var n := |b| - 1;
      TextOfBoth(a, b[..n]);
      assert (a + b)[..|a| + n] == a + b[..n];
    }
  }

  /** The operations form a linked list that ends after the last one. */
  ghost predicate Chain(ops: seq<Op>)
    reads ops
  {
    && |ops| > 0 && ops[|ops| - 1].next == null
    && forall k :: 0 <= k < |ops| - 1 ==> ops[k].next == ops[k + 1]
  }

  /** An operation without a successor is at the end of a list or not in it. */
  lemma NotInside(ops: seq<Op>, op: Op)
    requires Chain(ops) && op.next == null && op != ops[|ops| - 1]
    ensures op !in ops
  {
    forall k | 0 <= k < |ops|
      ensures ops[k] != op
    {
      assert k < |ops| - 1 ==> ops[k].next == ops[k + 1];
    }
  }

  /** A list that ends has no cycle. */
  lemma {:induction false} ChainIsAcyclic(ops: seq<Op>, k: nat, l: nat)
    requires Chain(ops) && k < l < |ops|
    ensures ops[k] != ops[l]
    decreases |ops| - l
  {
    if ops[k] == ops[l] {
      assert ops[k].next == ops[k + 1];
      if l + 1 < |ops| {
        ChainIsAcyclic(ops, k + 1, l + 1);
      }
    }
  }

  // ----- Lists of operations -----

  /** What `fork` puts aside. */
  datatype State = NoState | State(head: Op, tail: Op, len: nat, next: State)

  /** The states put aside are those of the outer lists, innermost first. */
  ghost predicate Aside(states: State, outer: seq<seq<Op>>) {
    if outer == [] then states.NoState?
    else
      && states.State? && |outer[0]| > 0 && states.head == outer[0][0] && states.tail == outer[0][|outer[0]| - 1]
      && states.len == |Text(outer[0])| && Aside(states.next, outer[1..])
  }

  ghost function ObjectsOf(ops: seq<Op>): set<object> {
    set k, o | 0 <= k < |ops| && o in ops[k].Objects() :: o
  }

  ghost function AllObjects(lists: seq<seq<Op>>): set<object> {
    set i, o | 0 <= i < |lists| && o in ObjectsOf(lists[i]) :: o
  }

  /** A linked list of operations, each with room for what it writes, behind one that writes nothing. */
  ghost predicate InOrder(ops: seq<Op>)
    reads ObjectsOf(ops)
  {
    && (forall k :: 0 <= k < |ops| ==> ops[k] in ops[k].Objects())
    && Chain(ops) && ops[0].payload.Nothing?
    && forall k :: 0 <= k < |ops| ==> ops[k].Writable()
  }

  /** A linked list of operations, all ready, behind one that writes nothing. */
  ghost predicate Linked(ops: seq<Op>)
    reads ObjectsOf(ops)
  {
    && (forall k :: 0 <= k < |ops| ==> ops[k] in ops[k].Objects())
    && Chain(ops) && ops[0].payload.Nothing?
    && forall k :: 0 <= k < |ops| ==> ops[k].Ready()
  }

  ghost predicate AllLinked(lists: seq<seq<Op>>)
    reads AllObjects(lists)
  {
    forall i :: 0 <= i < |lists| ==> Linked(lists[i])
  }

  ghost predicate LastsDiffer(lists: seq<seq<Op>>) {
    && (forall i :: 0 <= i < |lists| ==> |lists[i]| > 0)
    && forall i, j :: 0 <= i < j < |lists| ==> Last(lists[i]) != Last(lists[j])
  }

  /** None of the lists ends with the operation. */
  ghost predicate EndsElsewhere(lists: seq<seq<Op>>, op: Op) {
    forall i :: 0 <= i < |lists| && |lists[i]| > 0 ==> Last(lists[i]) != op
  }

  /** The end of the current list is not in any other list. */
  lemma EndIsElsewhere(lists: seq<seq<Op>>, op: Op)
    requires AllLinked(lists) && EndsElsewhere(lists, op) && op.next == null
    ensures op !in AllObjects(lists)
  {
    forall i | 0 <= i < |lists|
      ensures op !in ObjectsOf(lists[i])
    {
      NotInside(lists[i], op);
      assert forall k :: 0 <= k < |lists[i]| ==> lists[i][k] != op;
    }
  }

  lemma NewEnd(lists: seq<seq<Op>>, op: Op, repr: set<object>)
    requires AllLinked(lists) && AllObjects(lists) <= repr && op !in repr
    ensures EndsElsewhere(lists, op)
  {
    forall i | 0 <= i < |lists| && |lists[i]| > 0
      ensures Last(lists[i]) != op
    {
      assert Last(lists[i]) in Last(lists[i]).Objects();
      assert Last(lists[i]) in ObjectsOf(lists[i]);
    }
  }

  ghost function Texts(lists: seq<seq<Op>>): (r: seq<bytes>)
    ensures |r| == |lists|
  {
    seq(|lists|, i requires 0 <= i < |lists| => Text(lists[i]))
  }

  // ----- What a list writes into a buffer -----

  ghost function Numbers(ops: seq<Op>): set<object> {
    set k | 0 <= k < |ops| && ops[k].payload.Long? :: ops[k].payload.bits
  }

  function Flat(parts: seq<bytes>): bytes {
    if parts == [] then [] else Flat(parts[..|parts| - 1]) + Last(parts)
  }

  /** What each operation will write. */
  ghost function Dues(ops: seq<Op>): (r: seq<bytes>)
    reads Numbers(ops)
    ensures |r| == |ops| && forall k :: 0 <= k < |ops| ==> r[k] == ops[k].Due()
  {
    seq(|ops|, k requires 0 <= k < |ops| reads Numbers(ops) => ops[k].Due())
  }

  ghost predicate AllWritable(ops: seq<Op>)
    reads Numbers(ops)
  {
    forall k :: 0 <= k < |ops| ==> ops[k].Writable()
  }

  /** What each operation makes of its part of the buffer. */
  ghost function Parts(ops: seq<Op>): (r: seq<bytes>)
    requires AllWritable(ops)
    reads Numbers(ops)
    ensures |r| == |ops| && forall k :: 0 <= k < |ops| ==> r[k] == ops[k].Filled()
  {
    seq(|ops|, k requires 0 <= k < |ops| && ops[k].Writable() reads Numbers(ops) => ops[k].Filled())
  }

  lemma {:induction false} ReadyParts(ops: seq<Op>)
    requires forall k :: 0 <= k < |ops| ==> ops[k].Ready()
    ensures AllWritable(ops) && Flat(Parts(ops)) == Text(ops)
  {
    hide Varint, Op.Writable;
    if ops != [] {
      var n := |ops| - 1;
      ReadyParts(ops[..n]);
      assert Parts(ops)[..n] == Parts(ops[..n]);
      assert ops[n].Filled() == ops[n].text + [];
    }
  }

  /** The 64-bit numbers of the first n operations are used up. */
  ghost predicate Used(ops: seq<Op>, dues: seq<bytes>, n: nat)
    requires n <= |ops| == |dues|
    reads Numbers(ops)
  {
    forall k :: 0 <= k < n ==>
      && ops[k].Writable()
      && (ops[k].payload.Long? ==> |dues[k]| > 0 && ops[k].payload.bits.Value() == Last(dues[k]))
  }

  /** The operations from n on will still write what was due at the start. */
  ghost predicate Pending(ops: seq<Op>, dues: seq<bytes>, n: nat)
    requires n <= |ops| == |dues|
    reads Numbers(ops)
  {
    forall k :: n <= k < |ops| ==> ops[k].Writable() && ops[k].Due() == dues[k]
  }

  lemma NothingUsed(ops: seq<Op>, dues: seq<bytes>)
    requires InOrder(ops) && dues == Dues(ops)
    ensures Chain(ops) && |ops| > 0 && ops[0].payload.Nothing? && AllWritable(ops)
    ensures Pending(ops, dues, 1) && Used(ops, dues, 1)
    ensures ops[0].next == if 1 < |ops| then ops[1] else null
  {
  }

  lemma AllUsed(ops: seq<Op>, dues: seq<bytes>)
    requires |ops| > 0 && |dues| == |ops| && Used(ops, dues, |ops|) && Chain(ops) && ops[0].payload.Nothing?
    ensures InOrder(ops)
  {
  }

  lemma {:induction false} FlatLength(ops: seq<Op>, parts: seq<bytes>)
    requires |parts| == |ops| && forall k :: 0 <= k < |ops| ==> |parts[k]| == |ops[k].text|
    ensures |Flat(parts)| == |Text(ops)|
  {
    if ops != [] {
      FlatLength(ops[..|ops| - 1], parts[..|ops| - 1]);
    }
  }

  /** Each part is what is due, filled up with zeros. */
  ghost predicate PartsOf(ops: seq<Op>, dues: seq<bytes>, parts: seq<bytes>) {
    && |ops| == |dues| == |parts|
    && forall k :: 0 <= k < |ops| ==> |dues[k]| <= ops[k].len && parts[k] == dues[k] + Zeros(ops[k].len - |dues[k]|)
  }

  lemma PartsFit(ops: seq<Op>, dues: seq<bytes>, parts: seq<bytes>)
    requires |ops| > 0 && ops[0].payload.Nothing? && AllWritable(ops)
    requires dues == Dues(ops) && parts == Parts(ops)
    ensures PartsOf(ops, dues, parts) && |Flat(parts)| == |Text(ops)| && Flat(parts[..1]) == []
  {
    FlatLength(ops, parts);
    assert parts[..1] == [parts[0]];
    assert Flat([parts[0]]) == Flat([]) + parts[0];
  }

  lemma PartAt(ops: seq<Op>, dues: seq<bytes>, parts: seq<bytes>, k: nat)
    requires PartsOf(ops, dues, parts) && k < |ops|
    ensures |dues[k]| <= ops[k].len && parts[k] == dues[k] + Zeros(ops[k].len - |dues[k]|)
  {
  }

  lemma Associative(a: bytes, b: bytes, c: bytes)
    ensures a + b + c == a + (b + c)
  {
  }

  lemma {:induction false} FlatOfBoth(a: seq<bytes>, b: seq<bytes>)
    ensures Flat(a + b) == Flat(a) + Flat(b)
  {
    if b == [] {
      assert a + b == a;
    } else {
      var n := |b| - 1;
      FlatOfBoth(a, b[..n]);
      assert (a + b)[..|a| + n] == a + b[..n];
      Associative(Flat(a), Flat(b[..n]), b[n]);
    }
  }

  lemma FlatOfNext(parts: seq<bytes>, k: nat)
    requires k < |parts|
    ensures Flat(parts[..k + 1]) == Flat(parts[..k]) + parts[k] && |Flat(parts[..k + 1])| <= |Flat(parts)|
  {
    assert parts[..k + 1][..k] == parts[..k];
    FlatOfBoth(parts[..k + 1], parts[k + 1..]);
    assert parts == parts[..k + 1] + parts[k + 1..];
  }

  lemma WrittenNext(buf: bytes, pos: nat, data: bytes, n: nat)
    requires |data| <= n && pos + n <= |buf| && forall i :: pos <= i < |buf| ==> buf[i] == 0
    ensures Written(buf, pos, data)[..pos + n] == buf[..pos] + (data + Zeros(n - |data|))
    ensures forall i :: pos + n <= i < |buf| ==> Written(buf, pos, data)[i] == 0
  {
  }

  /** An operation differs from those before and behind it in the list. */
  lemma ChainNext(ops: seq<Op>, k: nat)
    requires Chain(ops) && k < |ops|
    ensures ops[k].next == if k + 1 < |ops| then ops[k + 1] else null
  {
  }

  lemma Apart(ops: seq<Op>, k: nat)
    requires Chain(ops) && k < |ops|
    ensures forall j :: 0 <= j < |ops| && j != k ==> ops[j] != ops[k]
  {
    forall j | 0 <= j < |ops| && j != k
      ensures ops[j] != ops[k]
    {
      if j < k {
        ChainIsAcyclic(ops, j, k);
      } else {
        ChainIsAcyclic(ops, k, j);
      }
    }
  }

  /** Writing an operation behind those before it uses up its own number and no other. */
  method WriteOperation(
    ghost ops: seq<Op>, ghost k: nat, op: Op, buf: array<byte>, pos: nat, ghost dues: seq<bytes>, ghost parts: seq<bytes>)
    requires k < |ops| == |dues| == |parts| && op == ops[k] && Chain(ops)
    requires Pending(ops, dues, k) && Used(ops, dues, k) && PartsOf(ops, dues, parts)
    requires pos <= buf.Length == |Flat(parts)| && buf[..pos] == Flat(parts[..k])
    requires forall i :: pos <= i < buf.Length ==> buf[i] == 0
    modifies buf, op.Objects() - {op}
    ensures Chain(ops) && Pending(ops, dues, k + 1) && Used(ops, dues, k + 1)
    ensures op.next == if k + 1 < |ops| then ops[k + 1] else null
    ensures pos + op.len <= buf.Length && buf[..pos + op.len] == Flat(parts[..k + 1])
    ensures forall i :: pos + op.len <= i < buf.Length ==> buf[i] == 0
  {
    hide Varint, Written, Flat, PartsOf, Zeros, Chain, LongBits.Value;
    Apart(ops, k);
    ChainNext(ops, k);
    FlatOfNext(parts, k);
    PartAt(ops, dues, parts, k);
    ghost var before := buf[..];
    op.Write(buf, pos);
    WrittenNext(before, pos, dues[k], op.len);
  }

  /** Writes all operations behind the first one into an empty buffer. */
  method WriteOperations(
    ghost ops: seq<Op>, first: Op?, buf: array<byte>, ghost dues: seq<bytes>, ghost parts: seq<bytes>)
    requires |ops| > 0 && Chain(ops) && first == if 1 < |ops| then ops[1] else null
    requires |dues| == |ops| == |parts| && Pending(ops, dues, 1) && Used(ops, dues, 1) && PartsOf(ops, dues, parts)
    requires buf.Length == |Flat(parts)| && Flat(parts[..1]) == [] && forall i :: 0 <= i < buf.Length ==> buf[i] == 0
    modifies buf, Numbers(ops)
    ensures buf[..] == Flat(parts) && Chain(ops) && Used(ops, dues, |ops|)
  {
    hide Chain, Pending, Used, Flat, PartsOf;
    var op, pos: nat := first, 0;
    ghost var k := 1;
    while op != null
      invariant 1 <= k <= |ops| == |parts| && op == if k < |ops| then ops[k] else null
      invariant Chain(ops) && Pending(ops, dues, k) && Used(ops, dues, k) && PartsOf(ops, dues, parts)
      invariant pos <= buf.Length == |Flat(parts)| && buf[..pos] == Flat(parts[..k])
      invariant forall i :: pos <= i < buf.Length ==> buf[i] == 0
      decreases |ops| - k
    {
      WriteOperation(ops, k, op, buf, pos, dues, parts);
      pos := pos + op.len;
      op := op.next;
      k := k + 1;
    }
    assert parts[..k] == parts;
    assert pos == |buf[..pos]| == buf.Length;
    assert buf[..pos] == buf[..];
  }

  // ----- Lists that grow and are put aside -----

  lemma LinkedFacts(ops: seq<Op>)
    requires Linked(ops)
    ensures |ops| > 0 && forall k :: 0 <= k < |ops| - 1 ==> ops[k].next == ops[k + 1] && ops[k] != Last(ops)
  {
    forall k | 0 <= k < |ops| - 1
      ensures ops[k].next == ops[k + 1] && ops[k] != Last(ops)
    {
      assert Last(ops).next == null;
    }
  }

  /** The innermost list put aside does not share anything that changes with the current one. */
  lemma InnerIsApart(inner: seq<Op>, outer: seq<seq<Op>>)
    requires Linked(inner) && AllLinked(outer) && EndsElsewhere(outer, Last(inner)) && outer != [] && |outer[0]| > 0
    ensures Last(outer[0]) !in ObjectsOf(inner) && EndsElsewhere(outer[1..], Last(inner))
  {
    var op := Last(outer[0]);
    assert Linked(outer[0]);
    NotInside(inner, op);
    assert forall k :: 0 <= k < |inner| ==> inner[k] != op;
    forall i | 0 <= i < |outer[1..]| && |outer[1..][i]| > 0
      ensures Last(outer[1..][i]) != Last(inner)
    {
      assert outer[1..][i] == outer[i + 1];
    }
  }

  lemma SplicedText(a: seq<Op>, inner: seq<Op>)
    requires |inner| > 1 && inner[0].payload.Nothing? && inner[0].Ready()
    ensures Text(a + inner[1..]) == Text(a) + Text(inner)
  {
    TextOfBoth(a, inner[1..]);
    TextOfBoth([inner[0]], inner[1..]);
    assert inner == [inner[0]] + inner[1..];
    assert Text([inner[0]]) == Text([]) + inner[0].text;
  }

  /** Two lists make one when the first goes on with the second operation of the other. */
  lemma Spliced(a: seq<Op>, inner: seq<Op>, repr: set<object>)
    requires |a| > 0 && |inner| > 1 && Last(a).next == inner[1] && Linked(inner)
    requires forall k :: 0 <= k < |a| - 1 ==> a[k].next == a[k + 1]
    requires a[0].payload.Nothing? && forall k :: 0 <= k < |a| ==> a[k].Ready()
    requires ObjectsOf(a) <= repr && ObjectsOf(inner) <= repr
    ensures Linked(a + inner[1..]) && ObjectsOf(a + inner[1..]) <= repr
    ensures Text(a + inner[1..]) == Text(a) + Text(inner) && Last(a + inner[1..]) == Last(inner)
  {
    hide Text;
    var all := a + inner[1..];
    SplicedText(a, inner);
    forall k | 0 <= k < |all|
      ensures all[k].Ready() && all[k].Objects() <= repr
      ensures k < |all| - 1 ==> all[k].next == all[k + 1]
    {
      if k >= |a| {
        assert all[k] == inner[k - |a| + 1];
      }
      assert all[k] in all[k].Objects();
    }
  }

  /** A list that writes something has more than its head. */
  lemma TextOfHead(ops: seq<Op>)
    requires Linked(ops)
    ensures |ops| == 1 ==> Text(ops) == []
  {
    if |ops| == 1 {
      assert Text(ops) == Text(ops[..0]) + ops[0].text;
      assert ops[0].Ready();
    }
  }

  lemma NoText()
    ensures Base64.GroupsLength([]) == 0 && Base64.Decoded([], 0, 0) == Some([]) && Base64.Stored([], 0, []) == []
    ensures Zeros(0) == []
  {
  }

  lemma ZeroVarint()
    ensures Varint(0) == [0]
  {
  }

  lemma FreshList(noop: Op)
    requires noop.payload.Nothing? && noop.Ready() && noop.next == null
    ensures Linked([noop]) && ObjectsOf([noop]) == {noop} && Text([noop]) == [] && Last([noop]) == noop
  {
    assert Text([noop]) == Text([]) + noop.text;
    assert ObjectsOf([noop]) == noop.Objects();
  }

  lemma NothingAside(outer: seq<seq<Op>>)
    requires Aside(NoState, outer)
    ensures outer == [] && Texts(outer) == []
    ensures forall op :: EndsElsewhere(outer, op)
  {
  }

  /** Putting a list aside keeps all lists in shape. */
  lemma ListAdded(ops: seq<Op>, outer: seq<seq<Op>>, repr: set<object>, noop: Op)
    requires Linked(ops) && AllLinked(outer) && ObjectsOf(ops) <= repr && AllObjects(outer) <= repr
    requires LastsDiffer(outer) && EndsElsewhere(outer, Last(ops)) && noop !in repr
    ensures AllLinked([ops] + outer) && AllObjects([ops] + outer) <= repr
    ensures LastsDiffer([ops] + outer) && EndsElsewhere([ops] + outer, noop)
    ensures Texts([ops] + outer) == [Text(ops)] + Texts(outer)
  {
    forall i | 0 <= i < |outer| + 1
      ensures Linked(([ops] + outer)[i]) && ObjectsOf(([ops] + outer)[i]) <= repr
    {
      if i > 0 {
        assert ([ops] + outer)[i] == outer[i - 1];
        assert ObjectsOf(outer[i - 1]) <= AllObjects(outer);
      }
    }
    NewEnd([ops] + outer, noop, repr);
  }

  /** Taking the innermost list back does, too. */
  lemma ListTaken(states: State, outer: seq<seq<Op>>, repr: set<object>)
    requires states.State? && Aside(states, outer) && AllLinked(outer) && AllObjects(outer) <= repr && LastsDiffer(outer)
    ensures outer != [] && |outer[0]| > 0 && Linked(outer[0]) && ObjectsOf(outer[0]) <= repr
    ensures AllLinked(outer[1..]) && AllObjects(outer[1..]) <= repr
    ensures LastsDiffer(outer[1..]) && EndsElsewhere(outer[1..], Last(outer[0]))
    ensures Aside(states.next, outer[1..])
    ensures states.head == outer[0][0] && states.tail == Last(outer[0]) && states.len == |Text(outer[0])|
    ensures Texts(outer)[0] == Text(outer[0]) && Texts(outer[1..]) == Texts(outer)[1..]
  {
    var rest := outer[1..];
    forall i | 0 <= i < |outer|
      ensures ObjectsOf(outer[i]) <= repr
    {
      assert ObjectsOf(outer[i]) <= AllObjects(outer);
    }
    forall i | 0 <= i < |rest|
      ensures Linked(rest[i]) && ObjectsOf(rest[i]) <= repr && Last(rest[i]) != Last(outer[0])
    {
      assert rest[i] == outer[i + 1];
    }
  }

  lemma FirstAside(states: State, ops: seq<Op>, outer: seq<seq<Op>>)
    requires states.State? && |ops| > 0 && states.head == ops[0] && states.tail == Last(ops) && states.len == |Text(ops)|
    requires Aside(states.next, outer)
    ensures Aside(states, [ops] + outer)
  {
    assert ([ops] + outer)[1..] == outer;
  }

  // ----- The writer -----

  class Writer {
    var head: Op
    var tail: Op
    var len: nat
    var states: State
    /** The operations of the current list, those of the lists put aside, innermost first, and all
        objects that they consist of. */
    ghost var ops: seq<Op>
    ghost var outer: seq<seq<Op>>
    ghost var repr: set<object>

    ghost predicate Valid()
      reads this, repr
    {
      && this !in repr && ObjectsOf(ops) <= repr && AllObjects(outer) <= repr
      && |ops| > 0 && Linked(ops) && AllLinked(outer)
      && LastsDiffer(outer) && EndsElsewhere(outer, tail)
      && head == ops[0] && tail == Last(ops) && len == |Text(ops)|
      && Aside(states, outer)
    }

    /** What has been written since the last fork. */
    ghost function Current(): bytes
      reads this
    {
      Text(ops)
    }

    /** What had been written before each fork that is still open, innermost first. */
    ghost function Outer(): (r: seq<bytes>)
      reads this
    {
      Texts(outer)
    }

    constructor ()
      ensures Valid() && fresh(repr) && |ops| == 1 && Current() == [] && Outer() == []
    {
      var noop := new Op(Nothing, 0, []);
      head, tail, len, states := noop, noop, 0, NoState;
      ops, outer, repr := [noop], [], {noop};
      new;
      assert Text([noop]) == Text([]) + [];
    }

    /** The ends of the lists belong to the writer. */
    lemma EndsAreOwned()
      requires Valid()
      ensures tail in repr && (outer != [] ==> Last(outer[0]) in repr)
    {
      assert tail in tail.Objects() && tail in ObjectsOf(ops);
      if outer != [] {
        assert Last(outer[0]) in Last(outer[0]).Objects() && Last(outer[0]) in ObjectsOf(outer[0]);
      }
    }

    lemma NumbersAreOwned()
      requires Valid()
      ensures Numbers(ops) <= repr
    {
      forall k | 0 <= k < |ops| && ops[k].payload.Long?
        ensures ops[k].payload.bits in repr
      {
        assert ops[k].payload.bits in ops[k].Objects() && ops[k].payload.bits in ObjectsOf(ops);
      }
    }

    /** Appends an operation to the current list. */
    method Push(op: Op)
      requires Valid() && op.Objects() !! repr && this !in op.Objects()
      requires op.next == null && op.Ready() && !op.payload.Nothing?
      modifies this, tail`next
      ensures Valid()
      ensures repr == old(repr) + op.Objects() && ops == old(ops) + [op] && outer == old(outer)
      ensures states == old(states) && tail == op && head == old(head)
      ensures Current() == old(Current()) + op.text && Outer() == old(Outer())
    {
      hide AllLinked, AllObjects, EndsElsewhere, LastsDiffer, Varint;
      EndIsElsewhere(outer, tail);
      NewEnd(outer, op, repr);
      tail.next := op;
      tail := op;
      len := len + op.len;
      ops := ops + [op];
      repr := repr + op.Objects();
    }

    /** Queues a number as a varint; the number is cut to 32 bits. */
    method Uint32(value: int)
      requires Valid()
      modifies this, tail`next
      ensures Valid() && repr > old(repr) && fresh(repr - old(repr))
      ensures ops == old(ops) + [tail] && outer == old(outer) && tail.text == Varint(value % TWO32)
      ensures fresh(tail) && tail.len == |Varint(value % TWO32)| && states == old(states) && head == old(head)
      ensures Current() == old(Current()) + Varint(value % TWO32) && Outer() == old(Outer())
    {
      var v: uint32 := value % TWO32;
      var op := new Op(Number(v), Length32(v), Varint(v));
      Push(op);
    }

    /** Queues a signed 32-bit number; a negative one takes ten bytes. */
    method Int32(value: int)
      requires Valid() && -0x8000_0000 <= value < 0x8000_0000
      modifies this, tail`next
      ensures Valid() && fresh(repr - old(repr))
      ensures Current() == old(Current()) + Varint(TwosComplement(value)) && Outer() == old(Outer())
    {
      hide Valid, Current, Outer, Varint;
      if value < 0 {
        var bits := FromNumber(value as real);
        VarintHasLength(TwosComplement(value));
        PushLong(bits, 10);
      } else {
        Uint32(value);
      }
    }

    /** Queues a signed 32-bit number with its sign in the lowest bit. */
    method Sint32(value: int)
      requires Valid() && -0x8000_0000 <= value < 0x8000_0000
      modifies this, tail`next
      ensures Valid() && fresh(repr - old(repr))
      ensures Current() == old(Current()) + Varint(if value < 0 then -2 * value - 1 else 2 * value) && Outer() == old(Outer())
    {
      hide Valid, Current, Outer, Varint;
      Uint32(if value < 0 then -2 * value - 1 else 2 * value);
    }

    method PushLong(bits: LongBits, len: nat)
      requires Valid() && bits !in repr && bits != this as object && bits.holder == null && len == |Varint(bits.Value())|
      modifies this, tail`next, bits`holder
      ensures Valid() && repr == old(repr) + {tail, bits} && fresh(tail)
      ensures ops == old(ops) + [tail] && tail.payload == Long(bits) && outer == old(outer)
      ensures Current() == old(Current()) + Varint(bits.Value()) && Outer() == old(Outer())
    {
      var op := new Op(Long(bits), len, Varint(bits.Value()));
      bits.holder := op;
      assert op.Objects() == {op, bits};
      Push(op);
    }

    method Uint64(lo: uint32, hi: uint32)
      requires Valid()
      modifies this, tail`next
      ensures Valid() && fresh(repr - old(repr))
      ensures ops == old(ops) + [tail] && tail.payload.Long? && tail.payload.bits.Value() == Value64(lo, hi)
      ensures Current() == old(Current()) + Varint(Value64(lo, hi)) && Outer() == old(Outer())
    {
      hide Valid, Current, Outer, Varint;
      var bits := new LongBits(lo, hi);
      PushLong(bits, Length64(lo, hi));
    }

    method Sint64(lo: uint32, hi: uint32)
      requires Valid()
      modifies this, tail`next
      ensures Valid() && fresh(repr - old(repr))
      ensures Current() == old(Current()) + Varint(ZigZag(Value64(lo, hi))) && Outer() == old(Outer())
    {
      hide Valid, Current, Outer, Varint;
      var bits := new LongBits(lo, hi);
      bits.ZzEncode();
      PushLong(bits, Length64(bits.lo, bits.hi));
    }

    method Bool(value: bool)
      requires Valid()
      modifies this, tail`next
      ensures Valid() && fresh(repr - old(repr))
      ensures Current() == old(Current()) + [if value then 1 else 0] && Outer() == old(Outer())
    {
      var b: byte := if value then 1 else 0;
      var op := new Op(OneByte(b), 1, [b]);
      Push(op);
    }

    method WriteFixed(value: int)
      requires Valid()
      modifies this, tail`next
      ensures Valid() && fresh(repr - old(repr))
      ensures Current() == old(Current()) + Fixed32(value % TWO32) && Outer() == old(Outer())
    {
      var v: uint32 := value % TWO32;
      var op := new Op(Fixed(v), 4, Fixed32(v));
      Push(op);
    }

    /** Queues bytes behind their length; empty bytes are a single zero. */
    method Bytes(value: bytes)
      requires Valid() && |value| < TWO32
      modifies this, tail`next
      ensures Valid() && fresh(repr - old(repr))
      ensures Current() == old(Current()) + Varint(|value|) + value && Outer() == old(Outer())
    {
      hide Valid, Current, Outer, Varint;
      if |value| == 0 {
        var op := new Op(OneByte(0), 1, [0]);
        ZeroVarint();
        Push(op);
        assert Current() == old(Current()) + Varint(|value|) + value;
        return;
      }
      Uint32(|value|);
      var op := new Op(Data(value), |value|, value);
      Push(op);
    }

    /** Queues what a base64 text of whole groups decodes to, in a buffer of the text's length. */
    method BytesOfText(text: seq<nat>) returns (ok: bool)
      requires Valid() && |text| % 4 == 0 && |text| < TWO32
      modifies this, tail`next
      ensures Valid() && fresh(repr - old(repr))
      ensures ok <==> Base64.Decoded(text, 0, 0).Some?
      ensures Outer() == old(Outer())
      ensures !ok ==> Current() == old(Current())
      ensures ok ==>
        var n := Base64.GroupsLength(text);
        Current() == old(Current()) + Varint(n) + Base64.Stored(Zeros(n), 0, Base64.Decoded(text, 0, 0).value)
    {
      hide Valid, Current, Outer, Varint, Base64.Decoded, Base64.Stored, Base64.Padding, Base64.GroupsLength;
      NoText();
      if |text| == 0 {
        Bytes([]);
        return true;
      }
      var size := Base64.Length(text);
      ghost var n := Base64.GroupsLength(text);
      var buf := new byte[size.Floor](_ => 0);
      assert buf[..] == Zeros(n);
      var written := Base64.Decode(text, buf, 0);
      if written.None? {
        return false;
      }
      Bytes(buf[..]);
      return true;
    }

    /** Puts the current list aside and starts an empty one. */
    method Fork()
      requires Valid()
      modifies this
      ensures Valid() && fresh(repr - old(repr))
      ensures Current() == [] && Outer() == [old(Current())] + old(Outer())
    {
      hide Linked, AllLinked, ObjectsOf, AllObjects, LastsDiffer, EndsElsewhere, Aside, Text, Texts;
      states := State(head, tail, len, states);
      var noop := new Op(Nothing, 0, []);
      FirstAside(states, ops, outer);
      FreshList(noop);
      ListAdded(ops, outer, repr, noop);
      head, tail, len := noop, noop, 0;
      outer := [ops] + outer;
      ops := [noop];
      repr := repr + {noop};
    }

    /** Drops the current list and goes back to the one put aside last, or to an empty one. */
    method Reset()
      requires Valid()
      modifies this
      ensures Valid() && repr >= old(repr) && fresh(repr - old(repr))
      ensures old(outer) != [] ==> ops == old(outer)[0] && outer == old(outer)[1..]
      ensures old(outer) == [] ==> |ops| == 1 && fresh(ops[0]) && outer == []
      ensures Current() == (if old(Outer()) == [] then [] else old(Outer())[0])
      ensures Outer() == if old(Outer()) == [] then [] else old(Outer())[1..]
    {
      hide Linked, AllLinked, ObjectsOf, AllObjects, LastsDiffer, EndsElsewhere, Aside, Text, Texts;
      if states.State? {
        ListTaken(states, outer, repr);
        head, tail, len, states := states.head, states.tail, states.len, states.next;
        ops, outer := outer[0], outer[1..];
      } else {
        var noop := new Op(Nothing, 0, []);
        FreshList(noop);
        NothingAside(outer);
        head, tail, len := noop, noop, 0;
        ops := [noop];
        repr := repr + {noop};
      }
    }

    /** Appends a list of its own, without the operation at its head, to the current list. */
    method Splice(h: Op, t: Op, l: nat, ghost inner: seq<Op>)
      requires Valid() && |inner| > 1 && Linked(inner) && ObjectsOf(inner) <= repr
      requires h == inner[0] && t == Last(inner) && l == |Text(inner)|
      requires tail !in inner && EndsElsewhere(outer, t)
      modifies this, tail`next
      ensures Valid() && repr == old(repr)
      ensures Current() == old(Current()) + Text(inner) && Outer() == old(Outer())
    {
      hide AllLinked, AllObjects, EndsElsewhere, LastsDiffer, Aside, Text, Texts, Varint, Op.Writable, Op.Ready;
      EndIsElsewhere(outer, tail);
      LinkedFacts(ops);
      LinkedFacts(inner);
      ghost var before := ops;
      tail.next := h.next;
      Spliced(before, inner, repr);
      tail := t;
      len := len + l;
      ops := ops + inner[1..];
    }

    /** Goes back to the list put aside last and appends what was written since, behind its length. The
        length is cut to 32 bits. */
    method Ldelim()
      requires Valid()
      modifies this, if outer != [] then {Last(outer[0])} else {}
      ensures Valid() && fresh(repr - old(repr))
      ensures
        var before := if old(Outer()) == [] then [] else old(Outer())[0];
        Current() == before + Varint(|old(Current())| % TWO32) + old(Current())
      ensures Outer() == if old(Outer()) == [] then [] else old(Outer())[1..]
    {
      hide AllLinked, AllObjects, EndsElsewhere, LastsDiffer, Aside, Text, Texts, Varint, Op.Writable, Op.Ready;
      var h, t, l := head, tail, len;
      ghost var inner := ops;
      TextOfHead(inner);
      if states.State? {
        ListTaken(states, outer, repr);
        InnerIsApart(inner, outer);
      } else {
        NothingAside(outer);
      }
      Reset();
      assert tail == Last(ops);
      assert tail !in ObjectsOf(inner);
      Uint32(l);
      assert Linked(inner);
      if l != 0 {
        Splice(h, t, l, inner);
      }
    }

    /** What `finish` needs: the current list is in order and every operation has room in the buffer. */
    ghost predicate Finishable()
      reads this, repr
    {
      && this !in repr && ObjectsOf(ops) <= repr && InOrder(ops)
      && head == ops[0] && len == |Text(ops)|
    }

    /** What `finish` will return. */
    ghost function Finished(): bytes
      requires Finishable()
      reads this, repr
    {
      Flat(Parts(ops))
    }

    lemma ValidIsFinishable()
      requires Valid()
      ensures Finishable() && Finished() == Current()
    {
      NumbersAreOwned();
      ReadyParts(ops);
    }

    /** Fills a buffer of exactly the right size with everything in the current list. 64-bit numbers are
        used up: what is left of each is its last seven bits. */
    method Finish() returns (buf: array<byte>)
      requires Finishable()
      modifies Numbers(ops)
      ensures fresh(buf) && buf[..] == old(Finished()) && (old(Valid()) ==> buf[..] == old(Current()))
      ensures Finishable() && Used(ops, old(Dues(ops)), |ops|)
    {
      hide Valid, Linked, InOrder, Chain, AllWritable, Text, Pending, Used, Flat, Parts, Dues, PartsOf, Op.Writable, Zeros;
      ghost var dues := Dues(ops);
      NothingUsed(ops, dues);
      ghost var parts := Parts(ops);
      if Valid() {
        ValidIsFinishable();
      }
      PartsFit(ops, dues, parts);
      buf := new byte[len](_ => 0);
      WriteOperations(ops, head.next, buf, dues, parts);
      AllUsed(ops, dues);
    }
  }

  /** For the encoding of bytes, the text is written as the bytes themselves would be. */
  lemma TextOfEncoding(b: bytes)
    ensures
      var text := Base64.Encoded(b);
      |text| % 4 == 0 && Base64.GroupsLength(text) == |b| && Base64.Decoded(text, 0, 0) == Some(b)
        && Base64.Stored(Zeros(|b|), 0, b) == b
  {
    hide Base64.Encoded, Base64.Decoded, Base64.Stored, Base64.Padding;
    Base64.EncodedShape(b);
    Base64.LengthOfEncoded(b);
    Base64.DecodesEncoded(b, 0);
    Base64.StoredFits(Zeros(|b|), 0, b);
  }

  // ----- Finishing twice -----

  /** Pieces of the same lengths make the same whole iff they are the same. */
  lemma {:induction false} FlatEqualIff(a: seq<bytes>, b: seq<bytes>)
    requires |a| == |b| && forall k :: 0 <= k < |a| ==> |a[k]| == |b[k]|
    ensures |Flat(a)| == |Flat(b)| && (Flat(a) == Flat(b) <==> a == b)
  {
    if a != [] {
      var n := |a| - 1;
      var x, y := Flat(a[..n]), Flat(b[..n]);
      FlatEqualIff(a[..n], b[..n]);
      assert (x + a[n])[..|x|] == x && (x + a[n])[|x|..] == a[n];
      assert (y + b[n])[..|x|] == y && (y + b[n])[|x|..] == b[n];
      assert a == a[..n] + [a[n]] && b == b[..n] + [b[n]];
    }
  }

  /** A used-up number fills its part as before iff it took one byte. */
  lemma FilledAgainIff(v: nat, n: nat)
    requires |Varint(v)| <= n
    ensures |Varint(Last(Varint(v)))| == 1
    ensures Varint(v) + Zeros(n - |Varint(v)|) == Varint(Last(Varint(v))) + Zeros(n - 1) <==> v < 128
  {
    var a, b := Varint(v) + Zeros(n - |Varint(v)|), Varint(Last(Varint(v))) + Zeros(n - 1);
    assert b[0] == Last(Varint(v)) < 128;
    if v >= 128 {
      assert a[0] == Varint(v)[0] >= 128;
    }
  }

  /** The values of the 64-bit numbers in a list. */
  ghost function Values(ops: seq<Op>): (r: seq<nat>)
    reads Numbers(ops)
    ensures |r| == |ops| && forall k :: 0 <= k < |ops| && ops[k].payload.Long? ==> r[k] == ops[k].payload.bits.Value()
  {
    seq(|ops|, k requires 0 <= k < |ops| reads Numbers(ops) => if ops[k].payload.Long? then ops[k].payload.bits.Value() else 0)
  }

  ghost predicate AllSmall(ops: seq<Op>, values: seq<nat>)
    requires |ops| == |values|
  {
    forall k :: 0 <= k < |ops| && ops[k].payload.Long? ==> values[k] < 128
  }

  /** What is due again after the numbers were used up. */
  ghost predicate DueAgain(ops: seq<Op>, values: seq<nat>, dues: seq<bytes>, dues': seq<bytes>) {
    && |ops| == |values| == |dues| == |dues'|
    && forall k :: 0 <= k < |ops| ==>
      if ops[k].payload.Long? then dues[k] == Varint(values[k]) && dues'[k] == Varint(Last(dues[k])) else dues'[k] == dues[k]
  }

  lemma RepeatsIff(
    ops: seq<Op>, values: seq<nat>, dues: seq<bytes>, dues': seq<bytes>, parts: seq<bytes>, parts': seq<bytes>)
    requires DueAgain(ops, values, dues, dues') && PartsOf(ops, dues, parts) && PartsOf(ops, dues', parts')
    ensures Flat(parts) == Flat(parts') <==> AllSmall(ops, values)
  {
    hide Varint, Flat, Zeros;
    FlatEqualIff(parts, parts');
    forall k | 0 <= k < |ops| && ops[k].payload.Long?
      ensures parts[k] == parts'[k] <==> values[k] < 128
    {
      FilledAgainIff(values[k], ops[k].len);
    }
  }

  /** Two calls of `finish` in a row return the same bytes iff every 64-bit number in the list is below
      128. The second call starts from what the first one left. */
  method FinishTwice(w: Writer) returns (first: array<byte>, second: array<byte>)
    requires w.Finishable()
    modifies Numbers(w.ops)
    ensures first[..] == old(w.Finished())
    ensures w.ops == old(w.ops) && (first[..] == second[..] <==> AllSmall(w.ops, old(Values(w.ops))))
  {
    hide Varint, Flat, Text, PartsOf, AllSmall, Writer.Valid, Writer.Current, Op.Writable, Op.Filled, Zeros;
    ghost var ops, values, dues, parts := w.ops, Values(w.ops), Dues(w.ops), Parts(w.ops);
    PartsFit(ops, dues, parts);
    first := w.Finish();
    PartsFit(ops, Dues(ops), Parts(ops));
    RepeatsIff(ops, values, dues, Dues(ops), parts, Parts(ops));
    second := w.Finish();
  }

  lemma VarintOf128()
    ensures Varint(128) == [128, 1] && Varint(1) == [1]
  {
    assert Varint(128) == [Continued(128)] + Varint(1);
  }

  method WriterOf128() returns (w: Writer)
    ensures fresh(w) && fresh(Numbers(w.ops)) && w.Finishable() && w.Finished() == [128, 1]
    ensures |w.ops| == 2 && w.len == 2 && w.ops[1].payload.Long? && w.ops[1].payload.bits.Value() == 128
  {
    hide Writer.Valid, Varint, InOrder, Text;
    w := new Writer();
    w.EndsAreOwned();
    w.Uint64(128, 0);
    VarintOf128();
    w.ValidIsFinishable();
    w.NumbersAreOwned();
    assert w.Current() == [] + Varint(128);
  }

  lemma LeftOf128(w: Writer)
    requires w.Finishable() && |w.ops| == 2 && w.len == 2
    requires w.ops[1].payload.Long? && w.ops[1].payload.bits.Value() == 1
    ensures w.Finished() == [1, 0]
  {
    hide Varint;
    VarintOf128();
    var ops, parts := w.ops, Parts(w.ops);
    assert ops[0].Writable() && ops[1].Writable() && ops[0].text == [];
    FlatLength(ops, parts);
    assert parts[..1] == [parts[0]] && parts[0] == [] + Zeros(0);
    assert Flat(parts) == Flat([parts[0]]) + parts[1] && Flat([parts[0]]) == Flat([]) + parts[0];
    assert parts[1] == [1] + Zeros(1);
  }

  /** For example, a list with the number 128: the second buffer holds what is left of it, and a zero. */
  method FinishTwiceExample() returns (first: array<byte>, second: array<byte>)
    ensures first[..] == [128, 1] && second[..] == [1, 0]
  {
    hide Writer.Finished, Varint, InOrder, Text;
    var w := WriterOf128();
    VarintOf128();
    first := w.Finish();
    LeftOf128(w);
    second := w.Finish();
  }
}
