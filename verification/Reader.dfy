/** Reading the JavaScript wire format from a buffer.

    Reading past the end of the buffer yields `undefined`: its low bits are zero, and it is never less
    than 128. */
module ReaderSide {
  import opened Bits
  import opened Suites
  import opened Varints

  // ----- What there is to read -----

  /** The length of the varint at the start of the data, if it ends within the first k bytes. */
  function End(data: bytes, k: nat): (n: Option<nat>)
    ensures n.Some? ==> 0 < n.value <= k && n.value <= |data| && data[n.value - 1] < 128
    ensures n.Some? ==> forall i :: 0 <= i < n.value - 1 ==> data[i] >= 128
    ensures n.None? ==> forall i :: 0 <= i < k && i < |data| ==> data[i] >= 128
  {
    if k == 0 || data == [] then None
    else if data[0] < 128 then Some(1)
    else
      var n := End(data[1..], k - 1);
      if n.None? then None else Some(n.value + 1)
  }

  /** The byte at an index; past the end its low bits count as zero. */
  function At(data: bytes, i: nat): byte {
    if i < |data| then data[i] else 0
  }

  /** The number that the low seven bits of n bytes from index i on make up. */
  function ValueFrom(data: bytes, i: nat, n: nat): nat
    decreases n
  {
    if n == 0 then 0 else At(data, i) % 128 + 128 * ValueFrom(data, i + 1, n - 1)
  }

  function ValueOf(data: bytes, n: nat): nat {
    ValueFrom(data, 0, n)
  }

  lemma {:induction false} ValueShifts(data: bytes, i: nat, n: nat)
    requires data != []
    ensures ValueFrom(data, i + 1, n) == ValueFrom(data[1..], i, n)
    decreases n
  {
    if n > 0 {
      ValueShifts(data, i + 1, n - 1);
    }
  }

  lemma VarintSplit(v: nat, rest: bytes)
    ensures v < 128 ==> Varint(v) == [v]
    ensures v >= 128 ==>
      |Varint(v)| == |Varint(v / 128)| + 1 && Varint(v) + rest == [Continued(v)] + (Varint(v / 128) + rest)
  {
    if v >= 128 {
      assert Varint(v) == [Continued(v)] + Varint(v / 128);
    }
  }

  lemma VarintStops(b: byte, rest: bytes, k: nat)
    requires b < 128 && k > 0
    ensures End([b] + rest, k) == Some(1) && ValueOf([b] + rest, 1) == b
  {
    assert ValueOf([b] + rest, 1) == At([b] + rest, 0) % 128 + 128 * ValueFrom([b] + rest, 1, 0);
  }

  lemma VarintContinues(tail: bytes, n: nat, k: nat, b: byte)
    requires b >= 128 && 0 < k && End(tail, k - 1) == Some(n)
    ensures End([b] + tail, k) == Some(n + 1) && ValueOf([b] + tail, n + 1) == b % 128 + 128 * ValueOf(tail, n)
  {
    var data := [b] + tail;
    assert data[1..] == tail;
    ValueShifts(data, 0, n);
  }

  /** A varint at the start of the data is recognized and has its value. */
  lemma {:induction false} VarintIsRead(v: nat, rest: bytes, k: nat)
    requires |Varint(v)| <= k
    ensures End(Varint(v) + rest, k) == Some(|Varint(v)|)
    ensures ValueOf(Varint(v) + rest, |Varint(v)|) == v
  {
    hide End, ValueOf, Varint;
    VarintSplit(v, rest);
    if v < 128 {
      VarintStops(v, rest, k);
    } else {
      VarintIsRead(v / 128, rest, k - 1);
      VarintContinues(Varint(v / 128) + rest, |Varint(v / 128)|, k, Continued(v));
    }
  }

  /** The low seven bits at an index. */
  function Low(data: bytes, i: nat): (r: nat)
    ensures r < 128
  {
    At(data, i) % 128
  }

  /** Whether the byte at an index is the last one of a varint. */
  predicate Last(data: bytes, i: nat) {
    i < |data| && data[i] < 128
  }

  function Power128(n: nat): (p: nat)
    ensures p > 0
  {
    if n == 0 then 1 else 128 * Power128(n - 1)
  }

  lemma Powers()
    ensures Power128(0) == 1 && Power128(1) == 0x80 && Power128(2) == 0x4000 && Power128(3) == 0x20_0000
    ensures Power128(4) == 0x1000_0000 && Power128(5) == 0x8_0000_0000 && Power128(6) == 0x400_0000_0000
    ensures Power128(7) == 0x2_0000_0000_0000 && Power128(8) == 0x100_0000_0000_0000
    ensures Power128(9) == 0x8000_0000_0000_0000
  {
    assert Power128(4) == 0x1000_0000;
    assert Power128(7) == 0x2_0000_0000_0000;
  }

  lemma {:induction false} ValueBelow(data: bytes, i: nat, n: nat)
    ensures ValueFrom(data, i, n) < Power128(n)
    decreases n
  {
    if n > 0 {
      ValueBelow(data, i + 1, n - 1);
    }
  }

  /** One more byte at the back adds its low bits at their place. */
  lemma {:induction false} ValueGrows(data: bytes, i: nat, n: nat)
    ensures ValueFrom(data, i, n + 1) == ValueFrom(data, i, n) + Low(data, i + n) * Power128(n)
    decreases n
  {
    if n == 0 {
      assert ValueFrom(data, i, 1) == At(data, i) % 128 + 128 * ValueFrom(data, i + 1, 0);
    } else {
      ValueGrows(data, i + 1, n - 1);
      var l, p := Low(data, i + n), Power128(n - 1);
      assert l * (128 * p) == 128 * (l * p);
    }
  }

  // ----- Reading as a function of the data -----

  /** What a read yields and by how much it moves the position, or an error. */
  datatype Read<T> = Read(value: T, used: nat) | Failed

  /** A 32-bit read drops what does not fit, and skips five more bytes of a longer varint unseen. */
  function ReadUint32(data: bytes): (r: Read<uint32>)
    ensures r.Read? ==> 0 < r.used <= |data|
  {
    var n := End(data, 5);
    if n.Some? then Read(ValueOf(data, n.value) % TWO32, n.value)
    else if |data| >= 10 then Read(ValueOf(data, 5) % TWO32, 10)
    else Failed
  }

  /** A 64-bit read takes up to ten bytes. With three or four bytes left, all of them marked as
      continued, it stops after four and returns what it has. */
  function ReadLong(data: bytes): Read<nat> {
    var n := End(data, 10);
    if n.Some? then Read(ValueOf(data, n.value) % TWO64, n.value)
    else if 3 <= |data| <= 4 then Read(ValueOf(data, 4) % TWO64, 4)
    else Failed
  }

  /** A read of length-delimited bytes. */
  function ReadBytes(data: bytes): Read<bytes> {
    var length := ReadUint32(data);
    if length.Failed? then Failed
    else if length.used + length.value > |data| then Failed
    else Read(data[length.used..length.used + length.value], length.used + length.value)
  }

  // ----- The reader -----

  lemma ValuesUpTo5(data: bytes)
    ensures ValueOf(data, 1) == Low(data, 0)
    ensures ValueOf(data, 2) == Low(data, 0) + Low(data, 1) * 0x80
    ensures ValueOf(data, 3) == Low(data, 0) + Low(data, 1) * 0x80 + Low(data, 2) * 0x4000
    ensures ValueOf(data, 4) == Low(data, 0) + Low(data, 1) * 0x80 + Low(data, 2) * 0x4000 + Low(data, 3) * 0x20_0000
    ensures ValueOf(data, 5) == ValueOf(data, 4) + Low(data, 4) * 0x1000_0000
  {
    Powers();
    ValueGrows(data, 0, 0);
    ValueGrows(data, 0, 1);
    ValueGrows(data, 0, 2);
    ValueGrows(data, 0, 3);
    ValueGrows(data, 0, 4);
  }

  /** The end of a varint is the first byte that is last. */
  lemma EndAt(data: bytes, k: nat, n: nat)
    requires 0 < n <= k && Last(data, n - 1) && forall i :: 0 <= i < n - 1 ==> !Last(data, i)
    ensures End(data, k) == Some(n)
  {
    forall i | 0 <= i < n - 1
      ensures data[i] >= 128
    {
      assert !Last(data, i);
    }
  }

  /** The values as 32-bit numbers. */
  lemma ValuesUpTo5Mod32(data: bytes)
    ensures ValueOf(data, 1) % TWO32 == Low(data, 0)
    ensures ValueOf(data, 2) % TWO32 == Low(data, 0) + Low(data, 1) * 0x80
    ensures ValueOf(data, 3) % TWO32 == Low(data, 0) + Low(data, 1) * 0x80 + Low(data, 2) * 0x4000
    ensures ValueOf(data, 4) % TWO32 == Low(data, 0) + Low(data, 1) * 0x80 + Low(data, 2) * 0x4000 + Low(data, 3) * 0x20_0000
    ensures ValueOf(data, 5) % TWO32 == ValueOf(data, 4) % TWO32 + Low(data, 4) % 16 * 0x1000_0000
  {
    hide ValueOf, Low;
    ValuesUpTo5(data);
  }

  /** Where a varint of at most five bytes ends. */
  lemma LastsAreRead(data: bytes)
    ensures End(data, 5) ==
      if Last(data, 0) then Some(1) else if Last(data, 1) then Some(2) else if Last(data, 2) then Some(3)
      else if Last(data, 3) then Some(4) else if Last(data, 4) then Some(5) else None
  {
    hide End;
    if Last(data, 0) {
      EndAt(data, 5, 1);
    } else if Last(data, 1) {
      EndAt(data, 5, 2);
    } else if Last(data, 2) {
      EndAt(data, 5, 3);
    } else if Last(data, 3) {
      EndAt(data, 5, 4);
    } else if Last(data, 4) {
      EndAt(data, 5, 5);
    }
  }

  lemma Uint32Cases(data: bytes)
    ensures ReadUint32(data) ==
      var l0, l1, l2, l3, l4 := Low(data, 0), Low(data, 1), Low(data, 2), Low(data, 3), Low(data, 4);
      if Last(data, 0) then Read(l0, 1)
      else if Last(data, 1) then Read(l0 + l1 * 0x80, 2)
      else if Last(data, 2) then Read(l0 + l1 * 0x80 + l2 * 0x4000, 3)
      else if Last(data, 3) then Read(l0 + l1 * 0x80 + l2 * 0x4000 + l3 * 0x20_0000, 4)
      else if Last(data, 4) then Read(l0 + l1 * 0x80 + l2 * 0x4000 + l3 * 0x20_0000 + l4 % 16 * 0x1000_0000, 5)
      else if |data| >= 10 then Read(l0 + l1 * 0x80 + l2 * 0x4000 + l3 * 0x20_0000 + l4 % 16 * 0x1000_0000, 10)
      else Failed
  {
    hide ValueOf, End, Low, Last;
    ValuesUpTo5Mod32(data);
    LastsAreRead(data);
  }

  /** Seven bits at a time, `|` adds. */
  lemma OrsAreSums(l0: nat, l1: nat, l2: nat, l3: nat, l4: nat)
    requires l0 < 128 && l1 < 128 && l2 < 128 && l3 < 128 && l4 < 16
    ensures Or(l0, l1 * 0x80) == l0 + l1 * 0x80
    ensures Or(l0 + l1 * 0x80, l2 * 0x4000) == l0 + l1 * 0x80 + l2 * 0x4000
    ensures Or(l0 + l1 * 0x80 + l2 * 0x4000, l3 * 0x20_0000) == l0 + l1 * 0x80 + l2 * 0x4000 + l3 * 0x20_0000
    ensures
      Or(l0 + l1 * 0x80 + l2 * 0x4000 + l3 * 0x20_0000, l4 * 0x1000_0000)
        == l0 + l1 * 0x80 + l2 * 0x4000 + l3 * 0x20_0000 + l4 * 0x1000_0000
  {
    hide Or, Power2;
    Powers2();
    OrIsSum(l0, l1 * 0x80, 7);
    OrIsSum(l0 + l1 * 0x80, l2 * 0x4000, 14);
    OrIsSum(l0 + l1 * 0x80 + l2 * 0x4000, l3 * 0x20_0000, 21);
    OrIsSum(l0 + l1 * 0x80 + l2 * 0x4000 + l3 * 0x20_0000, l4 * 0x1000_0000, 28);
  }

  // ----- The halves of a long value -----

  function Lo(data: bytes, n: nat): uint32 { ValueOf(data, n) % TWO32 }

  function Hi(data: bytes, n: nat): uint32 { ValueOf(data, n) / TWO32 % TWO32 }

  lemma Remainder(v: nat, k: nat, r: nat)
    requires v == TWO64 * k + r && r < TWO64
    ensures v % TWO64 == r
  {
  }

  lemma HalvesMakeValue(data: bytes, n: nat)
    ensures Value64(Lo(data, n), Hi(data, n)) == ValueOf(data, n) % TWO64
  {
    var v := ValueOf(data, n);
    assert v == TWO32 * (v / TWO32) + v % TWO32;
    assert v / TWO32 == TWO32 * (v / TWO32 / TWO32) + v / TWO32 % TWO32;
    assert v == TWO64 * (v / TWO32 / TWO32) + Value64(Lo(data, n), Hi(data, n));
    Remainder(v, v / TWO32 / TWO32, Value64(Lo(data, n), Hi(data, n)));
  }

  /** x << k >>> 0 */
  function ShiftLeft(x: nat, k: nat): uint32 { x * Power2(k) % TWO32 }

  /** The places of the bytes in the number and in its halves. */
  lemma Places(i: nat)
    ensures i <= 4 ==> Power128(i) == Power2(i * 7) <= 0x1000_0000
    ensures i < 4 ==> Power128(i + 1) <= 0x1000_0000
    ensures i < 5 ==> Power128(5 + i) == Power2(i * 7 + 3) * TWO32 && Power2(i * 7 + 3) <= 0x8000_0000
    ensures i < 4 ==> Power2(i * 7 + 3) <= 0x100_0000
    ensures i <= 4 ==> Power2(i * 7) * (TWO32 / Power2(i * 7)) == TWO32
    ensures i < 5 ==> Power2(i * 7 + 3) * (TWO32 / Power2(i * 7 + 3)) == TWO32
  {
    hide Power128, Power2;
    Powers();
    Powers2();
    if i == 0 {
    } else if i == 1 {
    } else if i == 2 {
    } else if i == 3 {
    } else if i == 4 {
    }
  }

  lemma Small(x: nat)
    requires x < TWO32
    ensures x % TWO32 == x && x / TWO32 == 0
  {
  }

  lemma LowSum(data: bytes, i: nat)
    requires i < 4
    ensures Lo(data, i) + ShiftLeft(Low(data, i), i * 7) == Lo(data, i + 1) && Hi(data, i) == Hi(data, i + 1) == 0
    ensures Lo(data, i) < Power2(i * 7)
  {
    hide Low, Power128, Power2, ValueFrom;
    Places(i);
    ValueGrows(data, 0, i);
    ValueBelow(data, 0, i);
    ValueBelow(data, 0, i + 1);
    Small(ValueOf(data, i));
    Small(ValueOf(data, i + 1));
    Small(Low(data, i) * Power2(i * 7));
  }

  /** The first four bytes fill the low half from below. */
  lemma LowStep(data: bytes, i: nat)
    requires i < 4
    ensures Or(Lo(data, i), ShiftLeft(Low(data, i), i * 7)) == Lo(data, i + 1) && Hi(data, i) == Hi(data, i + 1) == 0
  {
    hide Lo, Hi, Low, Power2, Or;
    LowSum(data, i);
    Places(i);
    OrOfShifted(Lo(data, i), Low(data, i), Power2(i * 7), TWO32 / Power2(i * 7), i * 7);
  }

  lemma MiddleParts(v: nat, l: nat)
    requires v < 0x1000_0000 && l < 128
    ensures v % TWO32 + l * 0x1000_0000 % TWO32 == (v + l * 0x1000_0000) % TWO32
    ensures l / 16 == (v + l * 0x1000_0000) / TWO32 % TWO32
  {
    assert l * 0x1000_0000 == TWO32 * (l / 16) + l % 16 * 0x1000_0000;
  }

  lemma MiddleSum(data: bytes)
    ensures Lo(data, 4) + ShiftLeft(Low(data, 4), 28) == Lo(data, 5) && Low(data, 4) / 16 == Hi(data, 5)
    ensures Lo(data, 4) < 0x1000_0000 && Hi(data, 4) == 0
  {
    hide Power128, Power2, Low;
    Powers();
    Powers2();
    ValueGrows(data, 0, 4);
    ValueBelow(data, 0, 4);
    var v, l := ValueOf(data, 4), Low(data, 4);
    Small(v);
    assert ValueOf(data, 5) == v + l * 0x1000_0000;
    MiddleParts(v, l);
  }

  /** The fifth byte is shared by both halves. */
  lemma MiddleStep(data: bytes)
    ensures Or(Lo(data, 4), ShiftLeft(Low(data, 4), 28)) == Lo(data, 5)
    ensures Hi(data, 4) == 0 && Or(0, Low(data, 4) / 16) == Hi(data, 5)
  {
    hide Lo, Hi, Low, Power2;
    MiddleSum(data);
    Powers2();
    OrOfShifted(Lo(data, 4), Low(data, 4), 0x1000_0000, 16, 28);
  }

  lemma NoCarry(a: nat, w: nat, c: nat)
    requires a < c <= 0x100_0000 && w <= 127 * c
    ensures a % TWO32 + w % TWO32 == (a + w) % TWO32
  {
  }

  lemma LastBit(a: nat, l: nat)
    requires a < 0x8000_0000
    ensures a % TWO32 + l * 0x8000_0000 % TWO32 == (a + l * 0x8000_0000) % TWO32
  {
    assert l * 0x8000_0000 == TWO32 * (l / 2) + l % 2 * 0x8000_0000;
  }

  lemma HighParts(v: nat, w: nat)
    ensures (v + w * TWO32) % TWO32 == v % TWO32 && (v + w * TWO32) / TWO32 == v / TWO32 + w
  {
  }

  /** The high half of a number and seven bits shifted there, of which the last ones may drop out. */
  lemma HighSum(v: nat, l: nat, c: nat, w: nat)
    requires v / TWO32 < c && w <= 127 * c && (c <= 0x100_0000 || (c == 0x8000_0000 && w == l * 0x8000_0000))
    ensures v / TWO32 % TWO32 + w % TWO32 == (v + w * TWO32) / TWO32 % TWO32
    ensures (v + w * TWO32) % TWO32 == v % TWO32
  {
    HighParts(v, w);
    if c <= 0x100_0000 {
      NoCarry(v / TWO32, w, c);
    } else {
      LastBit(v / TWO32, l);
    }
  }

  lemma HighPlace(v: nat, l: nat, c: nat)
    ensures l * (c * TWO32) == l * c * TWO32
    ensures v < c * TWO32 ==> v / TWO32 < c
  {
  }

  lemma AtMost(l: nat, c: nat)
    requires l <= 127
    ensures l * c <= 127 * c
  {
  }

  lemma HighStepSum(data: bytes, i: nat)
    requires i < 5
    ensures Hi(data, 5 + i) + ShiftLeft(Low(data, 5 + i), i * 7 + 3) == Hi(data, 6 + i) && Lo(data, 6 + i) == Lo(data, 5 + i)
    ensures Hi(data, 5 + i) < Power2(i * 7 + 3)
  {
    hide Low, Power128, Power2, ValueFrom;
    Places(i);
    ValueGrows(data, 0, 5 + i);
    ValueBelow(data, 0, 5 + i);
    Powers2();
    var v, l, c := ValueOf(data, 5 + i), Low(data, 5 + i), Power2(i * 7 + 3);
    HighPlace(v, l, c);
    AtMost(l, c);
    HighSum(v, l, c, l * c);
    Small(v / TWO32);
  }

  /** The other five go to the high half; all but the lowest bit of the last one is dropped. */
  lemma HighStep(data: bytes, i: nat)
    requires i < 5
    ensures Or(Hi(data, 5 + i), ShiftLeft(Low(data, 5 + i), i * 7 + 3)) == Hi(data, 6 + i) && Lo(data, 6 + i) == Lo(data, 5 + i)
  {
    hide Lo, Hi, Low, Power2, Or;
    HighStepSum(data, i);
    Places(i);
    var p := Power2(i * 7 + 3);
    OrOfShifted(Hi(data, 5 + i), Low(data, 5 + i), p, TWO32 / p, i * 7 + 3);
  }

  /** No byte before index n ends a varint. */
  ghost predicate Unended(data: bytes, n: nat) {
    forall j :: 0 <= j < n ==> !Last(data, j)
  }

  /** A varint whose last byte is number n. */
  lemma LongEnds(data: bytes, n: nat)
    requires 0 < n <= 10 && Last(data, n - 1) && Unended(data, n - 1)
    ensures ReadLong(data) == Read(Value64(Lo(data, n), Hi(data, n)), n)
  {
    hide ValueOf, Lo, Hi;
    EndAt(data, 10, n);
    HalvesMakeValue(data, n);
  }

  lemma LongDoesNotEnd(data: bytes)
    requires Unended(data, 10)
    ensures ReadLong(data) ==
      if 3 <= |data| <= 4 then Read(Value64(Lo(data, 4), Hi(data, 4)), 4) else Failed
  {
    hide ValueOf, Lo, Hi;
    HalvesMakeValue(data, 4);
    var n := End(data, 10);
    assert n.Some? ==> Last(data, n.value - 1);
  }

  lemma LongIsReadIff(data: bytes)
    ensures ReadLong(data).Read? <==> End(data, 10).Some? || 3 <= |data| <= 4
  {
    hide ValueOf, End;
  }

  datatype Progress = Finished | OutOfRange | Unfinished

  lemma NoBytes(data: bytes)
    ensures Lo(data, 0) == 0 && Hi(data, 0) == 0
  {
  }

  /** Past the end of the data nothing ends a varint. */
  lemma UnendedToEnd(data: bytes, n: nat)
    requires Unended(data, n) && |data| <= n
    ensures Unended(data, 10)
  {
  }

  class Reader {
    const buf: bytes
    var pos: nat

    constructor (buf: bytes)
      ensures this.buf == buf && pos == 0
    {
      this.buf, pos := buf, 0;
    }

    /** What is left to read. */
    function Rest(): bytes
      reads this
    {
      if pos <= |buf| then buf[pos..] else []
    }

    lemma RestFrom(i: nat)
      ensures Low(Rest(), i) == Low(buf, pos + i) && Last(Rest(), i) == Last(buf, pos + i)
    {
    }

    /** The low bits of the byte at the position, and whether that byte ends a varint; then the
        position moves on. */
    method Next() returns (low: nat, last: bool)
      modifies this
      ensures pos == old(pos) + 1 && low == Low(buf, old(pos)) && last == Last(buf, old(pos))
    {
      low, last := Low(buf, pos), Last(buf, pos);
      pos := pos + 1;
    }

    method Uint32() returns (r: Read<uint32>)
      modifies this
      ensures r == old(ReadUint32(Rest()))
      ensures pos == if r.Read? then old(pos) + r.used else |buf|
    {
      hide ReadUint32, Low, Last, Or;
      OrsAreSums(Low(buf, pos), Low(buf, pos + 1), Low(buf, pos + 2), Low(buf, pos + 3), Low(buf, pos + 4) % 16);
      RestFrom(0); RestFrom(1); RestFrom(2); RestFrom(3); RestFrom(4);
      Uint32Cases(Rest());
      var value: nat;
      var low, last := Next();
      value := low;
      if last { return Read(value, 1); }
      low, last := Next();
      value := Or(value, low * 0x80);
      if last { return Read(value, 2); }
      low, last := Next();
      value := Or(value, low * 0x4000);
      if last { return Read(value, 3); }
      low, last := Next();
      value := Or(value, low * 0x20_0000);
      if last { return Read(value, 4); }
      low, last := Next();
      value := Or(value, low % 16 * 0x1000_0000);
      if last { return Read(value, 5); }
      pos := pos + 5;
      if pos > |buf| {
        pos := |buf|;
        return Failed;
      }
      return Read(value, 10);
    }

    /** The first five bytes of a long varint: four fill the low half, the fifth is shared. Within
        four bytes of the end, reads are checked, except for the fourth, which always finishes. */
    method ReadLow(bits: LongBits, ghost data: bytes, ghost start: nat) returns (step: Progress)
      requires bits.lo == 0 && bits.hi == 0 && pos == start && data == Rest()
      modifies this, bits
      ensures match step
        case Finished => pos > start && ReadLong(data) == Read(bits.Value(), pos - start)
        case OutOfRange => ReadLong(data) == Failed
        case Unfinished =>
          && |data| > 4 && pos == start + 5 && Unended(data, 5) && bits.lo == Lo(data, 5) && bits.hi == Hi(data, 5)
    {
      hide ReadLong, Low, Last, Lo, Hi, ShiftLeft, Value64, End, Or;
      NoBytes(data);
      var low, last, i := 0, false, 0;
      if |buf| - pos > 4 {
        while i < 4
          invariant 0 <= i <= 4 && pos == start + i && Unended(data, i)
          invariant bits.lo == Lo(data, i) && bits.hi == Hi(data, i)
        {
          RestAt(data, start, i);
          LowStep(data, i);
          low, last := Next();
          bits.lo := Or(bits.lo, ShiftLeft(low, i * 7));
          if last {
            LongEnds(data, i + 1);
            return Finished;
          }
          i := i + 1;
        }
        RestAt(data, start, 4);
        MiddleStep(data);
        low, last := Next();
        bits.lo := Or(bits.lo, ShiftLeft(low, 28));
        bits.hi := Or(bits.hi, low / 16);
        if last {
          LongEnds(data, 5);
          return Finished;
        }
        return Unfinished;
      } else {
        while i < 3
          invariant 0 <= i <= 3 && pos == start + i && i <= |data| && Unended(data, i)
          invariant bits.lo == Lo(data, i) && bits.hi == Hi(data, i)
        {
          if pos >= |buf| {
            UnendedToEnd(data, i);
            LongDoesNotEnd(data);
            return OutOfRange;
          }
          RestAt(data, start, i);
          LowStep(data, i);
          low, last := Next();
          bits.lo := Or(bits.lo, ShiftLeft(low, i * 7));
          if last {
            LongEnds(data, i + 1);
            return Finished;
          }
          i := i + 1;
        }
        RestAt(data, start, 3);
        LowStep(data, 3);
        low, last := Next();
        bits.lo := Or(bits.lo, ShiftLeft(low, i * 7));
        if last {
          LongEnds(data, 4);
        } else {
          UnendedToEnd(data, 4);
          LongDoesNotEnd(data);
        }
        return Finished;
      }
    }

    /** The other five bytes, which go to the high half, checked within four bytes of the end. */
    method ReadHigh(bits: LongBits, ghost data: bytes, ghost start: nat) returns (step: Progress)
      requires start <= |buf| && data == buf[start..] && |data| > 4 && pos == start + 5 && Unended(data, 5)
      requires bits.lo == Lo(data, 5) && bits.hi == Hi(data, 5)
      modifies this, bits
      ensures step.Finished? ==> pos > start && ReadLong(data) == Read(bits.Value(), pos - start)
      ensures step.OutOfRange? ==> ReadLong(data) == Failed
      ensures step.Unfinished? ==> ReadLong(data) == Failed
    {
      hide ReadLong, Low, Last, Lo, Hi, ShiftLeft, Value64, End, Or;
      var low, last, i := 0, false, 0;
      if |buf| - pos > 4 {
        while i < 5
          invariant 0 <= i <= 5 && pos == start + 5 + i && Unended(data, 5 + i)
          invariant bits.lo == Lo(data, 5 + i) && bits.hi == Hi(data, 5 + i)
        {
          RestAt(data, start, 5 + i);
          HighStep(data, i);
          low, last := Next();
          bits.hi := Or(bits.hi, ShiftLeft(low, i * 7 + 3));
          if last {
            LongEnds(data, 6 + i);
            return Finished;
          }
          i := i + 1;
        }
      } else {
        while i < 5
          invariant 0 <= i <= 5 && pos == start + 5 + i && Unended(data, 5 + i)
          invariant bits.lo == Lo(data, 5 + i) && bits.hi == Hi(data, 5 + i)
        {
          if pos >= |buf| {
            UnendedToEnd(data, 5 + i);
            LongDoesNotEnd(data);
            return OutOfRange;
          }
          RestAt(data, start, 5 + i);
          HighStep(data, i);
          low, last := Next();
          bits.hi := Or(bits.hi, ShiftLeft(low, i * 7 + 3));
          if last {
            LongEnds(data, 6 + i);
            return Finished;
          }
          i := i + 1;
        }
      }
      LongDoesNotEnd(data);
      return Unfinished;
    }

    method ReadLongVarint() returns (ok: bool, bits: LongBits)
      modifies this
      ensures fresh(bits)
      ensures ok <==> old(End(Rest(), 10).Some? || 3 <= |Rest()| <= 4)
      ensures ok <==> old(ReadLong(Rest())).Read?
      ensures ok ==> bits.Value() == old(ReadLong(Rest())).value && pos == old(pos + ReadLong(Rest()).used)
    {
      hide ReadLong;
      ghost var data, start := Rest(), pos;
      LongIsReadIff(data);
      bits := new LongBits(0, 0);
      var step := ReadLow(bits, data, start);
      if step.Unfinished? {
        step := ReadHigh(bits, data, start);
      }
      ok := step.Finished?;
    }

    method Bytes() returns (r: Read<bytes>)
      modifies this
      ensures r == old(ReadBytes(Rest()))
      ensures r.Read? ==> pos == old(pos) + r.used
    {
      hide ReadUint32;
      ghost var data := Rest();
      var length := Uint32();
      if length.Failed? {
        return Failed;
      }
      var start, end := pos, pos + length.value;
      if end > |buf| {
        return Failed;
      }
      pos := pos + length.value;
      SliceOfRest(data, old(pos), length.used, length.value);
      return Read(buf[start..end], length.used + length.value);
    }

    lemma SliceOfRest(data: bytes, start: nat, used: nat, n: nat)
      requires start <= |buf| && data == buf[start..] && start + used + n <= |buf|
      ensures buf[start + used..start + used + n] == data[used..used + n]
    {
    }

    lemma RestAt(data: bytes, start: nat, i: nat)
      requires data == if start <= |buf| then buf[start..] else []
      ensures Low(data, i) == Low(buf, start + i) && Last(data, i) == Last(buf, start + i)
    {
    }
  }

  // ----- What was written is read back -----

  /** An unsigned number is read back from any position, whatever follows. */
  lemma Uint32RoundTrip(v: uint32, rest: bytes)
    ensures ReadUint32(Varint(v) + rest) == Read(v, Length32(v))
  {
    hide Varint, End, ValueOf;
    VarintHasLength(v);
    VarintIsRead(v, rest, 5);
  }

  /** So are both halves of a 64-bit number, on the checked and on the unchecked route. */
  lemma LongRoundTrip(lo: uint32, hi: uint32, rest: bytes)
    ensures ReadLong(Varint(Value64(lo, hi)) + rest) == Read(Value64(lo, hi), Length64(lo, hi))
  {
    hide Value64, Varint, End, ValueOf;
    VarintHasLength(Value64(lo, hi));
    VarintIsRead(Value64(lo, hi), rest, 10);
  }

  /** A zig-zag encoded number is read back through the inverse of the encoding. */
  lemma Sint64RoundTrip(lo: uint32, hi: uint32, rest: bytes)
    ensures
      var v := Value64(lo, hi);
      var r := ReadLong(Varint(ZigZag(v)) + rest);
      r.Read? && r.value < TWO64 && UnZigZag(r.value) == v && r.used == |Varint(ZigZag(v))|
  {
    hide Varint, End, ValueOf, Value64, ZigZag, UnZigZag;
    var w := ZigZag(Value64(lo, hi));
    ZigZagInverts(Value64(lo, hi));
    VarintHasLength(w);
    VarintIsRead(w, rest, 10);
  }

  lemma BytesRoundTrip(x: bytes, rest: bytes)
    requires |x| < TWO32
    ensures ReadBytes(Varint(|x|) + x + rest) == Read(x, |Varint(|x|)| + |x|)
  {
    var head := Varint(|x|);
    assert head + x + rest == head + (x + rest);
    Uint32RoundTrip(|x|, x + rest);
    assert (head + (x + rest))[|head|..|head| + |x|] == x;
  }

  /** A number as JavaScript's `| 0` reads it. */
  function Signed(u: uint32): (v: int)
    ensures -0x8000_0000 <= v < 0x8000_0000
  {
    if u >= 0x8000_0000 then u - TWO32 else u
  }

  /** The bytes that the writer produces for a signed 32-bit number: ten for a negative one. */
  function Int32Bytes(value: int): bytes
    requires -0x8000_0000 <= value < 0x8000_0000
  {
    Varint(TwosComplement(value))
  }

  lemma NoEndBefore(data: bytes, v: nat, rest: bytes)
    requires data == Varint(v) + rest && |Varint(v)| > 5
    ensures End(data, 5) == None
  {
    assert forall i :: 0 <= i < 5 ==> data[i] == Varint(v)[i] >= 128;
  }

  lemma FirstFive(data: bytes)
    ensures ValueOf(data, 10) == ValueOf(data, 5) + 0x8_0000_0000 * ValueFrom(data, 5, 5)
  {
    var x := ValueFrom(data, 5, 5);
    assert ValueFrom(data, 4, 6) == At(data, 4) % 128 + 128 * x;
    assert ValueFrom(data, 4, 1) == At(data, 4) % 128 + 128 * ValueFrom(data, 5, 0);
    assert ValueFrom(data, 3, 7) == ValueFrom(data, 3, 2) + 16384 * x;
    assert ValueFrom(data, 2, 8) == ValueFrom(data, 2, 3) + 2097152 * x;
    assert ValueFrom(data, 1, 9) == ValueFrom(data, 1, 4) + 268435456 * x;
  }

  lemma LowBits(v: nat, low: nat, x: nat)
    requires v == low + 0x8_0000_0000 * x
    ensures low % TWO32 == v % TWO32
  {
    HighParts(low, 8 * x);
  }

  /** A 32-bit read of a ten-byte varint yields its low bits. */
  lemma NegativeIsRead(v: nat, rest: bytes)
    requires 0x8000_0000_0000_0000 <= v < TWO64
    ensures ReadUint32(Varint(v) + rest) == Read(v % TWO32, 10) && |Varint(v)| == 10
  {
    hide Varint, End, ValueOf, ValueFrom;
    var data := Varint(v) + rest;
    VarintHasLength(v);
    VarintIsRead(v, rest, 10);
    NoEndBefore(data, v, rest);
    FirstFive(data);
    LowBits(v, ValueOf(data, 5), ValueFrom(data, 5, 5));
  }

  /** The 32-bit read takes a ten-byte negative number for what it is. */
  lemma Int32RoundTrip(value: int, rest: bytes)
    requires -0x8000_0000 <= value < 0x8000_0000
    ensures
      var r := ReadUint32(Int32Bytes(value) + rest);
      r.Read? && Signed(r.value) == value && r.used == |Int32Bytes(value)|
  {
    hide Varint, End, ValueOf;
    var v := TwosComplement(value);
    if value >= 0 {
      Uint32RoundTrip(v, rest);
    } else {
      NegativeIsRead(v, rest);
    }
  }

  /** The bytes that the writer produces for a zig-zag encoded signed 32-bit number. */
  function Sint32Bytes(value: int): bytes
    requires -0x8000_0000 <= value < 0x8000_0000
  {
    Varint(if value < 0 then -2 * value - 1 else 2 * value)
  }

  /** value >>> 1 ^ -(value & 1) | 0 */
  function FromZigZag32(u: uint32): int {
    Signed(Masked(u / 2, u % 2 == 1))
  }

  lemma Sint32RoundTrip(value: int, rest: bytes)
    requires -0x8000_0000 <= value < 0x8000_0000
    ensures
      var r := ReadUint32(Sint32Bytes(value) + rest);
      r.Read? && FromZigZag32(r.value) == value && r.used == |Sint32Bytes(value)|
  {
    hide Varint, ReadUint32;
    Uint32RoundTrip(if value < 0 then -2 * value - 1 else 2 * value, rest);
    if value < 0 {
      assert -2 * value - 1 == 2 * (-value - 1) + 1;
    }
  }

  lemma NextPower(k: nat)
    ensures Power128(k + 1) == 128 * Power128(k)
  {
  }

  lemma ValueOfBoth(b: byte, tail: bytes, n: nat)
    requires n > 0
    ensures ValueOf([b] + tail, n) == b % 128 + 128 * ValueOf(tail, n - 1)
  {
    assert ([b] + tail)[1..] == tail;
    ValueShifts([b] + tail, 0, n - 1);
  }

  lemma {:induction false} NoValue(i: nat, n: nat)
    ensures ValueFrom([], i, n) == 0 && (i == 0 ==> ValueOf([], n) == 0)
    decreases n
  {
    if n > 0 {
      NoValue(i + 1, n - 1);
    }
  }

  lemma RemainderOfProduct(v: nat, p: nat)
    requires p > 0
    ensures v % (128 * p) == v % 128 + 128 * (v / 128 % p)
  {
    var w := v / 128;
    var a, r := w / p, w % p;
    assert w == p * a + r;
    assert 128 * (p * a) == 128 * p * a;
    UniqueRemainder(v, 128 * p, a, v % 128 + 128 * r);
  }

  /** Bytes that are missing count as zero. */
  lemma {:induction false} CutValue(v: nat, k: nat, n: nat)
    requires k < |Varint(v)| && k <= n
    ensures ValueOf(Varint(v)[..k], n) == v % Power128(k)
    decreases k
  {
    hide ValueFrom, ValueOf, Varint, Power128, Continued;
    Powers();
    if k == 0 {
      NoValue(0, n);
    } else {
      VarintSplit(v, []);
      var tail, p := Varint(v / 128)[..k - 1], Power128(k - 1);
      assert Varint(v)[..k] == [Continued(v)] + tail by {
        assert Varint(v) == Varint(v) + [] == [Continued(v)] + (Varint(v / 128) + []);
      }
      CutValue(v / 128, k - 1, n - 1);
      ValueOfBoth(Continued(v), tail, n);
      NextPower(k - 1);
      RemainderOfProduct(v, p);
    }
  }

  /** A varint that is cut off after k bytes at the end of the buffer is read exactly if k is three or
      four: the value is what the bytes have of it, and the position ends up behind four bytes. */
  lemma CutVarintIsRead(v: nat, k: nat)
    requires v < TWO64 && k < |Varint(v)|
    ensures ReadLong(Varint(v)[..k]) == if 3 <= k <= 4 then Read(v % Power128(k), 4) else Failed
  {
    hide Varint, ValueOf, Power128;
    var data := Varint(v)[..k];
    assert forall i :: 0 <= i < k ==> data[i] >= 128;
    assert End(data, 10).None?;
    if 3 <= k <= 4 {
      CutValue(v, k, 4);
      Remainder(v % Power128(k), 0, v % Power128(k));
    }
  }

  /** For example, three continued bytes at the end of the buffer are read as zero, and the position
      ends up behind the end. */
  lemma UnendedExample()
    ensures End([128, 128, 128], 10).None? && ReadLong([128, 128, 128]) == Read(0, 4)
  {
    hide ValueOf;
    ValuesUpTo5([128, 128, 128]);
  }
}
