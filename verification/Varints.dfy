/** Variable-length integers of the JavaScript wire format, on 32-bit numbers and on pairs of them.

    Bit operations on unsigned 32-bit numbers are written arithmetically: `x & 127` is `x % 128`,
    `x >>> 7` is `x / 128` and `x << 4` is `x * 16 % TWO32`. */
module Varints {
  import opened Bits
  import opened Suites

  const TWO32 := 0x1_0000_0000
  const TWO64 := 0x1_0000_0000_0000_0000
  type uint32 = x: nat | x < TWO32

  // ----- What a varint is -----

  /** The seven lowest bits with the mark that more follow. */
  function Continued(v: nat): (b: byte)
    ensures b == v % 128 + 128
  {
    Powers2();
    OrIsSum(v % 128, 128, 7);
    Or(v % 128, 128)
  }

  /** Seven bits per byte, least significant first; all bytes but the last have their top bit set. */
  function Varint(v: nat): (r: bytes)
    ensures |r| > 0
    ensures r[|r| - 1] < 128 && forall i :: 0 <= i < |r| - 1 ==> r[i] >= 128
  {
    if v < 128 then [v] else [Continued(v)] + Varint(v / 128)
  }

  /** The example of the wire format's documentation: 300 takes the bytes 172 and 2. */
  lemma VarintExample()
    ensures Varint(300) == [172, 2]
  {
    hide Continued;
    var first: byte := Continued(300);
    assert Varint(300) == [first] + Varint(2);
  }

  function VarintLength(v: nat): (n: nat)
    requires v < TWO64
    ensures 1 <= n <= 10
  {
    if v < 0x80 then 1
    else if v < 0x4000 then 2
    else if v < 0x20_0000 then 3
    else if v < 0x1000_0000 then 4
    else if v < 0x8_0000_0000 then 5
    else if v < 0x400_0000_0000 then 6
    else if v < 0x2_0000_0000_0000 then 7
    else if v < 0x100_0000_0000_0000 then 8
    else if v < 0x8000_0000_0000_0000 then 9
    else 10
  }

  lemma {:induction false} VarintHasLength(v: nat)
    requires v < TWO64
    ensures |Varint(v)| == VarintLength(v)
  {
    if v >= 128 {
      VarintHasLength(v / 128);
    }
  }

  // ----- 32-bit numbers -----

  /** The length that the writer reserves for a 32-bit number. */
  function Length32(value: uint32): (n: nat)
    ensures n == |Varint(value)|
  {
    VarintHasLength(value);
    if value < 128 then 1
    else if value < 16384 then 2
    else if value < 2097152 then 3
    else if value < 268435456 then 4
    else 5
  }

  /** The buffer with `data` written at `pos`. */
  function Written(buf: bytes, pos: nat, data: bytes): (r: bytes)
    requires pos + |data| <= |buf|
    ensures |r| == |buf|
  {
    buf[..pos] + data + buf[pos + |data|..]
  }

  /** Writes one byte behind the data written so far. */
  method PutByte(b: byte, buf: array<byte>, end: nat, ghost before: bytes, ghost pos: nat, ghost data: bytes)
    requires pos + |data| == end < |before| && buf[..] == Written(before, pos, data)
    modifies buf
    ensures buf[..] == Written(before, pos, data + [b])
  {
    buf[end] := b;
  }

  /** Moving the first byte of a varint to what is already written. */
  lemma VarintGoesOn(data: bytes, v: nat)
    requires v >= 128
    ensures data + Varint(v) == data + [Continued(v)] + Varint(v / 128)
  {
  }

  method WriteVarint32(val: uint32, buf: array<byte>, pos: nat)
    requires pos + |Varint(val)| <= buf.Length
    modifies buf
    ensures buf[..] == Written(old(buf[..]), pos, Varint(val))
  {
    ghost var before, data: bytes := buf[..], [];
    var v: nat, p := val, pos;
    while v > 127
      invariant p == pos + |data| && data + Varint(v) == Varint(val)
      invariant buf[..] == Written(before, pos, data)
      decreases v
    {
      hide Written;
      VarintGoesOn(data, v);
      PutByte(Continued(v), buf, p, before, pos, data);
      data := data + [Continued(v)];
      p := p + 1;
      v := v / 128;
    }
    var last: byte := v;
    PutByte(last, buf, p, before, pos, data);
  }

  // ----- 64-bit numbers as two 32-bit halves -----

  function Value64(lo: uint32, hi: uint32): (v: nat)
    ensures v < TWO64
  {
    hi * TWO32 + lo
  }

  lemma Distribute(a: nat, b: nat, c: nat)
    ensures (a + b) * c == a * c + b * c
  {
  }

  lemma ShiftedOut(h: nat, p: nat, q: nat, w: nat)
    requires p > 0 && q > 0 && p * q == TWO32 && w == h * p
    ensures w % TWO32 <= TWO32 - p && w % TWO32 % p == 0
  {
    var a, r := h / q, h % q;
    var s := r * p;
    assert w == TWO32 * a + s by {
      assert h == q * a + r;
      Distribute(q * a, r, p);
      assert q * a * p == p * q * a;
    }
    assert s <= TWO32 - p by {
      Distribute(r, q - 1 - r, p);
      Distribute(q - 1, 1, p);
    }
    UniqueRemainder(w, TWO32, a, s);
    UniqueRemainder(s, p, r, 0);
  }

  /** What is shifted to the left within 32 bits is joined with the bits to its right by a sum. */
  lemma OrOfShifted(x: nat, h: nat, p: nat, q: nat, k: nat)
    requires p == Power2(k) && q > 0 && p * q == TWO32 && x < p
    ensures x + h * p % TWO32 < TWO32
    ensures Or(x, h * p % TWO32) == x + h * p % TWO32 == Or(h * p % TWO32, x)
  {
    hide Or, Power2;
    var w := h * p;
    ShiftedOut(h, p, q, w);
    OrIsSum(x, w % TWO32, k);
  }

  /** The low half after both halves were shifted right by seven bits. */
  function LowShifted(lo: uint32, hi: uint32): (r: uint32)
    ensures r == lo / 128 + hi * 0x200_0000 % TWO32
  {
    Powers2();
    OrOfShifted(lo / 128, hi, 0x200_0000, 128, 25);
    Or(lo / 128, hi * 0x200_0000 % TWO32)
  }

  /** Shifting both halves by seven bits divides the number by 128. */
  lemma Shift7(lo: uint32, hi: uint32)
    ensures Value64(LowShifted(lo, hi), hi / 128) == Value64(lo, hi) / 128
    ensures Value64(lo, hi) % 128 == lo % 128
  {
    assert hi == 128 * (hi / 128) + hi % 128;
    assert hi * 0x200_0000 == TWO32 * (hi / 128) + hi % 128 * 0x200_0000;
    assert hi * 0x200_0000 % TWO32 == hi % 128 * 0x200_0000;
  }

  lemma ShiftedValue(lo: uint32, hi: uint32)
    requires hi != 0
    ensures Value64(LowShifted(lo, hi), hi / 128) == Value64(lo, hi) / 128
    ensures Continued(Value64(lo, hi)) == Continued(lo) && Value64(lo, hi) >= 128
  {
    Shift7(lo, hi);
  }

  lemma Length64Parts(lo: uint32, hi: uint32)
    ensures hi / 0x100_0000 == 0 ==>
      Value64(lo, hi) == (lo / 0x1000_0000 + hi * 16 % TWO32) * 0x1000_0000 + lo % 0x1000_0000
  {
    if hi / 0x100_0000 == 0 {
      assert hi * 16 % TWO32 == hi * 16;
    }
  }

  /** The length of a 64-bit varint, computed from the halves alone. */
  function Length64(lo: uint32, hi: uint32): (n: nat)
    ensures n == |Varint(Value64(lo, hi))|
  {
    VarintHasLength(Value64(lo, hi));
    Length64Parts(lo, hi);
    Powers2();
    OrOfShifted(lo / 0x1000_0000, hi, 16, 0x1000_0000, 4);
    var part0, part1, part2 := lo, Or(lo / 0x1000_0000, hi * 16 % TWO32), hi / 0x100_0000;
    if part2 == 0 then
      if part1 == 0 then
        if part0 < 16384 then
          if part0 < 128 then 1 else 2
        else
          if part0 < 2097152 then 3 else 4
      else
        if part1 < 16384 then
          if part1 < 128 then 5 else 6
        else
          if part1 < 2097152 then 7 else 8
    else
      if part2 < 128 then 9 else 10
  }

  // ----- Signed numbers -----

  /** The 64 lowest bits of the number in two's complement. */
  function TwosComplement(value: int): (v: nat)
    ensures v < TWO64
    ensures 0 <= value < TWO64 ==> v == value
    ensures -TWO64 <= value < 0 ==> v == TWO64 + value
  {
    value % TWO64
  }

  /** The signed number that 64 bits in two's complement stand for. */
  function Signed64(v: nat): (value: int)
    requires v < TWO64
    ensures -(TWO64 / 2) <= value < TWO64 / 2 && TwosComplement(value) == v
  {
    if v < TWO64 / 2 then v else v - TWO64
  }

  /** A number without its fraction. */
  function Truncated(value: real): int {
    if value < 0.0 then -(-value).Floor else value.Floor
  }

  /** The fraction is cut off towards zero. */
  lemma TruncatedTowardsZero(value: real)
    ensures value >= 0.0 ==> 0 <= Truncated(value) && Truncated(value) as real <= value < (Truncated(value) + 1) as real
    ensures value <= 0.0 ==> Truncated(value) <= 0 && (Truncated(value) - 1) as real < value <= Truncated(value) as real
  {
  }

  /** The distance between double-precision numbers near n. */
  function Spacing(n: nat): (u: nat)
    ensures u > 0 && (n < 0x20_0000_0000_0000 ==> u == 1)
  {
    if n < 0x20_0000_0000_0000 then 1 else 2 * Spacing(n / 2)
  }

  /** The nearest double-precision number; of two that are equally near, the even multiple. */
  function Double(n: nat): int {
    var u := Spacing(n);
    var q, r := n / u, n % u;
    if 2 * r < u || (2 * r == u && q % 2 == 0) then q * u else (q + 1) * u
  }

  function Rounded(value: int): int {
    if value < 0 then -Double(-value) else Double(value)
  }

  lemma {:induction false} SpacingIsPower(n: nat)
    ensures exists k: nat :: Spacing(n) == Power2(k)
  {
    if n < 0x20_0000_0000_0000 {
      assert Spacing(n) == Power2(0);
    } else {
      SpacingIsPower(n / 2);
      var k: nat :| Spacing(n / 2) == Power2(k);
      assert Spacing(n) == Power2(k + 1);
    }
  }

  lemma HalfDivided(n: nat, u: nat)
    requires u > 0
    ensures n / (2 * u) == n / 2 / u
  {
    var h := n / 2;
    assert n == 2 * (u * (h / u) + h % u) + n % 2;
    UniqueRemainder(n, 2 * u, h / u, 2 * (h % u) + n % 2);
  }

  /** Double-precision numbers have 53 significant bits. */
  lemma {:induction false} SpacingLeaves53Bits(n: nat)
    ensures n / Spacing(n) < 0x20_0000_0000_0000
    ensures n >= 0x10_0000_0000_0000 ==> n / Spacing(n) >= 0x10_0000_0000_0000
  {
    if n >= 0x20_0000_0000_0000 {
      SpacingLeaves53Bits(n / 2);
      HalfDivided(n, Spacing(n / 2));
    }
  }

  function Distance(a: int, b: int): (d: nat)
    ensures d == a - b || d == b - a
  {
    if a < b then b - a else a - b
  }

  lemma OneMore(a: nat, u: nat)
    ensures (a + 1) * u == a * u + u
  {
  }

  /** Multiples grow with their factors. */
  lemma {:induction false} Grows(a: nat, b: nat, u: nat)
    requires a < b
    ensures a * u + u <= b * u
  {
    OneMore(b - 1, u);
    if a < b - 1 {
      Grows(a, b - 1, u);
    }
  }

  /** How far the multiples qu and mu of u are apart. */
  lemma Apart(q: nat, m: nat, u: nat, qu: nat, mu: nat)
    requires qu == q * u && mu == m * u
    ensures m == q ==> mu == qu
    ensures m == q + 1 ==> mu == qu + u
    ensures m >= q + 2 ==> mu >= qu + 2 * u
    ensures m <= q - 1 ==> mu <= qu - u
  {
    OneMore(q, u);
    if m >= q + 2 {
      Grows(q + 1, m, u);
    } else if m <= q - 1 {
      Grows(m, q, u);
    }
  }

  /** The choice between the multiples below and above n. */
  lemma Nearest(n: nat, q: nat, r: nat, u: nat, m: nat, qu: nat, mu: nat)
    requires n == qu + r && r < u && qu == q * u && mu == m * u
    ensures
      var d := if 2 * r < u || (2 * r == u && q % 2 == 0) then qu else qu + u;
      Distance(d, n) <= Distance(mu, n) && (Distance(d, n) == Distance(mu, n) && d != mu ==> m % 2 == 1)
  {
    Apart(q, m, u, qu, mu);
  }

  /** Rounding is to the nearest multiple of the spacing; if another multiple is as near, that one is odd. */
  lemma DoubleIsNearest(n: nat, m: nat)
    ensures
      var u, d := Spacing(n), Double(n);
      && d % u == 0 && Distance(d, n) <= Distance(m * u, n)
      && (Distance(d, n) == Distance(m * u, n) && d != m * u ==> m % 2 == 1)
  {
    hide Spacing, Distance;
    var u := Spacing(n);
    var q, r := n / u, n % u;
    assert (q + 1) * u == q * u + u;
    Nearest(n, q, r, u, m, q * u, m * u);
    var k := if 2 * r < u || (2 * r == u && q % 2 == 0) then q else q + 1;
    assert Double(n) == u * k;
    UniqueRemainder(u * k, u, k, 0);
  }

  lemma SpacingOf53()
    ensures Spacing(0x20_0000_0000_0000) == 2
  {
  }

  /** A number is kept iff it is a multiple of the spacing, as all numbers up to 2^53 are. */
  lemma DoubleIsExactIff(n: nat)
    ensures Double(n) == n <==> n % Spacing(n) == 0
    ensures n <= 0x20_0000_0000_0000 ==> Double(n) == n && Rounded(n) == n && Rounded(0 - n) == 0 - n
  {
    hide Spacing;
    var u := Spacing(n);
    var q, r := n / u, n % u;
    assert n == q * u + r;
    assert (q + 1) * u == q * u + u;
    if n == 0x20_0000_0000_0000 {
      SpacingOf53();
    } else if n < 0x20_0000_0000_0000 {
      assert u == 1;
    }
  }

  lemma {:induction false} SpacingIsSmall(n: nat)
    requires n > 0
    ensures Spacing(n) <= n
  {
    if n >= 0x20_0000_0000_0000 {
      SpacingIsSmall(n / 2);
    }
  }

  lemma DoubleIsNear(n: nat)
    ensures n <= Double(n) + Spacing(n) && Double(n) <= n + Spacing(n)
  {
    hide Spacing;
    var u := Spacing(n);
    assert (n / u + 1) * u == n / u * u + u;
  }

  lemma SameBits(x: int, y: int)
    requires -TWO64 < x - y < TWO64
    ensures TwosComplement(x) == TwosComplement(y) <==> x == y
  {
    var a, b := x / TWO64, y / TWO64;
    assert x == TWO64 * a + TwosComplement(x) && y == TWO64 * b + TwosComplement(y);
  }

  /** From 64 bits to a number and back: nothing is lost iff the number's magnitude is a multiple of the
      spacing of double-precision numbers near it. */
  lemma NumberRoundTripIff(v: nat)
    requires v < TWO64
    ensures
      var exact := Signed64(v);
      var n: nat := if exact < 0 then -exact else exact;
      TwosComplement(Truncated(Rounded(exact) as real)) == v <==> n % Spacing(n) == 0
  {
    hide Spacing, Double;
    var exact := Signed64(v);
    var n: nat := if exact < 0 then -exact else exact;
    DoubleIsExactIff(n);
    assert Truncated(Rounded(exact) as real) == Rounded(exact);
    if n > 0 {
      SpacingIsSmall(n);
      DoubleIsNear(n);
      SameBits(Rounded(exact), exact);
    }
  }

  /** For example, 2^53 + 1 becomes 2^53. */
  lemma NumberRoundTripExample()
    ensures
      var v := 0x20_0000_0000_0001;
      Signed64(v) == v && TwosComplement(Truncated(Rounded(v) as real)) == v - 1
  {
    var v: nat := 0x20_0000_0000_0001;
    assert Spacing(v) == 2 * Spacing(v / 2) == 2;
    assert Rounded(v) == v - 1;
    assert Truncated((v - 1) as real) == v - 1;
  }

  /** The sign moves to the lowest bit, so that small negative numbers get small. */
  function ZigZag(v: nat): (r: nat)
    requires v < TWO64
    ensures r < TWO64
  {
    if v < TWO64 / 2 then 2 * v else 2 * (TWO64 - v) - 1
  }

  function UnZigZag(r: nat): (v: nat)
    requires r < TWO64
    ensures v < TWO64
  {
    if r % 2 == 0 then r / 2 else TWO64 - (r + 1) / 2
  }

  /** Numbers of small magnitude get small: 0, -1, 1, -2, .. become 0, 1, 2, 3, .. */
  lemma ZigZagOfSigned(value: int)
    requires -(TWO64 / 2) <= value < TWO64 / 2
    ensures ZigZag(TwosComplement(value)) == if value < 0 then -2 * value - 1 else 2 * value
  {
  }

  lemma ZigZagInverts(v: nat)
    requires v < TWO64
    ensures UnZigZag(ZigZag(v)) == v && ZigZag(UnZigZag(v)) == v
  {
    if v >= TWO64 / 2 {
      assert (2 * (TWO64 - v) - 1) % 2 == 1;
    }
  }

  /** x ^ mask, where the mask is all zeros or all ones. */
  function Masked(x: uint32, ones: bool): uint32 {
    if ones then TWO32 - 1 - x else x
  }

  lemma NegatedNumber(lo: uint32, hi: uint32)
    requires hi >= 0x8000_0000
    ensures
      var lo', hi' := (TWO32 - lo) % TWO32, TWO32 - 1 - hi;
      lo' + (if lo' == 0 then (hi' + 1) % TWO32 else hi') * TWO32 == TWO64 - Value64(lo, hi)
  {
  }

  lemma ZzEncodeParts(lo: uint32, hi: uint32)
    ensures hi * 2 % TWO32 + lo / 0x8000_0000 < TWO32
    ensures
      var ones := hi >= 0x8000_0000;
      Value64(Masked(lo * 2 % TWO32, ones), Masked(hi * 2 % TWO32 + lo / 0x8000_0000, ones)) == ZigZag(Value64(lo, hi))
  {
    assert lo * 2 == lo / 0x8000_0000 * TWO32 + lo * 2 % TWO32;
    assert hi * 2 == hi / 0x8000_0000 * TWO32 + hi * 2 % TWO32;
  }

  lemma HalfOf(half: nat, f: nat)
    requires f < 2 && 2 * half + f < TWO64
    ensures UnZigZag(2 * half + f) == if f == 0 then half else TWO64 - 1 - half
  {
    if f == 1 {
      assert (2 * half + 1) % 2 == 1;
    }
  }

  lemma ZzDecodeParts(lo: uint32, hi: uint32)
    ensures lo / 2 + hi * 0x8000_0000 % TWO32 < TWO32
    ensures
      var ones := lo % 2 == 1;
      Value64(Masked(lo / 2 + hi * 0x8000_0000 % TWO32, ones), Masked(hi / 2, ones)) == UnZigZag(Value64(lo, hi))
  {
    var h, e, l, f := hi / 2, hi % 2, lo / 2, lo % 2;
    assert hi * 0x8000_0000 == h * TWO32 + e * 0x8000_0000;
    assert hi * 0x8000_0000 % TWO32 == e * 0x8000_0000;
    var half := h * TWO32 + e * 0x8000_0000 + l;
    assert Value64(lo, hi) == 2 * half + f;
    HalfOf(half, f);
  }

  lemma LowAlone(lo: uint32)
    ensures Value64(lo, 0) == lo
  {
  }

  class LongBits {
    var lo: uint32
    var hi: uint32
    /** The operation that will write the number, if any. */
    ghost var holder: object?

    function Value(): (v: nat)
      reads this`lo, this`hi
      ensures v < TWO64
    {
      Value64(lo, hi)
    }

    constructor (lo: uint32, hi: uint32)
      ensures this.lo == lo && this.hi == hi && holder == null
    {
      this.lo, this.hi, holder := lo, hi, null;
    }

    method ZzEncode()
      modifies this
      ensures Value() == ZigZag(old(Value())) && holder == old(holder)
    {
      hide Or;
      ZzEncodeParts(lo, hi);
      Powers2();
      OrOfShifted(lo / 0x8000_0000, hi, 2, 0x8000_0000, 1);
      var mask := hi >= 0x8000_0000;
      hi := Masked(Or(hi * 2 % TWO32, lo / 0x8000_0000), mask);
      lo := Masked(lo * 2 % TWO32, mask);
    }

    method ZzDecode()
      modifies this
      ensures Value() == UnZigZag(old(Value())) && holder == old(holder)
    {
      hide Or;
      ZzDecodeParts(lo, hi);
      Powers2();
      OrOfShifted(lo / 2, hi, 0x8000_0000, 2, 31);
      var mask := lo % 2 == 1;
      lo := Masked(Or(lo / 2, hi * 0x8000_0000 % TWO32), mask);
      hi := Masked(hi / 2, mask);
    }

    /** The number, signed unless asked otherwise, as the nearest double-precision number. */
    method ToNumber(unsigned: bool) returns (value: int)
      ensures
        var exact := if unsigned then Value() else Signed64(Value());
        value == Rounded(exact) && (-0x20_0000_0000_0000 <= exact <= 0x20_0000_0000_0000 ==> value == exact)
    {
      hide Double, TwosComplement;
      ghost var exact := if unsigned then Value() else Signed64(Value());
      DoubleIsExactIff(if exact < 0 then -exact else exact);
      if !unsigned && hi / 0x8000_0000 != 0 {
        var lo' := (TWO32 - lo) % TWO32;
        var hi' := TWO32 - 1 - hi;
        if lo' == 0 {
          hi' := (hi' + 1) % TWO32;
        }
        NegatedNumber(lo, hi);
        return -Double(lo' + hi' * TWO32);
      }
      return Double(lo + hi * TWO32);
    }

    /** Writes the varint of the number; the halves are used up. */
    method WriteVarint64(buf: array<byte>, pos: nat) returns (end: nat)
      requires pos + |Varint(Value())| <= buf.Length
      modifies this`lo, this`hi, buf
      ensures buf[..] == Written(old(buf[..]), pos, old(Varint(Value())))
      ensures end == pos + old(|Varint(Value())|)
      ensures hi == 0 && lo == old(Varint(Value())[|Varint(Value())| - 1])
    {
      hide Value64, LowShifted;
      ghost var all, before, data: bytes := Varint(Value()), buf[..], [];
      end := pos;
      while hi != 0
        invariant end == pos + |data| && data + Varint(Value()) == all
        invariant buf[..] == Written(before, pos, data)
        decreases hi
      {
        hide Written, Varint;
        ShiftedValue(lo, hi);
        VarintGoesOn(data, Value());
        PutByte(Continued(lo), buf, end, before, pos, data);
        data := data + [Continued(lo)];
        end := end + 1;
        lo, hi := LowShifted(lo, hi), hi / 128;
      }
      LowAlone(lo);
      while lo > 127
        invariant hi == 0
        invariant end == pos + |data| && data + Varint(lo) == all
        invariant buf[..] == Written(before, pos, data)
        decreases lo
      {
        hide Written;
        VarintGoesOn(data, lo);
        PutByte(Continued(lo), buf, end, before, pos, data);
        data := data + [Continued(lo)];
        end := end + 1;
        lo := lo / 128;
      }
      var last: byte := lo;
      PutByte(last, buf, end, before, pos, data);
      end := end + 1;
    }
  }

  /** Dividing by 2^32 and cutting the fraction off is dividing the part before the fraction. */
  lemma FloorOfHigh(x: real)
    requires x >= 0.0
    ensures ((x - (x.Floor % TWO32) as real) / TWO32 as real).Floor == x.Floor / TWO32
  {
    var n, f := x.Floor, x - x.Floor as real;
    var q := n / TWO32;
    assert n == q * TWO32 + n % TWO32;
    assert x - (n % TWO32) as real == q as real * TWO32 as real + f;
    assert 0.0 <= f < 1.0;
    assert (x - (n % TWO32) as real) / TWO32 as real == q as real + f / TWO32 as real;
  }

  lemma Wraps(x: int, k: int, r: nat)
    requires r < TWO64 && x == k * TWO64 + r
    ensures TwosComplement(x) == r
  {
  }

  /** The halves of a magnitude and of its negative. */
  lemma NegatedParts(n: int, lo: nat, hi: nat)
    requires 0 <= n && lo == n % TWO32 && hi == n / TWO32 % TWO32
    ensures hi * TWO32 + lo == TwosComplement(n)
    ensures lo > 0 ==> (TWO32 - 1 - hi) * TWO32 + (TWO32 - lo) == TwosComplement(-n)
    ensures lo == 0 && hi > 0 ==> (TWO32 - hi) * TWO32 == TwosComplement(-n)
    ensures lo == 0 && hi == 0 ==> TwosComplement(-n) == 0
  {
    hide TwosComplement;
    var k, w := n / TWO32 / TWO32, hi * TWO32 + lo;
    Wraps(n, k, w);
    if w == 0 {
      Wraps(-n, -k, 0);
    } else {
      Wraps(-n, -k - 1, TWO64 - w);
    }
  }

  /** The bits of a number without its fraction, in two's complement. */
  method FromNumber(value: real) returns (bits: LongBits)
    ensures fresh(bits) && bits.Value() == TwosComplement(Truncated(value)) && bits.holder == null
  {
    if value == 0.0 {
      return new LongBits(0, 0);
    }
    var magnitude := if value < 0.0 then -value else value;
    var lo: nat := magnitude.Floor % TWO32;
    var hi: nat := ((magnitude - lo as real) / TWO32 as real).Floor % TWO32;
    FloorOfHigh(magnitude);
    NegatedParts(magnitude.Floor, lo, hi);
    if value < 0.0 {
      hi := TWO32 - 1 - hi;
      lo := TWO32 - 1 - lo;
      lo := lo + 1;
      if lo > 4294967295 {
        lo := 0;
        hi := hi + 1;
        if hi > 4294967295 {
          hi := 0;
        }
      }
    }
    bits := new LongBits(lo, hi);
  }
}
