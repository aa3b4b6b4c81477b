/** Base64 (section 4 of RFC 4648) as the JavaScript client does it: byte by byte, through tables, and
    with the characters of long texts collected in chunks. Characters are given by their codes. */
module Base64 {
  import opened Bits
  import opened Suites

  const PAD: nat := 61
  const CHUNK: nat := 8192

  // ----- The alphabet -----

  type sextet = x: nat | x < 64

  /** A-Z, a-z, 0-9, + and /. */
  function Letter(i: sextet): (c: nat)
    ensures c < 123 && c != PAD
  {
    if i < 26 then i + 65 else if i < 52 then i + 71 else if i < 62 then i - 4 else if i == 62 then 43 else 47
  }

  /** The place of a character in the alphabet. */
  function Place(c: nat): (r: Option<sextet>)
    ensures r.Some? ==> Letter(r.value) == c
    ensures r.None? ==> forall i: sextet :: Letter(i) != c
  {
    if 65 <= c < 91 then Some(c - 65)
    else if 97 <= c < 123 then Some(c - 71)
    else if 48 <= c < 58 then Some(c + 4)
    else if c == 43 then Some(62)
    else if c == 47 then Some(63)
    else None
  }

  /** The alphabet in table 1 of RFC 4648: four ranges of consecutive characters and two single ones. */
  lemma LettersOfAlphabet(i: sextet)
    ensures Letter(0) == 'A' as int && Letter(25) == 'Z' as int && Letter(26) == 'a' as int && Letter(51) == 'z' as int
    ensures Letter(52) == '0' as int && Letter(61) == '9' as int && Letter(62) == '+' as int && Letter(63) == '/' as int
    ensures i !in {25, 51, 61, 62, 63} ==> Letter(i + 1) == Letter(i) + 1
    ensures PAD == '=' as int
  {
  }

  lemma PlaceOfLetter(i: sextet)
    ensures Place(Letter(i)) == Some(i)
  {
  }

  /** The bits of 3 are among those of 43, and that of 4 is not. */
  lemma OrsWith43()
    ensures Or(3, 43) == 43 && Or(4, 43) == 47
  {
    assert Or(0, 10) == 10 && Or(1, 10) == 11 && Or(1, 21) == 21 && Or(2, 21) == 23;
  }

  /** Both tables, filled in one loop; the two last letters come from `i - 59 | 43`. */
  method Tables() returns (b64: array<nat>, s64: array<Option<sextet>>)
    ensures b64.Length == 64 && forall i :: 0 <= i < 64 ==> b64[i] == Letter(i)
    ensures s64.Length == 123 && forall c :: 0 <= c < 123 ==> s64[c] == Place(c)
  {
    hide Or;
    OrsWith43();
    b64 := new nat[64](_ => 0);
    s64 := new Option<sextet>[123](_ => None);
    var i := 0;
    while i < 64
      invariant 0 <= i <= 64
      invariant forall k :: 0 <= k < i ==> b64[k] == Letter(k)
      invariant forall c: nat :: c < 123 ==>
        s64[c] == if Place(c).Some? && Place(c).value < i then Place(c) else None
    {
      var code := if i < 26 then i + 65 else if i < 52 then i + 71 else if i < 62 then i - 4 else Or(i - 59, 43);
      PlaceOfLetter(i);
      b64[i] := code;
      s64[code] := Some(i);
      i := i + 1;
    }
  }

  // ----- The standard encoding -----

  /** The four letters of a group of 24 bits. */
  function Group(n: nat): seq<nat>
    requires n < 0x100_0000
  {
    [Letter(n / 0x4_0000), Letter(n / 0x1000 % 64), Letter(n / 64 % 64), Letter(n % 64)]
  }

  /** Three bytes in a row as a number. */
  function Bits24(x: nat, y: nat, z: nat): (n: nat)
    requires x < 256 && y < 256 && z < 256
    ensures n < 0x100_0000
  {
    x * 0x1_0000 + y * 0x100 + z
  }

  /** Groups of three bytes; one or two bytes at the end are filled up with zeros, and padding takes
      the place of the letters that come from the filling alone. */
  function Encoded(b: bytes): seq<nat> {
    if |b| == 0 then []
    else if |b| == 1 then Group(Bits24(b[0], 0, 0))[..2] + [PAD, PAD]
    else if |b| == 2 then Group(Bits24(b[0], b[1], 0))[..3] + [PAD]
    else Group(Bits24(b[0], b[1], b[2])) + Encoded(b[3..])
  }

  // ----- The encoder -----

  /** Whether t can be what is left of a byte in step j. */
  predicate LeftOver(j: nat, t: nat) {
    j < 3 && t < 64 && (j == 1 ==> t % 16 == 0) && (j == 2 ==> t % 4 == 0)
  }

  /** What the encoder emits for the remaining bytes, in step j with t left over. */
  function Emitted(b: bytes, j: nat, t: nat): seq<nat>
    requires LeftOver(j, t)
    decreases b
  {
    if b == [] then
      if j == 0 then [] else if j == 1 then [Letter(t), PAD, PAD] else [Letter(t), PAD]
    else if j == 0 then [Letter(b[0] / 4)] + Emitted(b[1..], 1, b[0] % 4 * 16)
    else if j == 1 then [Letter(t + b[0] / 16)] + Emitted(b[1..], 2, b[0] % 16 * 4)
    else [Letter(t + b[0] / 64), Letter(b[0] % 64)] + Emitted(b[1..], 0, t)
  }

  /** One byte at a time. */
  lemma EmittedNext(b: bytes, j: nat, t: nat)
    requires LeftOver(j, t) && b != []
    ensures j == 0 ==> Emitted(b, j, t) == [Letter(b[0] / 4)] + Emitted(b[1..], 1, b[0] % 4 * 16)
    ensures j == 1 ==> Emitted(b, j, t) == [Letter(t + b[0] / 16)] + Emitted(b[1..], 2, b[0] % 16 * 4)
    ensures j == 2 ==> Emitted(b, j, t) == [Letter(t + b[0] / 64), Letter(b[0] % 64)] + Emitted(b[1..], 0, t)
  {
  }

  lemma EmittedLast(j: nat, t: nat)
    requires LeftOver(j, t)
    ensures Emitted([], j, t) == if j == 0 then [] else if j == 1 then [Letter(t), PAD, PAD] else [Letter(t), PAD]
  {
  }

  lemma LastDigit(q: nat, r: nat)
    requires r < 64
    ensures (q * 64 + r) % 64 == r
  {
  }

  lemma Base64Digits(n: nat, a: nat, b: nat, c: nat, d: nat)
    requires a < 64 && b < 64 && c < 64 && d < 64 && n == a * 0x4_0000 + b * 0x1000 + c * 64 + d
    ensures n / 0x4_0000 == a && n / 0x1000 % 64 == b && n / 64 % 64 == c && n % 64 == d
  {
    assert n / 0x1000 == a * 64 + b;
    assert n / 64 == a * 0x1000 + b * 64 + c;
    LastDigit(a, b);
    LastDigit(a * 64 + b, c);
    LastDigit(a * 0x1000 + b * 64 + c, d);
  }

  /** The letters of three bytes, bit by bit. */
  lemma GroupOf(x: nat, y: nat, z: nat)
    requires x < 256 && y < 256 && z < 256
    ensures Group(Bits24(x, y, z)) == [Letter(x / 4), Letter(x % 4 * 16 + y / 16), Letter(y % 16 * 4 + z / 64), Letter(z % 64)]
  {
    hide Letter;
    Base64Digits(Bits24(x, y, z), x / 4, x % 4 * 16 + y / 16, y % 16 * 4 + z / 64, z % 64);
  }

  /** Emitting byte by byte gives the standard encoding. */
  lemma {:induction false} EmitsEncoded(b: bytes, t: nat)
    requires t < 64
    ensures Emitted(b, 0, t) == Encoded(b)
    decreases b
  {
    hide Emitted, Letter, Group, Bits24;
    if b == [] {
      EmittedLast(0, t);
    } else {
      EmittedNext(b, 0, t);
      var left := b[0] % 4 * 16;
      if |b| == 1 {
        assert b[1..] == [];
        EmittedLast(1, left);
        GroupOf(b[0], 0, 0);
      } else {
        EmittedNext(b[1..], 1, left);
        var left' := b[1] % 16 * 4;
        assert b[1..][1..] == b[2..];
        if |b| == 2 {
          assert b[2..] == [];
          EmittedLast(2, left');
          GroupOf(b[0], b[1], 0);
        } else {
          EmittedNext(b[2..], 2, left');
          assert b[2..][1..] == b[3..];
          EmitsEncoded(b[3..], left');
          GroupOf(b[0], b[1], b[2]);
        }
      }
    }
  }

  lemma GroupsOfExample()
    ensures Group(Bits24(102, 0, 0))[..2] == [90, 103] && Group(Bits24(102, 111, 0))[..3] == [90, 109, 56]
    ensures Group(Bits24(102, 111, 111)) == [90, 109, 57, 118] && Group(Bits24(98, 97, 114)) == [89, 109, 70, 121]
  {
    hide Group, Bits24;
    GroupOf(102, 0, 0);
    GroupOf(102, 111, 0);
    GroupOf(102, 111, 111);
    GroupOf(98, 97, 114);
  }

  /** The encodings of the beginnings of "foobar" in section 10 of RFC 4648: Zg==, Zm8=, Zm9v and Zm9vYmFy. */
  lemma EncodedExample()
    ensures Encoded([102]) == [90, 103, PAD, PAD] && Encoded([102, 111]) == [90, 109, 56, PAD]
    ensures Encoded([102, 111, 111]) == [90, 109, 57, 118]
    ensures Encoded([102, 111, 111, 98, 97, 114]) == [90, 109, 57, 118, 89, 109, 70, 121]
  {
    hide Group, Letter, Bits24;
    GroupsOfExample();
    var b: bytes := [102, 111, 111, 98, 97, 114];
    assert b[3..] == [98, 97, 114] && b[3..][3..] == [];
    assert Encoded(b[3..]) == Group(Bits24(98, 97, 114)) + [];
    assert Encoded([102, 111, 111]) == Group(Bits24(102, 111, 111)) + [];
  }

  function Joined(parts: seq<seq<nat>>): seq<nat> {
    if parts == [] then [] else Joined(parts[..|parts| - 1]) + parts[|parts| - 1]
  }

  /** chunk[i] := c, where the array grows by one when i is its length. */
  function Set(chunk: seq<nat>, i: nat, c: nat): (r: seq<nat>)
    requires i <= |chunk|
    ensures |r| == (if i == |chunk| then i + 1 else |chunk|) && r[..i + 1] == chunk[..i] + [c]
  {
    if i == |chunk| then chunk + [c] else chunk[i := c]
  }

  /** The characters that were flushed and the first i of the chunk. */
  function TextSoFar(parts: Option<seq<seq<nat>>>, chunk: seq<nat>, i: nat): seq<nat>
    requires i <= |chunk|
  {
    (if parts.None? then [] else Joined(parts.value)) + chunk[..i]
  }

  lemma SetGoesOn(parts: Option<seq<seq<nat>>>, chunk: seq<nat>, i: nat, c: nat)
    requires i <= |chunk|
    ensures TextSoFar(parts, Set(chunk, i, c), i + 1) == TextSoFar(parts, chunk, i) + [c]
  {
    hide Set;
    var before: seq<nat> := if parts.None? then [] else Joined(parts.value);
    assert before + (chunk[..i] + [c]) == before + chunk[..i] + [c];
  }

  /** Flushing the chunk keeps the text when it consists of exactly i characters. */
  lemma FlushKeepsText(parts: Option<seq<seq<nat>>>, chunk: seq<nat>, i: nat, rest: seq<nat>)
    requires i <= |chunk|
    ensures
      var before := if parts.None? then [] else parts.value;
      TextSoFar(Some(before + [chunk[..i]]), rest, 0) == TextSoFar(parts, chunk, i) == Joined(before + [chunk[..i]])
  {
    var before: seq<seq<nat>> := if parts.None? then [] else parts.value;
    var after := before + [chunk[..i]];
    assert after[..|after| - 1] == before;
    assert Joined(after) == Joined(before) + chunk[..i];
  }

  lemma Sextets(b: byte, j: nat, t: nat)
    requires LeftOver(j, t)
    ensures LeftOver(1, b % 4 * 16) && LeftOver(2, b % 16 * 4) && j < 3 && t < 64
    ensures j == 1 ==> Or(t, b / 16) == t + b / 16 < 64
    ensures j == 2 ==> Or(t, b / 64) == t + b / 64 < 64 && LeftOver(0, t)
  {
    hide Or;
    Powers2();
    if j == 1 {
      OrIsSum(b / 16, t, 4);
    } else if j == 2 {
      OrIsSum(b / 64, t, 2);
    }
  }

  lemma Regroup(a: seq<nat>, b: seq<nat>, c: seq<nat>)
    ensures a + b + c == a + (b + c)
  {
  }

  /** A letter moves from what is still to be emitted to the chunk. */
  lemma OneEmitted(parts: Option<seq<seq<nat>>>, chunk: seq<nat>, i: nat, c: nat, text: seq<nat>)
    requires i <= |chunk|
    ensures |Set(chunk, i, c)| == if i + 1 > |chunk| then i + 1 else |chunk|
    ensures TextSoFar(parts, Set(chunk, i, c), i + 1) + text == TextSoFar(parts, chunk, i) + ([c] + text)
  {
    hide TextSoFar;
    SetGoesOn(parts, chunk, i, c);
    Regroup(TextSoFar(parts, chunk, i), [c], text);
  }

  lemma TwoEmitted(parts: Option<seq<seq<nat>>>, chunk: seq<nat>, i: nat, c: nat, d: nat, text: seq<nat>)
    requires i <= |chunk|
    ensures
      var chunk' := Set(Set(chunk, i, c), i + 1, d);
      && |chunk'| == (if i + 2 > |chunk| then i + 2 else |chunk|)
      && TextSoFar(parts, chunk', i + 2) + text == TextSoFar(parts, chunk, i) + ([c, d] + text)
  {
    hide TextSoFar;
    OneEmitted(parts, chunk, i, c, [d] + text);
    OneEmitted(parts, Set(chunk, i, c), i + 1, d, text);
    assert [c] + ([d] + text) == [c, d] + text;
  }

  lemma Advances(i: nat, j: nat)
    requires i % 4 == j < 3
    ensures (i + 1) % 4 == j + 1 && (j == 2 ==> (i + 2) % 4 == 0)
  {
  }

  /** One round of the encoder: the byte's letters go into the chunk from i on. */
  method EncodeByte(b: byte, j: nat, t: nat, chunk: seq<nat>, i: nat, ghost parts: Option<seq<seq<nat>>>, ghost rest: bytes)
    returns (j': nat, t': nat, chunk': seq<nat>, i': nat)
    requires LeftOver(j, t) && i % 4 == j && i <= |chunk|
    ensures LeftOver(j', t') && i' % 4 == j' && i' == (if j == 2 then i + 2 else i + 1)
    ensures |chunk'| == if i' > |chunk| then i' else |chunk|
    ensures TextSoFar(parts, chunk', i') + Emitted(rest, j', t') == TextSoFar(parts, chunk, i) + Emitted([b] + rest, j, t)
  {
    hide Emitted, Letter, TextSoFar, LeftOver, Or, Set, Power2;
    Sextets(b, j, t);
    Advances(i, j);
    EmittedNext([b] + rest, j, t);
    assert ([b] + rest)[1..] == rest;
    if j == 0 {
      OneEmitted(parts, chunk, i, Letter(b / 4), Emitted(rest, 1, b % 4 * 16));
      return 1, b % 4 * 16, Set(chunk, i, Letter(b / 4)), i + 1;
    } else if j == 1 {
      var joined := Or(t, b / 16);
      OneEmitted(parts, chunk, i, Letter(joined), Emitted(rest, 2, b % 16 * 4));
      return 2, b % 16 * 4, Set(chunk, i, Letter(joined)), i + 1;
    } else {
      var joined := Or(t, b / 64);
      TwoEmitted(parts, chunk, i, Letter(joined), Letter(b % 64), Emitted(rest, 0, t));
      return 0, t, Set(Set(chunk, i, Letter(joined)), i + 1, Letter(b % 64)), i + 2;
    }
  }

  lemma TextAtTheEnd(parts: Option<seq<seq<nat>>>, chunk: seq<nat>, i: nat)
    requires i <= |chunk|
    ensures parts.None? ==> TextSoFar(parts, chunk, i) == chunk[..i]
    ensures parts.Some? && i == 0 ==> TextSoFar(parts, chunk, i) == Joined(parts.value)
  {
  }

  /** What is left over gets its letter and its padding, and the chunks are joined. */
  method EncodeEnd(parts: Option<seq<seq<nat>>>, chunk: seq<nat>, i: nat, j: nat, t: nat) returns (text: seq<nat>)
    requires LeftOver(j, t) && i <= |chunk| && i % 4 == j
    ensures text == TextSoFar(parts, chunk, i) + Emitted([], j, t)
  {
    hide Emitted, Letter, Set, TextSoFar;
    var parts', chunk', i' := parts, chunk, i;
    EmittedLast(j, t);
    if j != 0 {
      SetGoesOn(parts, chunk', i', Letter(t));
      chunk' := Set(chunk', i', Letter(t));
      SetGoesOn(parts, chunk', i' + 1, PAD);
      chunk' := Set(chunk', i' + 1, PAD);
      i' := i' + 2;
      if j == 1 {
        SetGoesOn(parts, chunk', i', PAD);
        chunk' := Set(chunk', i', PAD);
        i' := i' + 1;
      }
    }
    TextAtTheEnd(parts, chunk', i');
    if parts'.Some? {
      if i' != 0 {
        FlushKeepsText(parts', chunk', i', chunk');
        parts' := Some(parts'.value + [chunk'[..i']]);
      }
      return Joined(parts'.value);
    }
    return chunk'[..i'];
  }

  lemma NothingEncoded()
    ensures Encoded([]) == []
  {
  }

  lemma NoText()
    ensures TextSoFar(None, [], 0) == []
  {
  }

  /** Encodes buffer[start..end]. Every 8192 characters the whole chunk array is flushed; that these are
      exactly the characters of the chunk is what the invariant on i and j says. */
  method Encode(buffer: array<byte>, start: nat, end: nat) returns (text: seq<nat>)
    requires end <= buffer.Length
    ensures text == Encoded(if start <= end then buffer[start..end] else [])
  {
    hide Emitted, Letter, Set, Encoded, TextSoFar;
    if start > end {
      NothingEncoded();
      return [];
    }
    var parts: Option<seq<seq<nat>>>, chunk: seq<nat> := None, [];
    var i, j, t, s := 0, 0, 0, start;
    EmitsEncoded(buffer[start..end], 0);
    NoText();
    while s < end
      invariant start <= s <= end && LeftOver(j, t)
      invariant i < CHUNK && i % 4 == j
      invariant |chunk| == if parts.None? then i else CHUNK
      invariant TextSoFar(parts, chunk, i) + Emitted(buffer[s..end], j, t) == Encoded(buffer[start..end])
    {
      assert buffer[s..end] == [buffer[s]] + buffer[s + 1..end];
      j, t, chunk, i := EncodeByte(buffer[s], j, t, chunk, i, parts, buffer[s + 1..end]);
      s := s + 1;
      if i > CHUNK - 1 {
        assert i == CHUNK == |chunk| && chunk[..i] == chunk;
        FlushKeepsText(parts, chunk, i, chunk);
        parts := Some((if parts.None? then [] else parts.value) + [chunk]);
        i := 0;
      }
    }
    assert buffer[s..end] == [];
    text := EncodeEnd(parts, chunk, i, j, t);
  }

  // ----- The decoder -----

  /** The byte that step j completes. */
  function Byte(j: nat, t: nat, c: nat): byte
    requires 1 <= j < 4 && t < 64 && c < 64
  {
    if j == 1 then t * 4 + c / 16 else if j == 2 then t % 16 * 16 + c / 4 else t % 4 * 64 + c
  }

  /** The bytes of the remaining text, in step j with the last sextet t, or nothing if the text is not
      an encoding. Padding ends the text where a byte is complete. */
  function Decoded(text: seq<nat>, j: nat, t: nat): Option<bytes>
    requires j < 4 && t < 64
    decreases text
  {
    if text == [] then if j == 1 then None else Some([])
    else if text[0] == PAD && j > 1 then Some([])
    else
      var c := Place(text[0]);
      if c.None? then None
      else
        var rest := Decoded(text[1..], (j + 1) % 4, c.value);
        if rest.None? then None
        else if j == 0 then rest
        else Some([Byte(j, t, c.value)] + rest.value)
  }

  /** The same byte with its bits joined by `|`. */
  function JoinedByte(j: nat, t: nat, c: nat): (b: byte)
    requires 1 <= j < 4 && t < 64 && c < 64
    ensures b == Byte(j, t, c)
  {
    Powers2();
    if j == 1 then
      OrIsSum(c / 16, t * 4, 2);
      Or(t * 4, c / 16)
    else if j == 2 then
      OrIsSum(c / 4, t % 16 * 16, 4);
      Or(t % 16 * 16, c / 4)
    else
      OrIsSum(c, t % 4 * 64, 6);
      Or(t % 4 * 64, c)
  }

  /** buf[pos + k] := data[k], where writes behind the end of the buffer are lost. */
  function Stored(buf: bytes, pos: nat, data: bytes): (r: bytes)
    ensures |r| == |buf|
  {
    if data == [] then buf
    else
      var n := |data| - 1;
      var before := Stored(buf, pos, data[..n]);
      if pos + n < |buf| then before[pos + n := data[n]] else before
  }

  /** What was decoded already, and what comes behind it. */
  ghost function Behind(out: bytes, rest: Option<bytes>): Option<bytes> {
    if rest.None? then None else Some(out + rest.value)
  }

  lemma BehindNext(out: bytes, b: byte, rest: Option<bytes>)
    ensures rest.Some? ==> Behind(out, Some([b] + rest.value)) == Behind(out + [b], rest)
  {
    if rest.Some? {
      assert out + ([b] + rest.value) == out + [b] + rest.value;
    }
  }

  lemma BehindEnds(out: bytes, rest: Option<bytes>)
    ensures Behind([], rest) == rest && Behind(out, Some([])) == Some(out)
  {
    assert out + [] == out;
    if rest.Some? {
      assert [] + rest.value == rest.value;
    }
  }

  method Decode(text: seq<nat>, buffer: array<byte>, offset: nat) returns (written: Option<nat>)
    modifies buffer
    ensures written.Some? <==> Decoded(text, 0, 0).Some?
    ensures written.Some? ==>
      && written.value == |Decoded(text, 0, 0).value|
      && buffer[..] == Stored(old(buffer[..]), offset, Decoded(text, 0, 0).value)
  {
    hide JoinedByte;
    var pos, j, t, i := offset, 0, 0, 0;
    ghost var out: bytes := [];
    assert text[0..] == text;
    BehindEnds([], Decoded(text, 0, 0));
    while i < |text|
      invariant 0 <= i <= |text| && 0 <= j < 4 && 0 <= t < 64
      invariant pos == offset + |out| && buffer[..] == Stored(old(buffer[..]), offset, out)
      invariant Decoded(text, 0, 0) == Behind(out, Decoded(text[i..], j, t))
    {
      var c := text[i];
      assert text[i..][1..] == text[i + 1..];
      i := i + 1;
      if c == PAD && j > 1 {
        BehindEnds(out, None);
        return Some(pos - offset);
      }
      var place := Place(c);
      if place.None? {
        return None;
      }
      if j > 0 {
        var b := JoinedByte(j, t, place.value);
        BehindNext(out, b, Decoded(text[i..], (j + 1) % 4, place.value));
        out := out + [b];
        if pos < buffer.Length {
          buffer[pos] := b;
        }
        pos := pos + 1;
      }
      t := place.value;
      j := (j + 1) % 4;
    }
    BehindEnds(out, None);
    if j == 1 {
      return None;
    }
    return Some(pos - offset);
  }

  // ----- Round trip -----

  lemma DecodedNext(l: sextet, rest: seq<nat>, j: nat, t: nat)
    requires j < 4 && t < 64
    ensures
      var tail := Decoded(rest, (j + 1) % 4, l);
      Decoded([Letter(l)] + rest, j, t)
        == if tail.None? then None else if j == 0 then tail else Some([Byte(j, t, l)] + tail.value)
  {
    hide Letter;
    PlaceOfLetter(l);
    assert ([Letter(l)] + rest)[1..] == rest;
  }

  lemma BytesOfGroup(x: byte, y: byte, z: byte)
    ensures Byte(1, x / 4, x % 4 * 16 + y / 16) == x
    ensures Byte(2, x % 4 * 16 + y / 16, y % 16 * 4 + z / 64) == y
    ensures Byte(3, y % 16 * 4 + z / 64, z % 64) == z
  {
  }

  /** Decoding starts anew after a group of four letters. */
  lemma DecodedGroup(x: byte, y: byte, z: byte, rest: seq<nat>, t: nat)
    requires t < 64
    ensures
      var tail := Decoded(rest, 0, z % 64);
      Decoded(Group(Bits24(x, y, z)) + rest, 0, t) == if tail.None? then None else Some([x, y, z] + tail.value)
  {
    hide Decoded, Letter, Group;
    GroupOf(x, y, z);
    BytesOfGroup(x, y, z);
    var a, b, c, d := x / 4, x % 4 * 16 + y / 16, y % 16 * 4 + z / 64, z % 64;
    DecodedNext(d, rest, 3, c);
    DecodedNext(c, [Letter(d)] + rest, 2, b);
    DecodedNext(b, [Letter(c)] + ([Letter(d)] + rest), 1, a);
    DecodedNext(a, [Letter(b)] + ([Letter(c)] + ([Letter(d)] + rest)), 0, t);
    assert [Letter(a), Letter(b), Letter(c), Letter(d)] + rest
      == [Letter(a)] + ([Letter(b)] + ([Letter(c)] + ([Letter(d)] + rest)));
    var tail := Decoded(rest, 0, d);
    if tail.Some? {
      assert [x] + ([y] + ([z] + tail.value)) == [x, y, z] + tail.value;
    }
  }

  lemma DecodedPadding(j: nat, t: nat, rest: seq<nat>)
    requires 1 < j < 4 && t < 64
    ensures Decoded([PAD] + rest, j, t) == Some([])
  {
  }

  /** What the last group of one or two bytes decodes to. */
  lemma DecodedOne(x: byte, t: nat)
    requires t < 64
    ensures Decoded(Group(Bits24(x, 0, 0))[..2] + [PAD, PAD], 0, t) == Some([x])
  {
    hide Decoded, Letter, Group;
    var a, b := x / 4, x % 4 * 16;
    GroupOf(x, 0, 0);
    BytesOfGroup(x, 0, 0);
    assert [PAD, PAD] == [PAD] + [PAD];
    DecodedPadding(2, b, [PAD]);
    DecodedNext(b, [PAD, PAD], 1, a);
    DecodedNext(a, [Letter(b)] + [PAD, PAD], 0, t);
    assert Group(Bits24(x, 0, 0))[..2] + [PAD, PAD] == [Letter(a)] + ([Letter(b)] + [PAD, PAD]);
    assert [x] + [] == [x];
  }

  lemma DecodedTwo(x: byte, y: byte, t: nat)
    requires t < 64
    ensures Decoded(Group(Bits24(x, y, 0))[..3] + [PAD], 0, t) == Some([x, y])
  {
    hide Decoded, Letter, Group;
    var a, c, d := x / 4, x % 4 * 16 + y / 16, y % 16 * 4;
    GroupOf(x, y, 0);
    BytesOfGroup(x, y, 0);
    assert [PAD] == [PAD] + [];
    DecodedPadding(3, d, []);
    DecodedNext(d, [PAD], 2, c);
    DecodedNext(c, [Letter(d)] + [PAD], 1, a);
    DecodedNext(a, [Letter(c)] + ([Letter(d)] + [PAD]), 0, t);
    assert Group(Bits24(x, y, 0))[..3] + [PAD] == [Letter(a)] + ([Letter(c)] + ([Letter(d)] + [PAD]));
    assert [x] + ([y] + []) == [x, y];
  }

  lemma DecodedNothing(t: nat)
    requires t < 64
    ensures Decoded([], 0, t) == Some([])
  {
  }

  /** Decoding inverts encoding. */
  lemma {:induction false} DecodesEncoded(b: bytes, t: nat)
    requires t < 64
    ensures Decoded(Encoded(b), 0, t) == Some(b)
    decreases b
  {
    hide Decoded, Group, Letter, Bits24;
    if b == [] {
      DecodedNothing(t);
    } else if |b| == 1 {
      DecodedOne(b[0], t);
      assert b == [b[0]];
    } else if |b| == 2 {
      DecodedTwo(b[0], b[1], t);
      assert b == [b[0], b[1]];
    } else {
      DecodedGroup(b[0], b[1], b[2], Encoded(b[3..]), t);
      DecodesEncoded(b[3..], b[2] % 64);
      assert b == [b[0], b[1], b[2]] + b[3..];
    }
  }

  /** In a buffer with enough room the decoded bytes end up one behind the other. */
  lemma {:induction false} StoredFits(buf: bytes, pos: nat, data: bytes)
    requires pos + |data| <= |buf|
    ensures Stored(buf, pos, data) == buf[..pos] + data + buf[pos + |data|..]
  {
    if data == [] {
      assert buf[..pos] + data + buf[pos..] == buf;
    } else {
      var n := |data| - 1;
      StoredFits(buf, pos, data[..n]);
      assert data == data[..n] + [data[n]];
    }
  }

  // ----- The length of a text -----

  /** The number of padding characters in the last two places of a text; where a text of which the
      length is no multiple of four ends, there is at most one such place. */
  function Padding(text: seq<nat>, p: nat): nat
    requires p <= |text|
  {
    if p > 0 && (p - 1) % 4 > 1 && text[p - 1] == PAD then 1 + Padding(text, p - 1) else 0
  }

  /** Three bytes for four characters, less the padding. The result is a fraction for some texts that
      are no encoding. */
  method Length(text: seq<nat>) returns (r: real)
    ensures r == (3 * |text|) as real / 4.0 - Padding(text, |text|) as real
  {
    if |text| == 0 {
      return 0.0;
    }
    var p, n := |text| - 1, 0;
    while p % 4 > 1 && text[p] == PAD
      invariant 0 <= p < |text| && n + Padding(text, p + 1) == Padding(text, |text|)
      decreases p
    {
      n := n + 1;
      p := p - 1;
    }
    return (3 * |text|) as real / 4.0 - n as real;
  }

  lemma PaddingOfGroups(text: seq<nat>)
    requires |text| > 0 && |text| % 4 == 0
    ensures Padding(text, |text|) ==
      if text[|text| - 1] != PAD then 0 else if text[|text| - 2] != PAD then 1 else 2
  {
    var n := |text|;
    assert (n - 1) % 4 == 3 && (n - 2) % 4 == 2 && (n - 3) % 4 == 1;
    assert Padding(text, n - 2) == 0;
  }

  /** The length of a text of whole groups. */
  function GroupsLength(text: seq<nat>): (n: nat)
    requires |text| % 4 == 0
    ensures n as real == (3 * |text|) as real / 4.0 - Padding(text, |text|) as real
    ensures |text| > 0 ==> n > 0
    ensures n <= |text|
  {
    if |text| == 0 then 0
    else
      PaddingOfGroups(text);
      3 * (|text| / 4) - Padding(text, |text|)
  }

  lemma NoPadding()
    ensures Padding([], 0) == 0
  {
  }

  lemma PaddingAfterGroup(g: seq<nat>, rest: seq<nat>)
    requires |g| == 4 && g[3] != PAD && |rest| % 4 == 0
    ensures |g + rest| % 4 == 0 && Padding(g + rest, |g + rest|) == Padding(rest, |rest|)
  {
    hide Padding;
    var text := g + rest;
    PaddingOfGroups(text);
    if rest == [] {
      NoPadding();
      assert text[|text| - 1] == g[3];
    } else {
      PaddingOfGroups(rest);
      assert text[|text| - 1] == rest[|rest| - 1] && text[|text| - 2] == rest[|rest| - 2];
    }
  }

  /** The shape of an encoding: a multiple of four characters, and padding exactly for what is missing
      in the last group. */
  lemma {:induction false} EncodedShape(b: bytes)
    ensures |Encoded(b)| % 4 == 0 && Padding(Encoded(b), |Encoded(b)|) <= 2
    ensures 4 * |b| == 3 * |Encoded(b)| - 4 * Padding(Encoded(b), |Encoded(b)|)
    decreases b
  {
    hide Padding, Letter, Bits24;
    var text := Encoded(b);
    if |b| == 0 {
      NoPadding();
    } else if |b| < 3 {
      PaddingOfGroups(text);
    } else {
      EncodedShape(b[3..]);
      PaddingAfterGroup(Group(Bits24(b[0], b[1], b[2])), Encoded(b[3..]));
    }
  }

  /** The length that a caller allocates for an encoding is the number of bytes it decodes to. */
  lemma LengthOfEncoded(b: bytes)
    ensures
      var text := Encoded(b);
      (3 * |text|) as real / 4.0 - Padding(text, |text|) as real == |b| as real
  {
    EncodedShape(b);
  }

  /** Encoding a part of a buffer and decoding the text into a buffer of that size. */
  method RoundTrip(buffer: array<byte>, start: nat, end: nat) returns (copy: array<byte>)
    requires start <= end <= buffer.Length
    ensures fresh(copy) && copy[..] == buffer[start..end]
  {
    var text := Encode(buffer, start, end);
    var size := Length(text);
    LengthOfEncoded(buffer[start..end]);
    copy := new byte[size.Floor](_ => 0);
    DecodesEncoded(buffer[start..end], 0);
    StoredFits(copy[..], 0, buffer[start..end]);
    var written := Decode(text, copy, 0);
  }
}
