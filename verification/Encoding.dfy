/** The byte strings that get signed and hashed, and what they bind.

    Marshalled points and scalars have a fixed size, but the encodings carry no lengths. */
module Encoding {
  import opened Zq
  import opened Suites

  // ----- Decimal text of an index -----

  function Digits(n: nat): (r: bytes)
    ensures |r| > 0 && (|r| == 1 <==> n < 10)
    ensures forall i :: 0 <= i < |r| ==> 48 <= r[i] <= 57
  {
    if n < 10 then [48 + n] else Digits(n / 10) + [48 + n % 10]
  }

  function Itoa(n: int): (r: bytes)
    ensures |r| > 0 && (r[0] == 45 <==> n < 0)
  {
    if n < 0 then [45] + Digits(-n) else Digits(n)
  }

  /** The number that a decimal text stands for. */
  function Decimal(text: bytes): nat {
    if text == [] || text[|text| - 1] < 48 then 0 else 10 * Decimal(text[..|text| - 1]) + (text[|text| - 1] - 48)
  }

  lemma {:induction false} DigitsAreDecimal(n: nat)
    ensures Decimal(Digits(n)) == n
  {
    var text := Digits(n);
    assert text[|text| - 1] == 48 + n % 10;
    if n >= 10 {
      DigitsAreDecimal(n / 10);
      assert text[..|text| - 1] == Digits(n / 10);
    } else {
      assert text[..|text| - 1] == [];
    }
  }

  lemma {:induction false} DigitsInjective(a: nat, b: nat)
    requires Digits(a) == Digits(b)
    ensures a == b
    decreases a
  {
    var x, y := Digits(a), Digits(b);
    assert x[|x| - 1] == 48 + a % 10 && y[|y| - 1] == 48 + b % 10;
    if a >= 10 && b >= 10 {
      assert x[..|x| - 1] == Digits(a / 10) && y[..|y| - 1] == Digits(b / 10);
      DigitsInjective(a / 10, b / 10);
    }
  }

  lemma ItoaInjective(a: int, b: int)
    requires Itoa(a) == Itoa(b)
    ensures a == b
  {
    if a >= 0 && b >= 0 {
      DigitsInjective(a, b);
    } else if a < 0 && b < 0 {
      assert Digits(-a) == Itoa(a)[1..] && Digits(-b) == Itoa(b)[1..];
      DigitsInjective(-a, -b);
    }
  }

  // ----- Arrays of points and scalars -----

  /** The concatenation of fixed-size encodings. */
  function Concat(enc: nat -> bytes, xs: seq<nat>): (r: bytes) {
    if xs == [] then [] else Concat(enc, xs[..|xs| - 1]) + enc(xs[|xs| - 1])
  }

  function PointsBytes(suite: Suite, ps: seq<Point>): bytes {
    Concat(suite.pointBytes, ps)
  }

  function ScalarsBytes(suite: Suite, ss: seq<Scalar>): bytes {
    Concat(suite.scalarBytes, ss)
  }

  method PointArrayToBytes(suite: Suite, ps: seq<Point>) returns (data: bytes)
    ensures data == PointsBytes(suite, ps)
  {
    data := [];
    for i := 0 to |ps|
      invariant data == PointsBytes(suite, ps[..i])
    {
      assert ps[..i + 1][..i] == ps[..i];
      data := data + suite.pointBytes(ps[i]);
    }
    assert ps[..|ps|] == ps;
  }

  method ScalarArrayToBytes(suite: Suite, ss: seq<Scalar>) returns (data: bytes)
    ensures data == ScalarsBytes(suite, ss)
  {
    data := [];
    for i := 0 to |ss|
      invariant data == ScalarsBytes(suite, ss[..i])
    {
      assert ss[..i + 1][..i] == ss[..i];
      data := data + suite.scalarBytes(ss[i]);
    }
    assert ss[..|ss|] == ss;
  }

  lemma {:induction false} ConcatLength(enc: nat -> bytes, xs: seq<nat>)
    requires forall x :: |enc(x)| == UNIT
    ensures |Concat(enc, xs)| == UNIT * |xs|
  {
    if xs != [] {
      ConcatLength(enc, xs[..|xs| - 1]);
    }
  }

  /** A concatenation of fixed-size injective encodings determines the sequence. */
  lemma {:induction false} ConcatInjective(q: nat, enc: nat -> bytes, dec: bytes -> nat, xs: seq<nat>, ys: seq<nat>)
    requires forall x :: |enc(x)| == UNIT
    requires Inverts(q, enc, dec)
    requires AllBelow(q, xs) && AllBelow(q, ys)
    requires Concat(enc, xs) == Concat(enc, ys)
    ensures xs == ys
  {
    ConcatLength(enc, xs);
    ConcatLength(enc, ys);
    assert |xs| == |ys|;
    if xs != [] {
      var n := |xs| - 1;
      var a, b := Concat(enc, xs[..n]), Concat(enc, ys[..n]);
      ConcatLength(enc, xs[..n]);
      ConcatLength(enc, ys[..n]);
      assert a == Concat(enc, xs)[..|a|] && b == Concat(enc, ys)[..|a|];
      assert enc(xs[n]) == Concat(enc, xs)[|a|..] && enc(ys[n]) == Concat(enc, ys)[|a|..];
      ConcatInjective(q, enc, dec, xs[..n], ys[..n]);
      assert xs == xs[..n] + [xs[n]] && ys == ys[..n] + [ys[n]];
    }
  }

  lemma ConcatSnoc(enc: nat -> bytes, xs: seq<nat>, x: nat)
    ensures Concat(enc, xs + [x]) == Concat(enc, xs) + enc(x)
  {
    assert (xs + [x])[..|xs|] == xs;
  }

  lemma ConcatOfThree(enc: nat -> bytes, xs: seq<nat>, a: nat, b: nat, c: nat)
    ensures Concat(enc, xs + [a, b, c]) == Concat(enc, xs) + enc(a) + enc(b) + enc(c)
  {
    ConcatSnoc(enc, xs, a);
    ConcatSnoc(enc, xs + [a], b);
    ConcatSnoc(enc, xs + [a] + [b], c);
    assert xs + [a] + [b] + [c] == xs + [a, b, c];
  }

  lemma ConcatOfSix(enc: nat -> bytes, a: nat, b: nat, c: nat, d: nat, e: nat, f: nat)
    ensures Concat(enc, [a, b, c, d, e, f]) == enc(a) + enc(b) + enc(c) + enc(d) + enc(e) + enc(f)
  {
    ConcatOfThree(enc, [], a, b, c);
    ConcatOfThree(enc, [a, b, c], d, e, f);
    assert [] + [a, b, c] == [a, b, c] && [a, b, c] + [d, e, f] == [a, b, c, d, e, f];
    assert Concat(enc, []) + enc(a) == enc(a);
  }

  lemma ConcatOfNine(enc: nat -> bytes, a: nat, b: nat, c: nat, d: nat, e: nat, f: nat, g: nat, h: nat, i: nat)
    ensures Concat(enc, [a, b, c, d, e, f, g, h, i]) ==
      enc(a) + enc(b) + enc(c) + enc(d) + enc(e) + enc(f) + enc(g) + enc(h) + enc(i)
  {
    ConcatOfSix(enc, a, b, c, d, e, f);
    ConcatOfThree(enc, [a, b, c, d, e, f], g, h, i);
    assert [a, b, c, d, e, f] + [g, h, i] == [a, b, c, d, e, f, g, h, i];
  }

  lemma SplitAt(a: bytes, b: bytes, c: bytes, d: bytes)
    requires a + b == c + d && |a| == |c|
    ensures a == c && b == d
  {
    assert a == (a + b)[..|a|] && c == (c + d)[..|a|];
    assert b == (a + b)[|a|..] && d == (c + d)[|a|..];
  }

  // ----- The signed challenge -----

  function ChallengeBytes(suite: Suite, cs: Scalar, commits: seq<Point>): bytes {
    suite.scalarBytes(cs) + PointsBytes(suite, commits)
  }

  /** A signature on a challenge binds both the challenge and the client's commitments. */
  lemma ChallengeBytesInjective(suite: Suite, cs: Scalar, ts: seq<Point>, cs': Scalar, ts': seq<Point>)
    requires suite.Valid() && suite.Decodable()
    requires cs < suite.q && cs' < suite.q && AllBelow(suite.q, ts) && AllBelow(suite.q, ts')
    requires ChallengeBytes(suite, cs, ts) == ChallengeBytes(suite, cs', ts')
    ensures cs == cs' && ts == ts'
  {
    SplitAt(suite.scalarBytes(cs), PointsBytes(suite, ts), suite.scalarBytes(cs'), PointsBytes(suite, ts'));
    assert suite.scalarOf(suite.scalarBytes(cs)) == cs;
    ConcatInjective(suite.q, suite.pointBytes, suite.pointOf, ts, ts');
  }

  // ----- The signed context -----

  function ContextBytes(suite: Suite, c: Context): bytes {
    PointsBytes(suite, c.X) + PointsBytes(suite, c.Y) + PointsBytes(suite, c.H) + PointsBytes(suite, c.R)
  }

  method AuthenticationContextToBytes(suite: Suite, c: Context) returns (data: bytes)
    ensures data == ContextBytes(suite, c)
  {
    data := PointArrayToBytes(suite, c.X);
    var temp := PointArrayToBytes(suite, c.Y);
    data := data + temp;
    temp := PointArrayToBytes(suite, c.H);
    data := data + temp;
    temp := PointArrayToBytes(suite, c.R);
    data := data + temp;
  }

  ghost predicate ContextBelow(q: nat, c: Context) {
    AllBelow(q, c.X) && AllBelow(q, c.Y) && AllBelow(q, c.H) && AllBelow(q, c.R)
  }

  lemma ContextBytesLength(suite: Suite, c: Context)
    requires suite.Valid() && ValidContext(c)
    ensures |ContextBytes(suite, c)| == UNIT * (2 * |c.X| + 2 * |c.Y|)
  {
    ConcatLength(suite.pointBytes, c.X);
    ConcatLength(suite.pointBytes, c.Y);
    ConcatLength(suite.pointBytes, c.H);
    ConcatLength(suite.pointBytes, c.R);
  }

  lemma {:induction false} ConcatAppend(enc: nat -> bytes, xs: seq<nat>, ys: seq<nat>)
    ensures Concat(enc, xs + ys) == Concat(enc, xs) + Concat(enc, ys)
  {
    if ys == [] {
      assert xs + ys == xs;
    } else {
      var n := |ys| - 1;
      hide Concat;
      ConcatAppend(enc, xs, ys[..n]);
      ConcatSnoc(enc, ys[..n], ys[n]);
      ConcatSnoc(enc, xs + ys[..n], ys[n]);
      assert ys[..n] + [ys[n]] == ys && xs + ys[..n] + [ys[n]] == xs + ys;
    }
  }

  /** All points of a context in the order in which they are marshalled. */
  function AllPoints(c: Context): seq<Point> {
    c.X + c.Y + c.H + c.R
  }

  lemma ContextBytesOfPoints(suite: Suite, c: Context)
    ensures ContextBytes(suite, c) == PointsBytes(suite, AllPoints(c))
  {
    var enc := suite.pointBytes;
    ConcatAppend(enc, c.X, c.Y);
    ConcatAppend(enc, c.X + c.Y, c.H);
    ConcatAppend(enc, c.X + c.Y + c.H, c.R);
  }

  lemma ContextOfPoints(c: Context)
    requires ValidContext(c)
    ensures
      var p, n, m := AllPoints(c), |c.X|, |c.Y|;
      |p| == n + m + n + m &&
      c == Context(p[..n], p[n..n + m], p[n + m + n..], p[n + m..n + m + n])
  {
  }

  lemma SamePoints(c: Context, d: Context)
    requires ValidContext(c) && ValidContext(d)
    requires |c.X| == |d.X| && AllPoints(c) == AllPoints(d)
    ensures c == d
  {
    ContextOfPoints(c);
    ContextOfPoints(d);
  }

  /** What a signature on a context binds: two validated contexts with the same signed bytes are
      the same context exactly when they have the same number of clients. */
  lemma ContextBytesInjectiveIff(suite: Suite, c: Context, d: Context)
    requires suite.Valid() && suite.Decodable()
    requires ValidContext(c) && ValidContext(d)
    requires ContextBelow(suite.q, c) && ContextBelow(suite.q, d)
    requires ContextBytes(suite, c) == ContextBytes(suite, d)
    ensures c == d <==> |c.X| == |d.X|
  {
    ContextBytesLength(suite, c);
    ContextBytesLength(suite, d);
    ContextBytesOfPoints(suite, c);
    ContextBytesOfPoints(suite, d);
    ConcatInjective(suite.q, suite.pointBytes, suite.pointOf, AllPoints(c), AllPoints(d));
    if |d.X| == |c.X| {
      SamePoints(c, d);
    }
  }

  /** The encoding is ambiguous: one client and two servers, or two clients and one server. */
  lemma ContextBytesAmbiguous(suite: Suite, a: Point, b: Point, c: Point, d: Point, e: Point, f: Point)
    requires suite.Valid()
    ensures
      var small := Context([a], [b, c], [e, f], [d]);
      var large := Context([a, b], [c], [f], [d, e]);
      ValidContext(small) && ValidContext(large) && small != large &&
      ContextBytes(suite, small) == ContextBytes(suite, large)
  {
    var small := Context([a], [b, c], [e, f], [d]);
    var large := Context([a, b], [c], [f], [d, e]);
    ContextBytesOfPoints(suite, small);
    ContextBytesOfPoints(suite, large);
    assert AllPoints(small) == [a, b, c, d, e, f] == AllPoints(large);
  }

  // ----- The signed authentication message -----

  function ClientProofBytes(suite: Suite, p: ClientProof): bytes {
    suite.scalarBytes(p.cs.cs) + PointsBytes(suite, p.t) + ScalarsBytes(suite, p.c) + ScalarsBytes(suite, p.r)
  }

  method ClientProofToBytes(suite: Suite, p: ClientProof) returns (data: bytes)
    ensures data == ClientProofBytes(suite, p)
  {
    data := suite.scalarBytes(p.cs.cs);
    var temp := PointArrayToBytes(suite, p.t);
    data := data + temp;
    temp := ScalarArrayToBytes(suite, p.c);
    data := data + temp;
    temp := ScalarArrayToBytes(suite, p.r);
    data := data + temp;
  }

  function RequestBytes(suite: Suite, m: AuthenticationMessage): bytes {
    ContextBytes(suite, m.context) + PointsBytes(suite, m.initial.sCommits)
      + suite.pointBytes(m.initial.t0) + ClientProofBytes(suite, m.p0)
  }

  method AuthenticationMessageToBytes(suite: Suite, m: AuthenticationMessage) returns (data: bytes)
    ensures data == RequestBytes(suite, m)
  {
    data := AuthenticationContextToBytes(suite, m.context);
    var temp := PointArrayToBytes(suite, m.initial.sCommits);
    data := data + temp;
    data := data + suite.pointBytes(m.initial.t0);
    temp := ClientProofToBytes(suite, m.p0);
    data := data + temp;
  }

  ghost predicate RequestBelow(q: nat, m: AuthenticationMessage) {
    && ContextBelow(q, m.context)
    && AllBelow(q, m.initial.sCommits) && m.initial.t0 < q
    && m.p0.cs.cs < q && AllBelow(q, m.p0.t) && AllBelow(q, m.p0.c) && AllBelow(q, m.p0.r)
  }

  /** A request without the signatures on its challenge, which the encoding leaves out. */
  function Unsigned(m: AuthenticationMessage): AuthenticationMessage {
    m.(p0 := m.p0.(cs := m.p0.cs.(sigs := [])))
  }

  lemma RequestBytesLength(suite: Suite, m: AuthenticationMessage)
    requires suite.Valid() && ValidContext(m.context) && WellFormedRequest(m)
    ensures |RequestBytes(suite, m)| == UNIT * (8 * |m.context.X| + 3 * |m.context.Y| + 4)
    ensures |PointsBytes(suite, m.initial.sCommits)| == UNIT * (|m.context.Y| + 2)
    ensures |PointsBytes(suite, m.p0.t)| == UNIT * (3 * |m.context.X|)
    ensures |ScalarsBytes(suite, m.p0.c)| == UNIT * |m.context.X|
  {
    ContextBytesLength(suite, m.context);
    ConcatLength(suite.pointBytes, m.initial.sCommits);
    ConcatLength(suite.pointBytes, m.p0.t);
    ConcatLength(suite.scalarBytes, m.p0.c);
    ConcatLength(suite.scalarBytes, m.p0.r);
  }

  lemma ClientProofBytesInjective(suite: Suite, m: AuthenticationMessage, n: AuthenticationMessage)
    requires suite.Valid() && suite.Decodable()
    requires ValidContext(m.context) && WellFormedRequest(m) && RequestBelow(suite.q, m)
    requires ValidContext(n.context) && WellFormedRequest(n) && RequestBelow(suite.q, n)
    requires |m.context.X| == |n.context.X|
    requires ClientProofBytes(suite, m.p0) == ClientProofBytes(suite, n.p0)
    ensures Unsigned(m).p0 == Unsigned(n).p0
  {
    RequestBytesLength(suite, m);
    RequestBytesLength(suite, n);
    var a1, a2, a3, a4 := suite.scalarBytes(m.p0.cs.cs), PointsBytes(suite, m.p0.t), ScalarsBytes(suite, m.p0.c), ScalarsBytes(suite, m.p0.r);
    var b1, b2, b3, b4 := suite.scalarBytes(n.p0.cs.cs), PointsBytes(suite, n.p0.t), ScalarsBytes(suite, n.p0.c), ScalarsBytes(suite, n.p0.r);
    SplitAt(a1 + a2 + a3, a4, b1 + b2 + b3, b4);
    SplitAt(a1 + a2, a3, b1 + b2, b3);
    SplitAt(a1, a2, b1, b2);
    ConcatInjective(suite.q, suite.pointBytes, suite.pointOf, m.p0.t, n.p0.t);
    ConcatInjective(suite.q, suite.scalarBytes, suite.scalarOf, m.p0.c, n.p0.c);
    ConcatInjective(suite.q, suite.scalarBytes, suite.scalarOf, m.p0.r, n.p0.r);
  }

  /** The bytes under the servers' signatures bind the whole request but the challenge signatures. */
  lemma RequestBytesInjective(suite: Suite, m: AuthenticationMessage, n: AuthenticationMessage)
    requires suite.Valid() && suite.Decodable()
    requires ValidContext(m.context) && WellFormedRequest(m) && RequestBelow(suite.q, m)
    requires ValidContext(n.context) && WellFormedRequest(n) && RequestBelow(suite.q, n)
    requires |m.context.X| == |n.context.X|
    ensures RequestBytes(suite, m) == RequestBytes(suite, n) <==> Unsigned(m) == Unsigned(n)
  {
    if RequestBytes(suite, m) == RequestBytes(suite, n) {
      RequestBytesLength(suite, m);
      RequestBytesLength(suite, n);
      ContextBytesLength(suite, m.context);
      ContextBytesLength(suite, n.context);
      var a1, a2, a3, a4 := ContextBytes(suite, m.context), PointsBytes(suite, m.initial.sCommits), suite.pointBytes(m.initial.t0), ClientProofBytes(suite, m.p0);
      var b1, b2, b3, b4 := ContextBytes(suite, n.context), PointsBytes(suite, n.initial.sCommits), suite.pointBytes(n.initial.t0), ClientProofBytes(suite, n.p0);
      SplitAt(a1 + a2 + a3, a4, b1 + b2 + b3, b4);
      SplitAt(a1 + a2, a3, b1 + b2, b3);
      SplitAt(a1, a2, b1, b2);
      ContextBytesInjectiveIff(suite, m.context, n.context);
      ConcatInjective(suite.q, suite.pointBytes, suite.pointOf, m.initial.sCommits, n.initial.sCommits);
      ClientProofBytesInjective(suite, m, n);
    }
  }

  function ServerProofBytes(suite: Suite, p: ServerProof): bytes {
    suite.pointBytes(p.t1) + suite.pointBytes(p.t2) + suite.pointBytes(p.t3)
      + suite.scalarBytes(p.c) + suite.scalarBytes(p.r1)
      + (if p.r2.Some? then suite.scalarBytes(p.r2.value) else [])
  }
}
