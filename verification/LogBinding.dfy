/** What the servers' signatures on a log bind. */
module LogBinding {
  import opened Zq
  import opened Suites
  import opened Encoding
  import opened Challenges
  import opened ServerSide

  // ----- The bytes of an entry -----

  ghost predicate ProofBelow(q: nat, p: ServerProof) {
    p.t1 < q && p.t2 < q && p.t3 < q && p.c < q && p.r1 < q && (p.r2.Some? ==> p.r2.value < q)
  }

  /** The sizes of what is appended for an entry: the kind of its proof and the length of its index. */
  predicate SameShape(e: Entry, f: Entry) {
    e.proof.r2.Some? == f.proof.r2.Some? && |Itoa(e.index)| == |Itoa(f.index)|
  }

  /** The entries agree in all but their signatures. */
  predicate SameEntry(e: Entry, f: Entry) {
    e.tag == f.tag && e.proof == f.proof && e.index == f.index
  }

  lemma ServerProofBytesLength(suite: Suite, p: ServerProof)
    requires suite.Valid()
    ensures |ServerProofBytes(suite, p)| == UNIT * (if p.r2.Some? then 6 else 5)
  {
  }

  lemma ServerProofBytesInjective(suite: Suite, p: ServerProof, p': ServerProof)
    requires suite.Valid() && suite.Decodable() && ProofBelow(suite.q, p) && ProofBelow(suite.q, p')
    requires p.r2.Some? == p'.r2.Some? && ServerProofBytes(suite, p) == ServerProofBytes(suite, p')
    ensures p == p'
  {
    var pb, sb := suite.pointBytes, suite.scalarBytes;
    var last, last' := if p.r2.Some? then sb(p.r2.value) else [], if p'.r2.Some? then sb(p'.r2.value) else [];
    SplitAt(pb(p.t1) + pb(p.t2) + pb(p.t3) + sb(p.c) + sb(p.r1), last,
      pb(p'.t1) + pb(p'.t2) + pb(p'.t3) + sb(p'.c) + sb(p'.r1), last');
    SplitAt(pb(p.t1) + pb(p.t2) + pb(p.t3) + sb(p.c), sb(p.r1), pb(p'.t1) + pb(p'.t2) + pb(p'.t3) + sb(p'.c), sb(p'.r1));
    SplitAt(pb(p.t1) + pb(p.t2) + pb(p.t3), sb(p.c), pb(p'.t1) + pb(p'.t2) + pb(p'.t3), sb(p'.c));
    SplitAt(pb(p.t1) + pb(p.t2), pb(p.t3), pb(p'.t1) + pb(p'.t2), pb(p'.t3));
    SplitAt(pb(p.t1), pb(p.t2), pb(p'.t1), pb(p'.t2));
    assert suite.pointOf(pb(p.t1)) == p.t1 && suite.pointOf(pb(p.t2)) == p.t2 && suite.pointOf(pb(p.t3)) == p.t3;
    assert suite.scalarOf(sb(p.c)) == p.c && suite.scalarOf(sb(p.r1)) == p.r1;
    if p.r2.Some? {
      assert suite.scalarOf(sb(p.r2.value)) == p.r2.value;
    }
  }

  lemma EntryBytesLength(suite: Suite, e: Entry)
    requires suite.Valid()
    ensures |EntryBytes(suite, e.tag, e.proof, e.index)| == UNIT * (if e.proof.r2.Some? then 7 else 6) + |Itoa(e.index)|
  {
    ServerProofBytesLength(suite, e.proof);
  }

  lemma EntryBytesInjective(suite: Suite, e: Entry, f: Entry)
    requires suite.Valid() && suite.Decodable()
    requires e.tag < suite.q && f.tag < suite.q && ProofBelow(suite.q, e.proof) && ProofBelow(suite.q, f.proof)
    requires e.proof.r2.Some? == f.proof.r2.Some?
    requires EntryBytes(suite, e.tag, e.proof, e.index) == EntryBytes(suite, f.tag, f.proof, f.index)
    ensures SameEntry(e, f)
  {
    hide ServerProofBytes, Itoa;
    var a1, a2, a3 := suite.pointBytes(e.tag), ServerProofBytes(suite, e.proof), Itoa(e.index);
    var b1, b2, b3 := suite.pointBytes(f.tag), ServerProofBytes(suite, f.proof), Itoa(f.index);
    ServerProofBytesLength(suite, e.proof);
    ServerProofBytesLength(suite, f.proof);
    SplitAt(a1 + a2, a3, b1 + b2, b3);
    SplitAt(a1, a2, b1, b2);
    assert suite.pointOf(a1) == e.tag && suite.pointOf(b1) == f.tag;
    ServerProofBytesInjective(suite, e.proof, f.proof);
    ItoaInjective(e.index, f.index);
  }

  // ----- The bytes of a log -----

  ghost predicate LogBelow(q: nat, log: Log) {
    forall i :: 0 <= i < |log| ==> log[i].tag < q && ProofBelow(q, log[i].proof)
  }

  /** A request whose bytes can be read back. */
  ghost predicate Readable(suite: Suite, m: AuthenticationMessage) {
    ValidContext(m.context) && WellFormedRequest(m) && RequestBelow(suite.q, m)
  }

  /** What the signature of server n - 1 binds: for logs of the same shape the signed bytes determine
      the request, but for the signatures on its challenge, and every tag, proof and index up to there. */
  lemma {:induction false} LogBytesInjective(
    suite: Suite, m: AuthenticationMessage, log: Log, m': AuthenticationMessage, log': Log, n: nat)
    requires suite.Valid() && suite.Decodable() && n <= |log| && n <= |log'|
    requires Readable(suite, m) && Readable(suite, m') && |m.context.X| == |m'.context.X|
    requires LogBelow(suite.q, log) && LogBelow(suite.q, log')
    requires forall i :: 0 <= i < n ==> SameShape(log[i], log'[i])
    ensures LogBytes(suite, m, log, n) == LogBytes(suite, m', log', n) <==>
      Unsigned(m) == Unsigned(m') && forall i :: 0 <= i < n ==> SameEntry(log[i], log'[i])
  {
    hide EntryBytes, RequestBytes, Unsigned, RequestBelow, Itoa, Suite.Valid, Inverts, WellFormedRequest;
    if n == 0 {
      RequestBytesInjective(suite, m, m');
    } else {
      var e, f := log[n - 1], log'[n - 1];
      LogBytesInjective(suite, m, log, m', log', n - 1);
      assert SameShape(e, f);
      EntryBytesLength(suite, e);
      EntryBytesLength(suite, f);
      if LogBytes(suite, m, log, n) == LogBytes(suite, m', log', n) {
        SplitAt(LogBytes(suite, m, log, n - 1), EntryBytes(suite, e.tag, e.proof, e.index),
          LogBytes(suite, m', log', n - 1), EntryBytes(suite, f.tag, f.proof, f.index));
        EntryBytesInjective(suite, e, f);
      }
    }
  }

  // ----- What accepted signatures bind -----

  /** Two accepted logs that carry the same signature of the same server at position i agree in their
      requests and in everything up to and including entry i, or the signature verifies for two messages. */
  lemma SignatureFixesLog(
    suite: Suite, c: Context, m: AuthenticationMessage, log: Log, m': AuthenticationMessage, log': Log, i: nat)
    requires suite.Valid() && suite.Decodable() && i < |log| && i < |log'|
    requires Readable(suite, m) && Readable(suite, m') && |m.context.X| == |m'.context.X|
    requires LogBelow(suite.q, log) && LogBelow(suite.q, log')
    requires forall k :: 0 <= k <= i ==> SameShape(log[k], log'[k])
    requires LogAccepted(suite, c, m, log) && LogAccepted(suite, c, m', log') && log[i].sig == log'[i].sig
    ensures 0 <= log[i].sig.index < |c.Y|
    ensures
      || (Unsigned(m) == Unsigned(m') && forall k :: 0 <= k <= i ==> SameEntry(log[k], log'[k]))
      || Reused(suite, c.Y[log[i].sig.index], LogBytes(suite, m, log, i + 1), LogBytes(suite, m', log', i + 1), log[i].sig.sig)
  {
    hide EntryBytes, RequestBytes, Unsigned, RequestBelow, Itoa, Suite.Valid, Inverts, WellFormedRequest, LogBytes,
      ProofsAcceptedUpTo, ProofBelow, SameEntry;
    LogBytesInjective(suite, m, log, m', log', i + 1);
    SignaturesAcceptedAt(suite, c, m, log, |log|, i);
    SignaturesAcceptedAt(suite, c, m', log', |log'|, i);
  }
}
