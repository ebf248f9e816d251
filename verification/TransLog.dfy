/** The transparency log of src/translog.c: an append-only leaf array, signed tree heads, and the
    split-view check that two heads signed by one log describe one history. */
module TransLog {
  import opened Bytes
  import opened Common
  import opened Merkle
  import MerkleProver

  /** A tree head; the signature over its canonical bytes travels beside it. */
  datatype Sth = Sth(size: nat, root: Digest, timestamp: nat)

  predicate WellSized(s: Sth)
  {
    s.size < U64 && s.timestamp < U64 && |s.root.bytes| == 32
  }

  /** "Veil-STH-v1". */
  const LABEL: seq<byte> := [0x56, 0x65, 0x69, 0x6c, 0x2d, 0x53, 0x54, 0x48, 0x2d, 0x76, 0x31]

  /** The signed bytes: label || u64be(size) || root || u64be(timestamp). */
  function SthBytes(s: Sth): seq<byte>
  {
    LABEL + BigEndian(s.size, 8) + s.root.bytes + BigEndian(s.timestamp, 8)
  }

  /** One signature cannot cover two different heads. */
  lemma SthBytesInjective(s: Sth, t: Sth)
    requires WellSized(s) && WellSized(t) && SthBytes(s) == SthBytes(t)
    ensures s == t
  {
    Pow2Values();
    var (a, b) := (SthBytes(s), SthBytes(t));
    assert a[11..19] == BigEndian(s.size, 8) && b[11..19] == BigEndian(t.size, 8);
    assert a[19..51] == s.root.bytes && b[19..51] == t.root.bytes;
    assert a[51..] == BigEndian(s.timestamp, 8) && b[51..] == BigEndian(t.timestamp, 8);
    BigEndianInjective(s.size, t.size, 8);
    BigEndianInjective(s.timestamp, t.timestamp, 8);
  }

  datatype Verdict = Consistent | Fork | BadSig

  /** Signature verification under the log's public key: message bytes and signature bytes. */
  type Verifier = (seq<byte>, seq<byte>) -> bool

  function VerifySth(v: Verifier, s: Sth, sig: seq<byte>): bool
  {
    v(SthBytes(s), sig)
  }

  function VerifyLogInclusion(h: Hasher, s: Sth, index: nat, data: seq<byte>, proof: seq<Digest>): bool
  {
    index < s.size && VerifyInclusion(h, index, s.size, h.leaf(data), proof, s.root)
  }

  function VerifyLogConsistency(h: Hasher, a: Sth, b: Sth, proof: seq<Digest>): bool
  {
    a.size <= b.size && VerifyConsistency(h, a.size, b.size, a.root, b.root, proof)
  }

  function GossipCheck(h: Hasher, v: Verifier, a: Sth, sigA: seq<byte>, b: Sth, sigB: seq<byte>, proof: seq<Digest>): Verdict
  {
    if !VerifySth(v, a, sigA) then BadSig
    else if !VerifySth(v, b, sigB) then BadSig
    else
      var (lo, hi) := if a.size > b.size then (b, a) else (a, b);
      if lo.size == hi.size then
        if lo.root == hi.root then Consistent else Fork
      else if VerifyConsistency(h, lo.size, hi.size, lo.root, hi.root, proof) then Consistent
      else Fork
  }

  // ---------------------------------------------------------------------------
  // The operator's log
  // ---------------------------------------------------------------------------

  class Log {
    const h: Hasher
    var leaves: array<Digest>
    var n: nat

    ghost predicate Valid()
      reads this
    {
      n <= leaves.Length
    }

    /** The leaf hashes appended so far; the array's length is the capacity `cap`. */
    ghost function Contents(): seq<Digest>
      requires Valid()
      reads this, leaves
    {
      leaves[..n]
    }

    constructor (hasher: Hasher)
      ensures Valid() && h == hasher && Contents() == [] && fresh(leaves)
    {
      h := hasher;
      leaves := new Digest[0];
      n := 0;
    }

    /** Appends a leaf, doubling a full array; `memoryLeft` is the outcome of realloc. */
    method Append(data: seq<byte>, memoryLeft: bool) returns (index: int)
      requires Valid()
      modifies this`leaves, this`n, leaves
      ensures Valid() && (leaves == old(leaves) || fresh(leaves))
      ensures index == -1 ==> Contents() == old(Contents())
      ensures index != -1 ==> index == |old(Contents())| && Contents() == old(Contents()) + [h.leaf(data)]
      ensures index == -1 <==> old(n == leaves.Length) && !memoryLeft
    {
      if n == leaves.Length {
        if !memoryLeft {
          return -1;
        }
        var nc := if leaves.Length != 0 then leaves.Length * 2 else 16;
        var bigger := new Digest[nc](_ => h.empty);
        forall i | 0 <= i < n {
          bigger[i] := leaves[i];
        }
        leaves := bigger;
      }
      assert leaves[..n] == old(Contents());
      leaves[n] := h.leaf(data);
      n := n + 1;
      index := n - 1;
    }

    method Head(timestamp: nat) returns (s: Sth)
      requires Valid() && n <= Pow2(63)
      ensures s == HeadOf(h, Contents(), timestamp)
    {
      var root := MerkleProver.MthRange(h, leaves, 0, n);
      assert leaves[0..n] == leaves[..n];
      s := Sth(n, root, timestamp);
    }

    method ProveInclusion(index: nat, buf: MerkleProver.ProofBuffer) returns (rc: int)
      requires Valid() && n <= Pow2(63)
      requires buf.Valid() && buf.items != leaves && buf.items.Length == MerkleProver.MAX_PROOF
      modifies buf`len, buf.items
      ensures buf.Valid()
      ensures rc == if index >= |Contents()| then -1 else 0
      ensures rc == 0 ==> buf.Contents() == Path(h, Contents(), index)
    {
      if index >= n {
        return -1;
      }
      rc := MerkleProver.InclusionProof(h, leaves, n, index, buf);
    }

    method ProveConsistency(oldSize: nat, buf: MerkleProver.ProofBuffer) returns (rc: int)
      requires Valid() && n <= Pow2(63)
      requires buf.Valid() && buf.items != leaves && buf.items.Length == MerkleProver.MAX_PROOF
      modifies buf`len, buf.items
      ensures buf.Valid()
      ensures rc == if 0 < oldSize <= |Contents()| then 0 else -1
      ensures rc == 0 ==> Some(buf.Contents()) == ConsistencyProof(h, Contents(), oldSize)
    {
      if oldSize == 0 || oldSize > n {
        return -1;
      }
      rc := MerkleProver.ConsistencyProofMethod(h, leaves, n, oldSize, buf);
    }
  }

  /** The head of a log with leaf hashes L. */
  function HeadOf(h: Hasher, L: seq<Digest>, timestamp: nat): Sth
  {
    Sth(|L|, Mth(h, L), timestamp)
  }

  // ---------------------------------------------------------------------------
  // What the split-view check is for
  // ---------------------------------------------------------------------------

  /** A client accepts the served proof of every entry, and nothing else: the entry and the proof are
      the log's own, or a collision is found. */
  lemma LogInclusionExact(h: Hasher, L: seq<Digest>, timestamp: nat, index: nat, data: seq<byte>, proof: seq<Digest>)
    ensures index < |L| && L[index] == h.leaf(data) && proof == Path(h, L, index) ==>
            VerifyLogInclusion(h, HeadOf(h, L, timestamp), index, data, proof)
    ensures VerifyLogInclusion(h, HeadOf(h, L, timestamp), index, data, proof) ==>
            && index < |L|
            && match RebuildClash(h, index, h.leaf(data), proof, 0, L)
               case Some(c) => IsCollision(h, c)
               case None => L[index] == h.leaf(data) && proof == Path(h, L, index)
  {
    hide VerifyInclusion, Path, Mth;
    if index < |L| {
      InclusionComplete(h, L, index);
      if VerifyLogInclusion(h, HeadOf(h, L, timestamp), index, data, proof) {
        InclusionSound(h, index, h.leaf(data), proof, L);
      }
    }
  }

  /** The order in which a client names the two heads never changes the verdict. */
  lemma GossipSymmetric(h: Hasher, v: Verifier, a: Sth, sigA: seq<byte>, b: Sth, sigB: seq<byte>, proof: seq<Digest>)
    ensures GossipCheck(h, v, a, sigA, b, sigB, proof) == GossipCheck(h, v, b, sigB, a, sigA, proof)
  {
    hide VerifyConsistency, SthBytes;
  }

  /** The verdict is BADSIG exactly when the signature of one of the heads does not verify over that head's
      bytes, whatever sizes, roots and proof are. */
  lemma GossipBadSigIff(h: Hasher, v: Verifier, a: Sth, sigA: seq<byte>, b: Sth, sigB: seq<byte>, proof: seq<Digest>)
    ensures GossipCheck(h, v, a, sigA, b, sigB, proof) == BadSig <==> !v(SthBytes(a), sigA) || !v(SthBytes(b), sigB)
  {
    hide VerifyConsistency, SthBytes;
  }

  /** The verifier accepts nothing but the bytes of heads the log signed. */
  ghost predicate OnlySigned(v: Verifier, signed: set<Sth>)
  {
    forall m: seq<byte>, sig: seq<byte> :: v(m, sig) ==> exists s :: s in signed && WellSized(s) && m == SthBytes(s)
  }

  /** Every verdict other than BADSIG is about two heads the log signed: nobody else can have it accused
      or cleared. */
  lemma VerdictAboutSigned(h: Hasher, v: Verifier, a: Sth, sigA: seq<byte>, b: Sth, sigB: seq<byte>, proof: seq<Digest>,
                           signed: set<Sth>)
    requires OnlySigned(v, signed) && WellSized(a) && WellSized(b)
    requires GossipCheck(h, v, a, sigA, b, sigB, proof) != BadSig
    ensures a in signed && b in signed
  {
    hide VerifyConsistency, SthBytes, WellSized;
    GossipBadSigIff(h, v, a, sigA, b, sigB, proof);
    var s :| s in signed && WellSized(s) && SthBytes(a) == SthBytes(s);
    var t :| t in signed && WellSized(t) && SthBytes(b) == SthBytes(t);
    SthBytesInjective(a, s);
    SthBytesInjective(b, t);
  }

  /** Two signed heads of one size are a fork exactly when their roots differ; the proof does not matter. */
  lemma SameSizeForkIff(h: Hasher, v: Verifier, a: Sth, sigA: seq<byte>, b: Sth, sigB: seq<byte>, proof: seq<Digest>)
    requires VerifySth(v, a, sigA) && VerifySth(v, b, sigB) && a.size == b.size
    ensures GossipCheck(h, v, a, sigA, b, sigB, proof) == if a.root == b.root then Consistent else Fork
  {
    hide VerifyConsistency, SthBytes;
  }

  /** Signed heads of different sizes are consistent exactly when the client that knows the smaller one
      would move on to the larger one. */
  lemma GossipAgreesWithClient(h: Hasher, v: Verifier, a: Sth, sigA: seq<byte>, b: Sth, sigB: seq<byte>, proof: seq<Digest>)
    requires VerifySth(v, a, sigA) && VerifySth(v, b, sigB) && a.size < b.size
    ensures GossipCheck(h, v, a, sigA, b, sigB, proof) == if VerifyLogConsistency(h, a, b, proof) then Consistent else Fork
    ensures !VerifyLogConsistency(h, b, a, proof)
  {
    hide VerifyConsistency, SthBytes;
  }

  /** What a fork means: for signed heads of true histories D and E, E not longer and not empty, the verdict
      is CONSISTENT for the served proof if E is a prefix of D, and FORK for every proof if it is not, and
      for every other proof; or a collision is found. */
  lemma ForkIff(h: Hasher, v: Verifier, D: seq<Digest>, E: seq<Digest>, td: nat, te: nat, sigD: seq<byte>, sigE: seq<byte>,
                proof: seq<Digest>)
    requires 0 < |E| <= |D|
    requires VerifySth(v, HeadOf(h, D, td), sigD) && VerifySth(v, HeadOf(h, E, te), sigE)
    ensures ConsistencyProof(h, D, |E|).Some?
    ensures var verdict := GossipCheck(h, v, HeadOf(h, E, te), sigE, HeadOf(h, D, td), sigD, proof);
            var right := E == D[..|E|] && (|E| == |D| || proof == ConsistencyProof(h, D, |E|).value);
            && (right ==> verdict == Consistent)
            && (!right ==> verdict == Fork || Found(h, PrefixClash(h, Mth(h, E), proof, D, E)))
  {
    hide VerifyConsistency, SthBytes, Mth, ConsistencyClash, RootClash, ConsistencyProof;
    ConsistencyComplete(h, D, |E|);
    var (a, b) := (HeadOf(h, E, te), HeadOf(h, D, td));
    GossipBadSigIff(h, v, a, sigE, b, sigD, proof);
    if GossipCheck(h, v, a, sigE, b, sigD, proof) == Consistent {
      ConsistentMeansPrefix(h, v, a, sigE, b, sigD, proof, D, E);
      if |E| < |D| {
        ConsistencySound(h, |E|, Mth(h, E), proof, D);
      }
    }
    if E == D[..|E|] && |E| == |D| {
      assert D[..|D|] == D;
    }
  }

  /** Against an empty history only the empty proof is looked at. */
  lemma EmptyHistoryVerdict(h: Hasher, v: Verifier, a: Sth, sigA: seq<byte>, b: Sth, sigB: seq<byte>, proof: seq<Digest>)
    requires VerifySth(v, a, sigA) && VerifySth(v, b, sigB) && 0 == a.size < b.size
    ensures GossipCheck(h, v, a, sigA, b, sigB, proof) == if proof == [] then Consistent else Fork
  {
    hide SthBytes;
  }

  /** An honest log is never accused: any two nonempty heads of one append history L, at any two
      times and named in either order, pass with the proof the log serves at the larger size. */
  lemma HonestLogConsistent(h: Hasher, v: Verifier, L: seq<Digest>, p: nat, q: nat, tp: nat, tq: nat,
                            sigP: seq<byte>, sigQ: seq<byte>)
    requires 0 < p <= q <= |L|
    requires VerifySth(v, HeadOf(h, L[..p], tp), sigP) && VerifySth(v, HeadOf(h, L[..q], tq), sigQ)
    ensures var (a, b) := (HeadOf(h, L[..p], tp), HeadOf(h, L[..q], tq));
            var proof := ConsistencyProof(h, L[..q], p);
            && proof.Some?
            && GossipCheck(h, v, a, sigP, b, sigQ, proof.value) == Consistent
            && GossipCheck(h, v, b, sigQ, a, sigP, proof.value) == Consistent
  {
    hide VerifyConsistency, SthBytes, Mth;
    ConsistencyComplete(h, L[..q], p);
    assert L[..q][..p] == L[..p];
  }

  /** A CONSISTENT verdict binds the smaller head to the larger one's leaves D: its root is that of
      a prefix of D, and any leaves E it was made from are that prefix; or a collision is found. */
  lemma ConsistentMeansPrefix(h: Hasher, v: Verifier, a: Sth, sigA: seq<byte>, b: Sth, sigB: seq<byte>,
                              proof: seq<Digest>, D: seq<Digest>, E: seq<Digest>)
    requires GossipCheck(h, v, a, sigA, b, sigB, proof) == Consistent
    requires 0 < a.size <= b.size && b.size == |D| && b.root == Mth(h, D)
    requires a.size == |E| && a.root == Mth(h, E)
    ensures match PrefixClash(h, a.root, proof, D, E)
            case Some(c) => IsCollision(h, c)
            case None => E == D[..|E|]
  {
    hide VerifyConsistency, SthBytes, Mth;
    if a.size < b.size {
      ConsistencySound(h, a.size, a.root, proof, D);
    } else {
      assert D[..|E|] == D;
    }
    if ConsistencyClash(h, |E|, a.root, proof, D).None? {
      RootBinds(h, E, D[..|E|]);
    }
  }

  function PrefixClash(h: Hasher, root: Digest, proof: seq<Digest>, D: seq<Digest>, E: seq<Digest>): Option<Collision>
    requires 0 < |E| <= |D|
  {
    var c := ConsistencyClash(h, |E|, root, proof, D);
    if c.Some? then c else RootClash(h, E, D[..|E|])
  }

  /** A monitor follows a log through heads[0], heads[1], ..., checking each step with proofs[i]. */
  predicate Followed(h: Hasher, heads: seq<Sth>, proofs: seq<seq<Digest>>)
  {
    |proofs| + 1 == |heads| &&
    forall i :: 0 <= i < |proofs| ==> VerifyLogConsistency(h, heads[i], heads[i + 1], proofs[i])
  }

  /** The first collision met when the true leaves D of the last head are pushed down the chain. */
  function ChainClash(h: Hasher, heads: seq<Sth>, proofs: seq<seq<Digest>>, D: seq<Digest>): Option<Collision>
    requires |proofs| + 1 == |heads|
    decreases |proofs|
  {
    if |proofs| == 0 then None
    else
      var k := |proofs| - 1;
      if !(0 < heads[k].size <= |D|) then None
      else
        var c := ConsistencyClash(h, heads[k].size, heads[k].root, proofs[k], D);
        if c.Some? then c else ChainClash(h, heads[..k + 1], proofs[..k], D[..heads[k].size])
  }

  /** Over a whole run of checked heads nothing is ever rewritten: every head seen on the way has
      the root of a prefix of the final leaves, or a collision is found. */
  lemma {:induction false} ChainSound(h: Hasher, heads: seq<Sth>, proofs: seq<seq<Digest>>, D: seq<Digest>, i: nat)
    requires Followed(h, heads, proofs) && i < |heads|
    requires heads[0].size > 0
    requires heads[|proofs|].size == |D| && heads[|proofs|].root == Mth(h, D)
    ensures match ChainClash(h, heads, proofs, D)
            case Some(c) => IsCollision(h, c)
            case None => 0 < heads[i].size <= |D| && heads[i].root == Mth(h, D[..heads[i].size])
    decreases |proofs|
  {
    hide Mth, VerifyConsistency, ConsistencyClash;
    SizesGrow(h, heads, proofs, 0);
    SizesGrow(h, heads, proofs, i);
    if i == |proofs| {
      assert D[..|D|] == D;
    }
    if |proofs| > 0 {
      var k := |proofs| - 1;
      SizesGrow(h, heads[..k + 1], proofs[..k], 0);
      ConsistencySound(h, heads[k].size, heads[k].root, proofs[k], D);
      if ConsistencyClash(h, heads[k].size, heads[k].root, proofs[k], D).None? {
        var P := D[..heads[k].size];
        ChainSound(h, heads[..k + 1], proofs[..k], P, if i <= k then i else k);
        if i <= k && heads[i].size <= |P| {
          assert P[..heads[i].size] == D[..heads[i].size];
        }
      }
    }
  }

  lemma {:induction false} SizesGrow(h: Hasher, heads: seq<Sth>, proofs: seq<seq<Digest>>, i: nat)
    requires Followed(h, heads, proofs) && i < |heads|
    ensures heads[0].size <= heads[i].size <= heads[|proofs|].size
    decreases |proofs|
  {
    hide VerifyConsistency;
    if |proofs| > 0 {
      var k := |proofs| - 1;
      SizesGrow(h, heads[..k + 1], proofs[..k], if i <= k then i else 0);
      assert VerifyLogConsistency(h, heads[k], heads[k + 1], proofs[k]);
    }
  }

  /** A client moves from a true head to another exactly when the old history is a prefix of the new one and
      the proof is the served one, or a collision is found. */
  lemma ClientMovesIff(h: Hasher, D: seq<Digest>, E: seq<Digest>, td: nat, te: nat, proof: seq<Digest>)
    requires 0 < |E|
    ensures var moves := VerifyLogConsistency(h, HeadOf(h, E, te), HeadOf(h, D, td), proof);
            && (|E| <= |D| && E == D[..|E|] && Some(proof) == ConsistencyProof(h, D, |E|) ==> moves)
            && (moves ==> |E| <= |D|)
            && (moves ==> (E == D[..|E|] && Some(proof) == ConsistencyProof(h, D, |E|)) ||
                          Found(h, PrefixClash(h, Mth(h, E), proof, D, E)))
  {
    hide VerifyConsistency, Mth, ConsistencyClash, RootClash, ConsistencyProof;
    if |E| <= |D| {
      ConsistencyComplete(h, D, |E|);
      if VerifyLogConsistency(h, HeadOf(h, E, te), HeadOf(h, D, td), proof) {
        ConsistencySound(h, |E|, Mth(h, E), proof, D);
        if ConsistencyClash(h, |E|, Mth(h, E), proof, D).None? {
          RootBinds(h, E, D[..|E|]);
        }
      }
    }
  }

  /** The heads of one append history L at the given sizes and times. */
  function HeadsAt(h: Hasher, L: seq<Digest>, sizes: seq<nat>, times: seq<nat>): (heads: seq<Sth>)
    requires |sizes| == |times| && forall i :: 0 <= i < |sizes| ==> sizes[i] <= |L|
    ensures |heads| == |sizes| && forall i :: 0 <= i < |sizes| ==> heads[i] == HeadOf(h, L[..sizes[i]], times[i])
  {
    seq(|sizes|, i requires 0 <= i < |sizes| => HeadOf(h, L[..sizes[i]], times[i]))
  }

  /** What the log serves between them. */
  function ProofsAt(h: Hasher, L: seq<Digest>, sizes: seq<nat>): (proofs: seq<seq<Digest>>)
    requires |sizes| > 0 && forall i :: 0 <= i < |sizes| ==> sizes[i] <= |L|
    ensures |proofs| + 1 == |sizes|
    ensures forall i :: 0 <= i < |proofs| ==>
      proofs[i] == match ConsistencyProof(h, L[..sizes[i + 1]], sizes[i]) case Some(p) => p case None => []
  {
    seq(|sizes| - 1, i requires 0 <= i < |sizes| - 1 =>
      match ConsistencyProof(h, L[..sizes[i + 1]], sizes[i]) case Some(p) => p case None => [])
  }

  /** A monitor can follow an honest log through any of its nonempty heads, in the order of their sizes,
      and only in that order. */
  lemma HonestLogFollowed(h: Hasher, L: seq<Digest>, sizes: seq<nat>, times: seq<nat>)
    requires |sizes| == |times| > 0 && forall i :: 0 <= i < |sizes| ==> 0 < sizes[i] <= |L|
    ensures Followed(h, HeadsAt(h, L, sizes, times), ProofsAt(h, L, sizes))
       <==> forall i :: 0 <= i < |sizes| - 1 ==> sizes[i] <= sizes[i + 1]
  {
    hide VerifyConsistency, Mth, ConsistencyProof, VerifyLogConsistency;
    var (heads, proofs) := (HeadsAt(h, L, sizes, times), ProofsAt(h, L, sizes));
    forall i | 0 <= i < |proofs|
      ensures VerifyLogConsistency(h, heads[i], heads[i + 1], proofs[i]) <==> sizes[i] <= sizes[i + 1]
    {
      var (E, D) := (L[..sizes[i]], L[..sizes[i + 1]]);
      ClientMovesIff(h, D, E, times[i + 1], times[i], proofs[i]);
      if |E| <= |D| {
        ConsistencyComplete(h, D, |E|);
        assert E == D[..|E|];
      }
    }
  }
}
