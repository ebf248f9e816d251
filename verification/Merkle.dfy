/** The Merkle tree of src/merkle.c (the tree of RFC 6962): root, audit path and consistency proof are built
    top-down by splitting at a power of two, while the consistency verifier walks bottom-up over
    the bits of two indices. The bridge between the two is `Up`, the tree one level up.

    SHA-256 enters as the function-valued record `Hasher`, so every result holds for every hash. */
module Merkle {
  import opened Common

  /** A 32-byte hash value. */
  datatype Digest = Digest(bytes: seq<byte>)

  /** leaf = SHA-256(0x00 || data), node = SHA-256(0x01 || left || right), empty = SHA-256(""). */
  datatype Hasher = Hasher(leaf: seq<byte> -> Digest, node: (Digest, Digest) -> Digest, empty: Digest)

  // ---------------------------------------------------------------------------
  // Specification functions: the recursions of merkle.c
  // ---------------------------------------------------------------------------

  /** Largest power of two strictly less than n (`SplitMethod` is the loop). */
  function Split(n: nat): (k: nat)
    requires n >= 2
    ensures 1 <= k < n <= 2 * k
    ensures n >= 3 ==> k % 2 == 0
  {
    if n == 2 then 1 else 2 * Split((n + 1) / 2)
  }

  function Mth(h: Hasher, D: seq<Digest>): Digest
    decreases |D|
  {
    if |D| == 0 then h.empty
    else if |D| == 1 then D[0]
    else
      var k := Split(|D|);
      h.node(Mth(h, D[..k]), Mth(h, D[k..]))
  }

  function Path(h: Hasher, D: seq<Digest>, m: nat): seq<Digest>
    requires m < |D|
    decreases |D|
  {
    if |D| == 1 then []
    else
      var k := Split(|D|);
      if m < k then Path(h, D[..k], m) + [Mth(h, D[k..])]
      else Path(h, D[k..], m - k) + [Mth(h, D[..k])]
  }

  /** SUBPROOF; `b` is the flag "the first m leaves are a subtree the verifier already knows". */
  function Subproof(h: Hasher, D: seq<Digest>, m: nat, b: bool): seq<Digest>
    requires 0 < m <= |D|
    decreases |D|
  {
    if m == |D| then
      if b then [] else [Mth(h, D)]
    else
      var k := Split(|D|);
      if m <= k then Subproof(h, D[..k], m, b) + [Mth(h, D[k..])]
      else Subproof(h, D[k..], m - k, false) + [Mth(h, D[..k])]
  }

  function ConsistencyProof(h: Hasher, D: seq<Digest>, m: nat): Option<seq<Digest>>
  {
    if m == 0 || m > |D| then None
    else if m == |D| then Some([])
    else Some(Subproof(h, D, m, true))
  }

  /** `rebuild`: the root over [0, n) recomputed from one leaf, with the proof index after it. */
  function Rebuild(h: Hasher, n: nat, m: nat, leaf: Digest, proof: seq<Digest>, pidx: nat): (r: Option<(Digest, nat)>)
    requires m < n && pidx <= |proof|
    ensures r.Some? ==> pidx <= r.value.1 <= |proof|
    decreases n
  {
    if n == 1 then Some((leaf, pidx))
    else
      var k := Split(n);
      var sub := if m < k then Rebuild(h, k, m, leaf, proof, pidx) else Rebuild(h, n - k, m - k, leaf, proof, pidx);
      if sub.None? || sub.value.1 >= |proof| then None
      else
        var c := proof[sub.value.1];
        var root := if m < k then h.node(sub.value.0, c) else h.node(c, sub.value.0);
        Some((root, sub.value.1 + 1))
  }

  function VerifyInclusion(h: Hasher, m: nat, n: nat, leaf: Digest, proof: seq<Digest>, root: Digest): bool
  {
    m < n &&
    var r := Rebuild(h, n, m, leaf, proof, 0);
    r.Some? && r.value.1 == |proof| && r.value.0 == root
  }

  /** Both indices shifted right while the first is odd. */
  function StripOnes(fn: nat, sn: nat): (r: (nat, nat))
    requires fn <= sn
    ensures r.0 <= r.1 && r.0 % 2 == 0
  {
    if fn % 2 == 1 then StripOnes(fn / 2, sn / 2) else (fn, sn)
  }

  /** Consumes a consistency proof bottom-up: fn and sn are the indices of the last node of the old
      and of the new tree at the current level, fr and sr the two partial roots. */
  function Walk(h: Hasher, fn: nat, sn: nat, fr: Digest, sr: Digest, proof: seq<Digest>): Option<(Digest, Digest)>
    requires fn <= sn
    decreases sn
  {
    if sn == 0 then
      if proof == [] then Some((fr, sr)) else None
    else if fn % 2 == 1 then
      if proof == [] then None
      else Walk(h, fn / 2, sn / 2, h.node(proof[0], fr), h.node(proof[0], sr), proof[1..])
    else if fn < sn then
      if proof == [] then None
      else Walk(h, fn / 2, sn / 2, fr, h.node(sr, proof[0]), proof[1..])
    else Walk(h, fn / 2, sn / 2, fr, sr, proof)
  }

  function VerifyConsistency(h: Hasher, m: nat, n: nat, first: Digest, second: Digest, proof: seq<Digest>): bool
  {
    if m > n then false
    else if m == n then proof == [] && first == second
    else if m == 0 then proof == []
    else
      var (fn, sn) := StripOnes(m - 1, n - 1);
      if IsPow2(m) then Walk(h, fn, sn, first, first, proof) == Some((first, second))
      else proof != [] && Walk(h, fn, sn, proof[0], proof[0], proof[1..]) == Some((first, second))
  }

  // ---------------------------------------------------------------------------
  // The split point
  // ---------------------------------------------------------------------------

  lemma {:induction false} SplitIsPow2(n: nat) returns (j: nat)
    requires n >= 2
    ensures Split(n) == Pow2(j) < n <= Pow2(j + 1)
  {
    if n == 2 {
      j := 0;
      assert Pow2(1) == 2;
    } else {
      var i := SplitIsPow2((n + 1) / 2);
      j := i + 1;
    }
  }

  lemma {:induction false} SplitUnique(n: nat, j: nat)
    requires n >= 2 && Pow2(j) < n <= 2 * Pow2(j)
    ensures Split(n) == Pow2(j)
  {
    if n > 2 {
      assert j > 0;
      SplitUnique((n + 1) / 2, j - 1);
    }
  }

  /** The doubling loop on 64-bit integers, in its domain: it ends, with the split point. */
  method SplitMethod(n: nat) returns (k: nat)
    requires 2 <= n <= Pow2(63)
    ensures k == Split(n)
  {
    k := 1;
    ghost var j := 0;
    Pow2Values();
    while (k * 2) % U64 < n
      invariant k == Pow2(j) < n && j <= 62
      decreases n - k
    {
      k := (k * 2) % U64;
      j := j + 1;
      if j > 62 {
        Pow2Monotonic(63, j);
      }
    }
    SplitUnique(n, j);
  }

  /** k after `steps` unconditional turns of the loop body; the loop tests the next value. */
  function SplitRegister(steps: nat): nat
  {
    if steps == 0 then 1 else (SplitRegister(steps - 1) * 2) % U64
  }

  lemma Doubles(x: nat)
    ensures x < 0x8000_0000_0000_0000 ==> (x * 2) % U64 == 2 * x
    ensures (0x8000_0000_0000_0000 * 2) % U64 == 0 && (0 * 2) % U64 == 0
  {
  }

  lemma {:induction false} SplitRegisterIs(s: nat)
    ensures SplitRegister(s) == if s < 64 then Pow2(s) else 0
  {
    hide Pow2;
    Pow2Values();
    Pow2Step(0);
    if s > 0 {
      SplitRegisterIs(s - 1);
      Pow2Step(s - 1);
      Doubles(SplitRegister(s - 1));
      if s < 64 {
        Pow2Monotonic(s, 63);
      }
    }
  }

  /** The domain of the loop is exact: its exit test `k * 2 >= n` is met after some number of
      turns if and only if n <= 2^63. */
  lemma SplitTerminatesIff(n: nat)
    ensures (exists s: nat :: s >= 1 && SplitRegister(s) >= n) <==> n <= Pow2(63)
  {
    hide Pow2, SplitRegister;
    SplitRegisterIs(63);
    forall s: nat
      ensures SplitRegister(s) <= Pow2(63)
    {
      SplitRegisterIs(s);
      if s < 64 {
        Pow2Monotonic(s, 63);
      }
    }
  }

  // ---------------------------------------------------------------------------
  // One level up
  // ---------------------------------------------------------------------------

  /** The nodes one level up: neighbours are hashed in pairs, an odd last node is promoted. */
  function Up(h: Hasher, D: seq<Digest>): (U: seq<Digest>)
    ensures |U| == (|D| + 1) / 2
  {
    seq((|D| + 1) / 2, i requires 0 <= i < (|D| + 1) / 2 =>
      if 2 * i + 1 < |D| then h.node(D[2 * i], D[2 * i + 1]) else D[2 * i])
  }

  lemma UpSmall(h: Hasher, D: seq<Digest>)
    ensures |D| == 1 ==> Up(h, D) == D
    ensures |D| == 2 ==> Up(h, D) == [h.node(D[0], D[1])]
  {
  }

  lemma UpSplits(h: Hasher, D: seq<Digest>, k: nat)
    requires 2 * k <= |D|
    ensures Up(h, D)[..k] == Up(h, D[..2 * k])
    ensures Up(h, D)[k..] == Up(h, D[2 * k..])
  {
  }

  /** One unfolding of each recursion at the split point k. */
  lemma MthUnfold(h: Hasher, D: seq<Digest>, k: nat)
    requires |D| >= 1
    requires |D| >= 2 ==> k == Split(|D|)
    ensures |D| == 1 ==> Mth(h, D) == D[0]
    ensures |D| >= 2 ==> Mth(h, D) == h.node(Mth(h, D[..k]), Mth(h, D[k..]))
  {
  }

  lemma PathUnfold(h: Hasher, D: seq<Digest>, k: nat, m: nat)
    requires m < |D|
    requires |D| >= 2 ==> k == Split(|D|)
    ensures |D| == 1 ==> Path(h, D, m) == []
    ensures |D| >= 2 && m < k ==> Path(h, D, m) == Path(h, D[..k], m) + [Mth(h, D[k..])]
    ensures |D| >= 2 && m >= k ==> Path(h, D, m) == Path(h, D[k..], m - k) + [Mth(h, D[..k])]
  {
  }

  lemma SubproofUnfold(h: Hasher, D: seq<Digest>, k: nat, m: nat, b: bool)
    requires 0 < m < |D| && k == Split(|D|)
    ensures m <= k ==> Subproof(h, D, m, b) == Subproof(h, D[..k], m, b) + [Mth(h, D[k..])]
    ensures m > k ==> Subproof(h, D, m, b) == Subproof(h, D[k..], m - k, false) + [Mth(h, D[..k])]
  {
  }

  lemma SubproofAll(h: Hasher, D: seq<Digest>, b: bool)
    requires 0 < |D|
    ensures Subproof(h, D, |D|, b) == if b then [] else [Mth(h, D)]
  {
  }

  /** The root can be computed level by level. */
  lemma {:induction false} MthUp(h: Hasher, D: seq<Digest>)
    requires |D| >= 2
    ensures Mth(h, D) == Mth(h, Up(h, D))
    decreases |D|
  {
    hide Mth, Up;
    var k := Split(|D|);
    MthUnfold(h, D, k);
    if |D| == 2 {
      UpSmall(h, D);
      MthUnfold(h, D[..1], 0);
      MthUnfold(h, D[1..], 0);
      MthUnfold(h, Up(h, D), 0);
    } else {
      UpSplits(h, D, k / 2);
      MthUnfold(h, Up(h, D), k / 2);
      MthUp(h, D[..k]);
      if |D| - k >= 2 {
        MthUp(h, D[k..]);
      } else {
        UpSmall(h, D[k..]);
      }
    }
  }

  /** Both halves of a split tree keep their roots one level up. */
  lemma MthLast(h: Hasher, D: seq<Digest>, k: nat)
    requires 2 <= k < |D|
    ensures Mth(h, D[..k]) == Mth(h, Up(h, D[..k])) && Mth(h, D[k..]) == Mth(h, Up(h, D[k..]))
  {
    hide Mth, Up;
    MthUp(h, D[..k]);
    if |D| - k >= 2 {
      MthUp(h, D[k..]);
    } else {
      UpSmall(h, D[k..]);
    }
  }

  /** The sibling of leaf m on its own level, when it has one. */
  function Sibling(D: seq<Digest>, m: nat): seq<Digest>
    requires m < |D|
  {
    if m % 2 == 1 then [D[m - 1]]
    else if m + 1 < |D| then [D[m + 1]]
    else []
  }

  /** Splitting at an even point separates no leaf from its sibling. */
  lemma SiblingSplits(D: seq<Digest>, m: nat, k: nat)
    requires m < |D| && k % 2 == 0 && k <= |D|
    ensures m < k ==> Sibling(D, m) == Sibling(D[..k], m)
    ensures m >= k ==> Sibling(D, m) == Sibling(D[k..], m - k)
  {
    var half := k / 2;
    assert k == 2 * half;
    if m < k {
      assert m % 2 == 0 ==> m + 1 < k;
    } else {
      assert (m - k) % 2 == m % 2;
    }
  }

  lemma PathUpTwo(h: Hasher, D: seq<Digest>, m: nat)
    requires m < |D| == 2
    ensures Path(h, D, m) == Sibling(D, m) + Path(h, Up(h, D), m / 2)
  {
    hide Mth, Path;
    PathUnfold(h, D, 1, m);
    MthUnfold(h, D[..1], 0);
    MthUnfold(h, D[1..], 0);
    PathUnfold(h, D[..1], 0, 0);
    PathUnfold(h, D[1..], 0, 0);
    PathUnfold(h, Up(h, D), 0, 0);
  }

  /** One level of PathUp, above the half that holds leaf m. */
  lemma PathUpLow(h: Hasher, D: seq<Digest>, m: nat, c: nat)
    requires m < 2 * c < |D| && 2 * c == Split(|D|) && c == Split((|D| + 1) / 2)
    requires Path(h, D[..2 * c], m) == Sibling(D[..2 * c], m) + Path(h, Up(h, D[..2 * c]), m / 2)
    ensures Path(h, D, m) == Sibling(D, m) + Path(h, Up(h, D), m / 2)
  {
    hide *;
    UpSplits(h, D, c);
    PathUnfold(h, D, 2 * c, m);
    PathUnfold(h, Up(h, D), c, m / 2);
    MthLast(h, D, 2 * c);
    SiblingSplits(D, m, 2 * c);
  }

  lemma PathUpHigh(h: Hasher, D: seq<Digest>, m: nat, c: nat)
    requires 0 < 2 * c <= m < |D| && 2 * c == Split(|D|) && c == Split((|D| + 1) / 2)
    requires Path(h, D[2 * c..], m - 2 * c) == Sibling(D[2 * c..], m - 2 * c) + Path(h, Up(h, D[2 * c..]), (m - 2 * c) / 2)
    ensures Path(h, D, m) == Sibling(D, m) + Path(h, Up(h, D), m / 2)
  {
    hide *;
    UpSplits(h, D, c);
    PathUnfold(h, D, 2 * c, m);
    PathUnfold(h, Up(h, D), c, m / 2);
    MthLast(h, D, 2 * c);
    SiblingSplits(D, m, 2 * c);
  }

  /** An audit path is the sibling followed by the audit path one level up. */
  lemma {:induction false} PathUp(h: Hasher, D: seq<Digest>, m: nat)
    requires m < |D| && |D| >= 2
    ensures Path(h, D, m) == Sibling(D, m) + Path(h, Up(h, D), m / 2)
    decreases |D|
  {
    hide Mth, Up, Path;
    var k := Split(|D|);
    if |D| == 2 {
      PathUpTwo(h, D, m);
    } else if m < k {
      PathUp(h, D[..k], m);
      PathUpLow(h, D, m, k / 2);
    } else {
      if |D| - k >= 2 {
        PathUp(h, D[k..], m - k);
      } else {
        PathUnfold(h, D[k..], 0, 0);
        PathUnfold(h, Up(h, D[k..]), 0, 0);
      }
      PathUpHigh(h, D, m, k / 2);
    }
  }

  /** For an even prefix nothing is added on this level. */
  lemma {:induction false} SubproofUp(h: Hasher, D: seq<Digest>, m: nat, b: bool)
    requires 0 < m <= |D| && m % 2 == 0
    ensures Subproof(h, D, m, b) == Subproof(h, Up(h, D), m / 2, b)
    decreases |D|
  {
    hide Mth, Up, Subproof;
    if m == |D| {
      MthUp(h, D);
      SubproofAll(h, D, b);
      SubproofAll(h, Up(h, D), b);
    } else {
      var k := Split(|D|);
      UpSplits(h, D, k / 2);
      MthLast(h, D, k);
      SubproofUnfold(h, D, k, m, b);
      SubproofUnfold(h, Up(h, D), k / 2, m / 2, b);
      if m <= k {
        SubproofUp(h, D[..k], m, b);
      } else {
        SubproofUp(h, D[k..], m - k, false);
      }
    }
  }

  /** For an odd proper prefix the proof is an audit path for its last leaf, preceded by that leaf
      itself unless the verifier already knows it. */
  lemma {:induction false} SubproofOdd(h: Hasher, D: seq<Digest>, m: nat, b: bool)
    requires 0 < m < |D| && m % 2 == 1
    ensures Subproof(h, D, m, b) == (if m == 1 && b then [] else [D[m - 1]]) + Path(h, D, m - 1)
    decreases |D|
  {
    hide Mth, Subproof, Path;
    var k := Split(|D|);
    SubproofUnfold(h, D, k, m, b);
    PathUnfold(h, D, k, m - 1);
    if m == k {
      SubproofAll(h, D[..k], b);
      MthUnfold(h, D[..k], 0);
      PathUnfold(h, D[..k], 0, 0);
    } else if m < k {
      SubproofOdd(h, D[..k], m, b);
    } else {
      SubproofOdd(h, D[k..], m - k, false);
    }
  }

  // ---------------------------------------------------------------------------
  // Proof sizes
  // ---------------------------------------------------------------------------

  function CeilLog2(n: nat): nat
  {
    if n <= 1 then 0 else 1 + CeilLog2((n + 1) / 2)
  }

  /** CeilLog2 is the logarithm rounded up. */
  lemma {:induction false} CeilLog2Correct(n: nat, j: nat)
    requires n >= 1
    ensures CeilLog2(n) <= j <==> n <= Pow2(j)
  {
    if n > 1 && j > 0 {
      CeilLog2Correct((n + 1) / 2, j - 1);
    }
  }

  lemma {:induction false} PathLength(h: Hasher, D: seq<Digest>, m: nat)
    requires m < |D|
    ensures |Path(h, D, m)| <= CeilLog2(|D|)
    decreases |D|
  {
    if |D| >= 2 {
      PathUp(h, D, m);
      PathLength(h, Up(h, D), m / 2);
    }
  }

  lemma {:induction false} SubproofLength(h: Hasher, D: seq<Digest>, m: nat, b: bool)
    requires 0 < m < |D|
    ensures |Subproof(h, D, m, b)| <= CeilLog2(|D|) + 1
    decreases |D|
  {
    if m % 2 == 1 {
      SubproofOdd(h, D, m, b);
      PathLength(h, D, m - 1);
    } else {
      SubproofUp(h, D, m, b);
      SubproofLength(h, Up(h, D), m / 2, b);
    }
  }

  // ---------------------------------------------------------------------------
  // Completeness
  // ---------------------------------------------------------------------------

  /** One turn of the walk, given the siblings met on this level. */
  lemma WalkUnfold(h: Hasher, fn: nat, sn: nat, fr: Digest, sr: Digest, proof: seq<Digest>)
    requires fn <= sn && sn > 0
    ensures Walk(h, fn, sn, fr, sr, proof) ==
            if fn == sn && fn % 2 == 0 then Walk(h, fn / 2, sn / 2, fr, sr, proof)
            else if proof == [] then None
            else if fn % 2 == 1 then Walk(h, fn / 2, sn / 2, h.node(proof[0], fr), h.node(proof[0], sr), proof[1..])
            else Walk(h, fn / 2, sn / 2, fr, h.node(sr, proof[0]), proof[1..])
  {
  }

  /** How a node at index i, and a common prefix, look one level up. */
  lemma UpAt(h: Hasher, D: seq<Digest>, i: nat)
    requires i < |D|
    ensures Up(h, D)[i / 2] == if i % 2 == 1 then h.node(D[i - 1], D[i])
                               else if i + 1 < |D| then h.node(D[i], D[i + 1]) else D[i]
  {
  }

  lemma UpPrefix(h: Hasher, E: seq<Digest>, D: seq<Digest>)
    requires 0 < |E| <= |D| && E[..|E| - 1] == D[..|E| - 1]
    ensures var last := |Up(h, E)| - 1; Up(h, E)[..last] == Up(h, D)[..last]
  {
    var fn := |E| - 1;
    forall i | 0 <= i < |Up(h, E)| - 1
      ensures Up(h, E)[i] == Up(h, D)[i]
    {
      assert E[2 * i] == E[..fn][2 * i] == D[..fn][2 * i];
      assert E[2 * i + 1] == E[..fn][2 * i + 1] == D[..fn][2 * i + 1];
    }
  }

  /** The walk along a true audit path computes the roots of the old tree E and of the new tree D,
      which agree up to the last leaf of E. */
  lemma {:induction false} WalkComplete(h: Hasher, E: seq<Digest>, D: seq<Digest>)
    requires 0 < |E| <= |D| && E[..|E| - 1] == D[..|E| - 1]
    ensures Walk(h, |E| - 1, |D| - 1, E[|E| - 1], D[|E| - 1], Path(h, D, |E| - 1)) == Some((Mth(h, E), Mth(h, D)))
    decreases |D|
  {
    hide Mth, Up, Path;
    var fn := |E| - 1;
    if |D| == 1 {
      MthUnfold(h, D, 0);
      MthUnfold(h, E, 0);
      PathUnfold(h, D, 0, fn);
    } else {
      hide Walk;
      PathUp(h, D, fn);
      MthUp(h, D);
      if |E| >= 2 {
        MthUp(h, E);
        assert E[fn - 1] == E[..fn][fn - 1] == D[..fn][fn - 1];
      } else {
        UpSmall(h, E);
      }
      UpAt(h, D, fn);
      UpAt(h, E, fn);
      UpPrefix(h, E, D);
      WalkComplete(h, Up(h, E), Up(h, D));
      WalkUnfold(h, fn, |D| - 1, E[fn], D[fn], Path(h, D, fn));
      assert fn / 2 == |Up(h, E)| - 1 && (|D| - 1) / 2 == |Up(h, D)| - 1;
      if Sibling(D, fn) != [] {
        assert Path(h, D, fn)[1..] == Path(h, Up(h, D), fn / 2);
      } else {
        assert Path(h, D, fn) == Path(h, Up(h, D), fn / 2);
      }
    }
  }

  /** What the verifier does after the equal-size and empty-prefix cases. */
  function VerifyProper(h: Hasher, m: nat, n: nat, first: Digest, proof: seq<Digest>): Option<(Digest, Digest)>
    requires 0 < m < n
  {
    var (fn, sn) := StripOnes(m - 1, n - 1);
    if IsPow2(m) then Walk(h, fn, sn, first, first, proof)
    else if proof == [] then None
    else Walk(h, fn, sn, proof[0], proof[0], proof[1..])
  }

  lemma VerifyConsistencyProper(h: Hasher, m: nat, n: nat, first: Digest, second: Digest, proof: seq<Digest>)
    requires 0 < m < n
    ensures VerifyConsistency(h, m, n, first, second, proof) <==>
            VerifyProper(h, m, n, first, proof) == Some((first, second))
  {
  }

  /** Stripping a trailing zero of m is moving one level up. */
  lemma {:induction false} VerifyProperUp(h: Hasher, m: nat, n: nat, first: Digest, proof: seq<Digest>)
    requires 0 < m < n && m % 2 == 0
    ensures VerifyProper(h, m, n, first, proof) == VerifyProper(h, m / 2, (n + 1) / 2, first, proof)
  {
    IsPow2Correct(m);
    assert (m - 1) / 2 == m / 2 - 1 && (n - 1) / 2 == (n + 1) / 2 - 1;
    assert StripOnes(m - 1, n - 1) == StripOnes(m / 2 - 1, (n + 1) / 2 - 1);
  }

  lemma VerifyProperOdd(h: Hasher, m: nat, n: nat, first: Digest, proof: seq<Digest>)
    requires 0 < m < n && m % 2 == 1
    ensures VerifyProper(h, m, n, first, proof) ==
            if m == 1 then Walk(h, 0, n - 1, first, first, proof)
            else if proof == [] then None
            else Walk(h, m - 1, n - 1, proof[0], proof[0], proof[1..])
  {
    hide Walk;
    IsPow2Correct(m);
  }

  lemma {:induction false} ProperComplete(h: Hasher, D: seq<Digest>, m: nat)
    requires 0 < m < |D|
    ensures VerifyProper(h, m, |D|, Mth(h, D[..m]), Subproof(h, D, m, true)) == Some((Mth(h, D[..m]), Mth(h, D)))
    decreases |D|
  {
    hide Mth, Up, Subproof, Path, Walk;
    if m % 2 == 0 {
      hide VerifyProper;
      SubproofUp(h, D, m, true);
      MthUp(h, D);
      MthUp(h, D[..m]);
      UpSplits(h, D, m / 2);
      ProperComplete(h, Up(h, D), m / 2);
      VerifyProperUp(h, m, |D|, Mth(h, D[..m]), Subproof(h, D, m, true));
    } else {
      SubproofOdd(h, D, m, true);
      WalkComplete(h, D[..m], D);
      VerifyProperOdd(h, m, |D|, Mth(h, D[..m]), Subproof(h, D, m, true));
      if m == 1 {
        MthUnfold(h, D[..1], 0);
        assert Subproof(h, D, m, true) == Path(h, D, 0);
      } else {
        assert Subproof(h, D, m, true)[1..] == Path(h, D, m - 1);
      }
    }
  }

  /** Consistency completeness: the served proof between any nonempty prefix and the whole tree is
      accepted against the true roots, and has at most CeilLog2(n) + 1 hashes. */
  lemma ConsistencyComplete(h: Hasher, D: seq<Digest>, m: nat)
    requires 0 < m <= |D|
    ensures ConsistencyProof(h, D, m).Some?
    ensures VerifyConsistency(h, m, |D|, Mth(h, D[..m]), Mth(h, D), ConsistencyProof(h, D, m).value)
    ensures |ConsistencyProof(h, D, m).value| <= CeilLog2(|D|) + 1
  {
    if m == |D| {
      assert D[..m] == D;
    } else {
      ProperComplete(h, D, m);
      SubproofLength(h, D, m, true);
      VerifyConsistencyProper(h, m, |D|, Mth(h, D[..m]), Mth(h, D), Subproof(h, D, m, true));
    }
  }

  lemma RebuildUnfold(h: Hasher, n: nat, m: nat, leaf: Digest, proof: seq<Digest>, pidx: nat, k: nat, low: bool, inner: Digest, end: nat)
    requires m < n && pidx <= end < |proof| && n > 1 && k == Split(n) && low == (m < k)
    requires Rebuild(h, if low then k else n - k, if low then m else m - k, leaf, proof, pidx) == Some((inner, end))
    ensures Rebuild(h, n, m, leaf, proof, pidx)
         == Some((if low then h.node(inner, proof[end]) else h.node(proof[end], inner), end + 1))
  {
  }

  /** One level of `rebuild` above a half that was rebuilt. */
  lemma RebuildJoin(h: Hasher, D: seq<Digest>, m: nat, proof: seq<Digest>, pidx: nat, half: seq<Digest>, i: nat)
    requires m < |D| && |D| >= 2 && i < |half| && pidx <= |proof| && Path(h, D, m) <= proof[pidx..]
    requires var k := Split(|D|); (half, i) == if m < k then (D[..k], m) else (D[k..], m - k)
    requires Rebuild(h, |half|, i, D[m], proof, pidx) == Some((Mth(h, half), pidx + |Path(h, half, i)|))
    ensures Rebuild(h, |D|, m, D[m], proof, pidx) == Some((Mth(h, D), pidx + |Path(h, D, m)|))
  {
    hide Mth, Path, Rebuild, Split;
    var k := Split(|D|);
    MthUnfold(h, D, k);
    PathUnfold(h, D, k, m);
    PathInside(Path(h, half, i), Path(h, D, m), proof, pidx);
    RebuildUnfold(h, |D|, m, D[m], proof, pidx, k, m < k, Mth(h, half), pidx + |Path(h, half, i)|);
  }

  /** `rebuild` reads exactly the hashes of a true audit path, wherever it lies in the buffer. */
  lemma {:induction false} RebuildComplete(h: Hasher, D: seq<Digest>, m: nat, proof: seq<Digest>, pidx: nat)
    requires m < |D|
    requires pidx <= |proof| && Path(h, D, m) <= proof[pidx..]
    ensures Rebuild(h, |D|, m, D[m], proof, pidx) == Some((Mth(h, D), pidx + |Path(h, D, m)|))
    decreases |D|
  {
    if |D| == 1 {
      MthUnfold(h, D, 0);
      PathUnfold(h, D, 0, m);
    } else {
      hide Mth, Path, Rebuild, Split;
      var k := Split(|D|);
      PathUnfold(h, D, k, m);
      var (half, i) := if m < k then (D[..k], m) else (D[k..], m - k);
      PathInside(Path(h, half, i), Path(h, D, m), proof, pidx);
      RebuildComplete(h, half, i, proof, pidx);
      RebuildJoin(h, D, m, proof, pidx, half, i);
    }
  }

  lemma PathInside(inner: seq<Digest>, outer: seq<Digest>, proof: seq<Digest>, pidx: nat)
    requires pidx <= |proof| && outer <= proof[pidx..] && inner <= outer
    ensures inner <= proof[pidx..]
    ensures |inner| < |outer| ==> pidx + |inner| < |proof| && proof[pidx + |inner|] == outer[|inner|]
  {
  }

  /** Inclusion completeness: every leaf's audit path is accepted, and has at most CeilLog2(n) hashes. */
  lemma InclusionComplete(h: Hasher, D: seq<Digest>, m: nat)
    requires m < |D|
    ensures VerifyInclusion(h, m, |D|, D[m], Path(h, D, m), Mth(h, D))
    ensures |Path(h, D, m)| <= CeilLog2(|D|)
  {
    RebuildComplete(h, D, m, Path(h, D, m), 0);
    PathLength(h, D, m);
  }

  // ---------------------------------------------------------------------------
  // Soundness: the claim, or a concrete collision of the node hash
  // ---------------------------------------------------------------------------

  datatype Collision = Collision(l0: Digest, r0: Digest, l1: Digest, r1: Digest)

  predicate IsCollision(h: Hasher, c: Collision)
  {
    (c.l0, c.r0) != (c.l1, c.r1) && h.node(c.l0, c.r0) == h.node(c.l1, c.r1)
  }

  /** The extractor has found a collision. */
  predicate Found(h: Hasher, c: Option<Collision>)
  {
    c.Some? && IsCollision(h, c.value)
  }

  /** Compares the inputs of one evaluation of the node hash with those of another. */
  function Clash(l0: Digest, r0: Digest, l1: Digest, r1: Digest): Option<Collision>
  {
    if (l0, r0) == (l1, r1) then None else Some(Collision(l0, r0, l1, r1))
  }

  /** Extractor: walks the proof beside the true tree D and returns the topmost level on which the
      verifier hashed other inputs than the tree, although the outputs agree. */
  function WalkClash(h: Hasher, fn: nat, sr: Digest, proof: seq<Digest>, D: seq<Digest>): Option<Collision>
    requires fn < |D|
    decreases |D|
  {
    if |D| == 1 then None
    else
      var sib := Sibling(D, fn);
      if sib == [] then WalkClash(h, fn / 2, sr, proof, Up(h, D))
      else if proof == [] then None
      else
        var (l, r) := if fn % 2 == 1 then (proof[0], sr) else (sr, proof[0]);
        var (l', r') := if fn % 2 == 1 then (D[fn - 1], D[fn]) else (D[fn], D[fn + 1]);
        var above := WalkClash(h, fn / 2, h.node(l, r), proof[1..], Up(h, D));
        if above.Some? then above else Clash(l, r, l', r')
  }

  lemma WalkEnd(h: Hasher, fr: Digest, sr: Digest, proof: seq<Digest>)
    ensures Walk(h, 0, 0, fr, sr, proof) == if proof == [] then Some((fr, sr)) else None
  {
  }

  lemma {:induction false} WalkSound(h: Hasher, fn: nat, fr: Digest, sr: Digest, proof: seq<Digest>, D: seq<Digest>)
    requires fn < |D|
    requires Walk(h, fn, |D| - 1, fr, sr, proof).Some?
    requires Walk(h, fn, |D| - 1, fr, sr, proof).value.1 == Mth(h, D)
    ensures match WalkClash(h, fn, sr, proof, D)
            case Some(c) => IsCollision(h, c)
            case None => sr == D[fn] && proof == Path(h, D, fn)
    decreases |D|
  {
    hide Mth, Up, Path, Walk;
    if |D| == 1 {
      MthUnfold(h, D, 0);
      PathUnfold(h, D, 0, fn);
      WalkEnd(h, fr, sr, proof);
    } else {
      MthUp(h, D);
      PathUp(h, D, fn);
      UpAt(h, D, fn);
      WalkUnfold(h, fn, |D| - 1, fr, sr, proof);
      assert (|D| - 1) / 2 == |Up(h, D)| - 1;
      if Sibling(D, fn) == [] {
        WalkSound(h, fn / 2, fr, sr, proof, Up(h, D));
      } else {
        var c := proof[0];
        if fn % 2 == 1 {
          WalkSound(h, fn / 2, h.node(c, fr), h.node(c, sr), proof[1..], Up(h, D));
        } else {
          WalkSound(h, fn / 2, fr, h.node(sr, c), proof[1..], Up(h, D));
        }
        assert proof == [c] + proof[1..];
      }
    }
  }

  /** The collision of a consistency check of an old root against the true larger tree D, if any. */
  function ConsistencyClash(h: Hasher, m: nat, first: Digest, proof: seq<Digest>, D: seq<Digest>): Option<Collision>
    requires 0 < m <= |D|
    decreases |D|
  {
    if m == |D| then None
    else if m % 2 == 0 then ConsistencyClash(h, m / 2, first, proof, Up(h, D))
    else if m == 1 then WalkClash(h, 0, first, proof, D)
    else if proof == [] then None
    else WalkClash(h, m - 1, proof[0], proof[1..], D)
  }

  lemma {:induction false} ProperSound(h: Hasher, m: nat, first: Digest, proof: seq<Digest>, D: seq<Digest>)
    requires 0 < m < |D|
    requires VerifyProper(h, m, |D|, first, proof) == Some((first, Mth(h, D)))
    ensures match ConsistencyClash(h, m, first, proof, D)
            case Some(c) => IsCollision(h, c)
            case None => first == Mth(h, D[..m]) && proof == Subproof(h, D, m, true)
    decreases |D|
  {
    hide Mth, Up, Subproof, Path, Walk, WalkClash, VerifyProper;
    if m % 2 == 0 {
      VerifyProperUp(h, m, |D|, first, proof);
      MthUp(h, D);
      MthUp(h, D[..m]);
      UpSplits(h, D, m / 2);
      SubproofUp(h, D, m, true);
      ProperSound(h, m / 2, first, proof, Up(h, D));
    } else {
      SubproofOdd(h, D, m, true);
      VerifyProperOdd(h, m, |D|, first, proof);
      WalkComplete(h, D[..m], D);
      if m == 1 {
        MthUnfold(h, D[..1], 0);
        WalkSound(h, 0, first, first, proof, D);
      } else {
        WalkSound(h, m - 1, proof[0], proof[0], proof[1..], D);
        assert proof == [proof[0]] + proof[1..];
      }
    }
  }

  /** Consistency soundness: whatever proof an adversary sends, an accepted nonempty prefix root is
      the root of that prefix of D and the proof is the served one, or else ConsistencyClash is a
      collision of the node hash. */
  lemma ConsistencySound(h: Hasher, m: nat, first: Digest, proof: seq<Digest>, D: seq<Digest>)
    requires 0 < m <= |D|
    requires VerifyConsistency(h, m, |D|, first, Mth(h, D), proof)
    ensures match ConsistencyClash(h, m, first, proof, D)
            case Some(c) => IsCollision(h, c)
            case None => first == Mth(h, D[..m]) && Some(proof) == ConsistencyProof(h, D, m)
  {
    if m == |D| {
      assert D[..m] == D;
    } else {
      VerifyConsistencyProper(h, m, |D|, first, Mth(h, D), proof);
      ProperSound(h, m, first, proof, D);
    }
  }

  /** Soundness needs m >= 1: a size-0 prefix is accepted with every first root. */
  lemma EmptyPrefixUnchecked(h: Hasher, n: nat, first: Digest, second: Digest)
    requires n > 0
    ensures forall proof :: VerifyConsistency(h, 0, n, first, second, proof) <==> proof == []
  {
  }

  /** The verifier against the true larger root, for every claimed prefix: sizes above the tree's are
      refused, the empty prefix is accepted by the empty proof, and any other exactly with its own root and
      the served proof, short of a collision. */
  lemma ConsistencyExact(h: Hasher, D: seq<Digest>, m: nat, first: Digest, proof: seq<Digest>)
    ensures var ok := VerifyConsistency(h, m, |D|, first, Mth(h, D), proof);
      && (m > |D| ==> !ok)
      && (m == 0 < |D| ==> (ok <==> proof == []))
      && (m == 0 == |D| ==> (ok <==> proof == [] && first == h.empty))
      && (0 < m <= |D| ==>
           var right := first == Mth(h, D[..m]) && Some(proof) == ConsistencyProof(h, D, m);
           (right ==> ok) && (ok ==> right || Found(h, ConsistencyClash(h, m, first, proof, D))))
  {
    hide Mth, ConsistencyClash, ConsistencyProof, Walk, StripOnes, IsPow2;
    MthEmpty(h);
    assert |D| == 0 ==> D == [];
    if 0 < m <= |D| {
      ConsistencyComplete(h, D, m);
      if VerifyConsistency(h, m, |D|, first, Mth(h, D), proof) {
        ConsistencySound(h, m, first, proof, D);
      }
    }
  }

  lemma MthEmpty(h: Hasher)
    ensures Mth(h, []) == h.empty
  {
  }

  /** Extractor for audit paths: the rebuilt subtree roots are compared with the true ones. */
  function RebuildClash(h: Hasher, m: nat, leaf: Digest, proof: seq<Digest>, pidx: nat, D: seq<Digest>): Option<Collision>
    requires m < |D| && pidx <= |proof|
    decreases |D|
  {
    if |D| == 1 then None
    else
      var k := Split(|D|);
      var sub := if m < k then Rebuild(h, k, m, leaf, proof, pidx) else Rebuild(h, |D| - k, m - k, leaf, proof, pidx);
      if sub.None? || sub.value.1 >= |proof| then None
      else
        var c := proof[sub.value.1];
        var (l, r) := if m < k then (sub.value.0, c) else (c, sub.value.0);
        var here := Clash(l, r, Mth(h, D[..k]), Mth(h, D[k..]));
        if here.Some? then here
        else if m < k then RebuildClash(h, m, leaf, proof, pidx, D[..k])
        else RebuildClash(h, m - k, leaf, proof, pidx, D[k..])
  }

  lemma {:induction false} RebuildSound(h: Hasher, m: nat, leaf: Digest, proof: seq<Digest>, pidx: nat, D: seq<Digest>)
    requires m < |D| && pidx <= |proof|
    requires Rebuild(h, |D|, m, leaf, proof, pidx).Some?
    requires Rebuild(h, |D|, m, leaf, proof, pidx).value.0 == Mth(h, D)
    ensures var end := Rebuild(h, |D|, m, leaf, proof, pidx).value.1;
            match RebuildClash(h, m, leaf, proof, pidx, D)
            case Some(c) => IsCollision(h, c)
            case None => leaf == D[m] && proof[pidx..end] == Path(h, D, m)
    decreases |D|
  {
    hide Mth, Path, Split;
    var k := if |D| >= 2 then Split(|D|) else 0;
    MthUnfold(h, D, k);
    PathUnfold(h, D, k, m);
    if |D| >= 2 {
      var sub := if m < k then Rebuild(h, k, m, leaf, proof, pidx) else Rebuild(h, |D| - k, m - k, leaf, proof, pidx);
      var c := proof[sub.value.1];
      assert proof[pidx..sub.value.1 + 1] == proof[pidx..sub.value.1] + [c];
      if m < k {
        if (sub.value.0, c) == (Mth(h, D[..k]), Mth(h, D[k..])) {
          RebuildSound(h, m, leaf, proof, pidx, D[..k]);
        }
      } else {
        if (c, sub.value.0) == (Mth(h, D[..k]), Mth(h, D[k..])) {
          RebuildSound(h, m - k, leaf, proof, pidx, D[k..]);
        }
      }
    }
  }

  /** Inclusion soundness: an accepted leaf is leaf m of D and its proof is the audit path, or
      else RebuildClash is a collision of the node hash. */
  lemma InclusionSound(h: Hasher, m: nat, leaf: Digest, proof: seq<Digest>, D: seq<Digest>)
    requires m < |D|
    requires VerifyInclusion(h, m, |D|, leaf, proof, Mth(h, D))
    ensures match RebuildClash(h, m, leaf, proof, 0, D)
            case Some(c) => IsCollision(h, c)
            case None => leaf == D[m] && proof == Path(h, D, m)
  {
    RebuildSound(h, m, leaf, proof, 0, D);
    assert proof[0..|proof|] == proof;
  }

  /** The verifier against the true root, for every claimed leaf and index: accepted exactly for the leaf at
      an index in the tree with its audit path, short of a collision. */
  lemma InclusionExact(h: Hasher, D: seq<Digest>, m: nat, leaf: Digest, proof: seq<Digest>)
    ensures var ok := VerifyInclusion(h, m, |D|, leaf, proof, Mth(h, D));
      && (m >= |D| ==> !ok)
      && (m < |D| ==>
           var right := leaf == D[m] && proof == Path(h, D, m);
           (right ==> ok) && (ok ==> right || Found(h, RebuildClash(h, m, leaf, proof, 0, D))))
  {
    hide Mth, Path, RebuildClash, Rebuild;
    if m < |D| {
      InclusionComplete(h, D, m);
      if VerifyInclusion(h, m, |D|, leaf, proof, Mth(h, D)) {
        InclusionSound(h, m, leaf, proof, D);
      }
    }
  }

  /** Extractor for two trees of one size with one root. */
  function RootClash(h: Hasher, D: seq<Digest>, E: seq<Digest>): Option<Collision>
    requires |D| == |E|
    decreases |D|
  {
    if |D| <= 1 then None
    else
      var k := Split(|D|);
      var here := Clash(Mth(h, D[..k]), Mth(h, D[k..]), Mth(h, E[..k]), Mth(h, E[k..]));
      if here.Some? then here
      else
        var left := RootClash(h, D[..k], E[..k]);
        if left.Some? then left else RootClash(h, D[k..], E[k..])
  }

  /** A root commits to the leaves of a tree of known size. */
  lemma {:induction false} RootBinds(h: Hasher, D: seq<Digest>, E: seq<Digest>)
    requires |D| == |E| && Mth(h, D) == Mth(h, E)
    ensures match RootClash(h, D, E)
            case Some(c) => IsCollision(h, c)
            case None => D == E
    decreases |D|
  {
    hide Mth, Split;
    if |D| >= 2 {
      var k := Split(|D|);
      MthUnfold(h, D, k);
      MthUnfold(h, E, k);
      if Clash(Mth(h, D[..k]), Mth(h, D[k..]), Mth(h, E[..k]), Mth(h, E[k..])).None? {
        RootBinds(h, D[..k], E[..k]);
        RootBinds(h, D[k..], E[k..]);
      }
    } else if |D| == 1 {
      MthUnfold(h, D, 0);
      MthUnfold(h, E, 0);
    }
  }
}
