/** The buffers and loops of src/merkle.c, proved against the functions of module Merkle: provers that
    append to a caller's fixed-size proof buffer, and the bit-shifting consistency verifier. */
module MerkleProver {
  import opened Common
  import opened Merkle

  /** Room for any proof: MERKLE_MAX_PROOF. */
  const MAX_PROOF: nat := 128

  /** The pair (proof_out, plen) of the provers. */
  class ProofBuffer {
    const items: array<Digest>
    var len: nat

    ghost predicate Valid()
      reads this
    {
      len <= items.Length
    }

    ghost function Contents(): seq<Digest>
      requires Valid()
      reads this, items
    {
      items[..len]
    }

    constructor (filler: Digest)
      ensures Valid() && fresh(items) && items.Length == MAX_PROOF && Contents() == []
    {
      items := new Digest[MAX_PROOF](_ => filler);
      len := 0;
    }

    method Append(d: Digest)
      requires Valid() && len < items.Length
      modifies this`len, items
      ensures Valid() && Contents() == old(Contents()) + [d]
    {
      items[len] := d;
      len := len + 1;
    }
  }

  lemma RangeSplits(s: seq<Digest>, lo: nat, k: nat, hi: nat)
    requires lo + k <= hi <= |s|
    ensures s[lo..hi][..k] == s[lo..lo + k] && s[lo..hi][k..] == s[lo + k..hi]
  {
  }

  method MthRange(h: Hasher, leaves: array<Digest>, lo: nat, hi: nat) returns (out: Digest)
    requires lo <= hi <= leaves.Length && hi - lo <= Pow2(63)
    ensures out == Mth(h, leaves[lo..hi])
    decreases hi - lo
  {
    hide Mth, Pow2;
    var n := hi - lo;
    ghost var D := leaves[lo..hi];
    if n == 0 {
      assert D == [];
      MthEmpty(h);
      return h.empty;
    }
    if n == 1 {
      MthUnfold(h, D, 0);
      return leaves[lo];
    }
    var k := SplitMethod(n);
    RangeSplits(leaves[..], lo, k, hi);
    MthUnfold(h, D, k);
    var l := MthRange(h, leaves, lo, lo + k);
    var r := MthRange(h, leaves, lo + k, hi);
    out := h.node(l, r);
  }

  method PathRange(h: Hasher, leaves: array<Digest>, lo: nat, hi: nat, m: nat, buf: ProofBuffer)
    requires lo <= m < hi <= leaves.Length && hi - lo <= Pow2(63)
    requires buf.Valid() && buf.items != leaves
    requires buf.len + |Path(h, leaves[lo..hi], m - lo)| <= buf.items.Length
    modifies buf`len, buf.items
    ensures buf.Valid() && buf.Contents() == old(buf.Contents()) + Path(h, leaves[lo..hi], m - lo)
    decreases hi - lo
  {
    hide Mth, Path, Pow2;
    var n := hi - lo;
    ghost var D := leaves[lo..hi];
    if n <= 1 {
      PathUnfold(h, D, 0, 0);
      return;
    }
    var k := SplitMethod(n);
    RangeSplits(leaves[..], lo, k, hi);
    PathUnfold(h, D, k, m - lo);
    if m < lo + k {
      PathRange(h, leaves, lo, lo + k, m, buf);
      var sib := MthRange(h, leaves, lo + k, hi);
      buf.Append(sib);
    } else {
      PathRange(h, leaves, lo + k, hi, m, buf);
      var sib := MthRange(h, leaves, lo, lo + k);
      buf.Append(sib);
    }
  }

  method SubproofRange(h: Hasher, leaves: array<Digest>, lo: nat, hi: nat, m: nat, b: bool, buf: ProofBuffer)
    requires lo < lo + m <= hi <= leaves.Length && hi - lo <= Pow2(63)
    requires buf.Valid() && buf.items != leaves
    requires buf.len + |Subproof(h, leaves[lo..hi], m, b)| <= buf.items.Length
    modifies buf`len, buf.items
    ensures buf.Valid() && buf.Contents() == old(buf.Contents()) + Subproof(h, leaves[lo..hi], m, b)
    decreases hi - lo
  {
    hide Mth, Subproof, Pow2;
    var n := hi - lo;
    ghost var D := leaves[lo..hi];
    if m == n {
      SubproofAll(h, D, b);
      if !b {
        var root := MthRange(h, leaves, lo, hi);
        buf.Append(root);
      }
      return;
    }
    var k := SplitMethod(n);
    RangeSplits(leaves[..], lo, k, hi);
    SubproofUnfold(h, D, k, m, b);
    if m <= k {
      SubproofRange(h, leaves, lo, lo + k, m, b, buf);
      var sib := MthRange(h, leaves, lo + k, hi);
      buf.Append(sib);
    } else {
      SubproofRange(h, leaves, lo + k, hi, m - k, false, buf);
      var sib := MthRange(h, leaves, lo, lo + k);
      buf.Append(sib);
    }
  }

  /** Every proof fits the buffer: a tree of up to 2^63 leaves has depth at most 63. */
  lemma ProofsFit(h: Hasher, D: seq<Digest>, m: nat)
    requires 0 < |D| <= Pow2(63)
    ensures m < |D| ==> |Path(h, D, m)| <= 63
    ensures 0 < m < |D| ==> |Subproof(h, D, m, true)| <= 64
  {
    hide Pow2, Path, Subproof;
    CeilLog2Correct(|D|, 63);
    if m < |D| {
      PathLength(h, D, m);
    }
    if 0 < m < |D| {
      SubproofLength(h, D, m, true);
    }
  }

  method InclusionProof(h: Hasher, leaves: array<Digest>, n: nat, m: nat, buf: ProofBuffer) returns (rc: int)
    requires n <= leaves.Length && n <= Pow2(63)
    requires buf.Valid() && buf.items != leaves && buf.items.Length == MAX_PROOF
    modifies buf`len, buf.items
    ensures buf.Valid()
    ensures rc == if m >= n then -1 else 0
    ensures rc == 0 ==> buf.Contents() == Path(h, leaves[..n], m)
    ensures rc != 0 ==> buf.Contents() == old(buf.Contents())
  {
    if m >= n {
      return -1;
    }
    buf.len := 0;
    assert leaves[0..n] == leaves[..n];
    ProofsFit(h, leaves[..n], m);
    PathRange(h, leaves, 0, n, m, buf);
    rc := 0;
  }

  method ConsistencyProofMethod(h: Hasher, leaves: array<Digest>, n: nat, m: nat, buf: ProofBuffer) returns (rc: int)
    requires n <= leaves.Length && n <= Pow2(63)
    requires buf.Valid() && buf.items != leaves && buf.items.Length == MAX_PROOF
    modifies buf`len, buf.items
    ensures buf.Valid()
    ensures rc == 0 <==> ConsistencyProof(h, leaves[..n], m).Some?
    ensures rc == 0 ==> buf.Contents() == ConsistencyProof(h, leaves[..n], m).value
    ensures rc != 0 ==> rc == -1 && buf.Contents() == old(buf.Contents())
  {
    if m == 0 || m > n {
      return -1;
    }
    buf.len := 0;
    if m == n {
      return 0;
    }
    assert leaves[0..n] == leaves[..n];
    ProofsFit(h, leaves[..n], m);
    SubproofRange(h, leaves, 0, n, m, true, buf);
    rc := 0;
  }

  // ---------------------------------------------------------------------------
  // The verifier loop
  // ---------------------------------------------------------------------------

  function StripZeros(f: nat): (z: nat)
    requires f > 0
    ensures z % 2 == 1
  {
    if f % 2 == 0 then StripZeros(f / 2) else f
  }

  /** On the right edge of both trees the walk climbs to the next level that has a left sibling. */
  lemma {:induction false} WalkClimbs(h: Hasher, f: nat, fr: Digest, sr: Digest, proof: seq<Digest>)
    requires f > 0
    ensures Walk(h, f, f, fr, sr, proof) == Walk(h, StripZeros(f), StripZeros(f), fr, sr, proof)
    decreases f
  {
    if f % 2 == 0 {
      WalkUnfold(h, f, f, fr, sr, proof);
      WalkClimbs(h, f / 2, fr, sr, proof);
    }
  }

  /** A proof that ends below the root of the new tree is rejected. */
  lemma {:induction false} WalkTooShort(h: Hasher, fn: nat, sn: nat, fr: Digest, sr: Digest)
    requires fn <= sn
    ensures Walk(h, fn, sn, fr, sr, []) == if sn == 0 then Some((fr, sr)) else None
    decreases sn
  {
    if sn > 0 && fn == sn && fn % 2 == 0 {
      WalkTooShort(h, fn / 2, sn / 2, fr, sr);
    }
  }

  /** The shifting loops compute VerifyConsistency. */
  method VerifyConsistencyMethod(h: Hasher, m: nat, n: nat, first: Digest, second: Digest, proof: seq<Digest>)
    returns (ok: bool)
    ensures ok == VerifyConsistency(h, m, n, first, second, proof)
  {
    if m > n {
      return false;
    }
    if m == n {
      return |proof| == 0 && first == second;
    }
    if m == 0 {
      return |proof| == 0;
    }
    var fn: nat, sn: nat := m - 1, n - 1;
    while fn % 2 == 1
      decreases fn
      invariant fn <= sn && StripOnes(fn, sn) == StripOnes(m - 1, n - 1)
    {
      fn, sn := fn / 2, sn / 2;
    }
    var fr, sr := first, first;
    var idx := 0;
    if !IsPow2(m) {
      if |proof| == 0 {
        return false;
      }
      fr, sr := proof[0], proof[0];
      idx := 1;
    }
    hide Walk;
    ghost var start := Walk(h, fn, sn, fr, sr, proof[idx..]);
    assert proof[0..] == proof;
    assert VerifyConsistency(h, m, n, first, second, proof) == (start == Some((first, second)));
    while idx < |proof|
      invariant idx <= |proof| && fn <= sn
      invariant Walk(h, fn, sn, fr, sr, proof[idx..]) == start
    {
      var c := proof[idx];
      assert proof[idx..][1..] == proof[idx + 1..];
      if sn == 0 {
        return false;
      }
      WalkUnfold(h, fn, sn, fr, sr, proof[idx..]);
      if fn % 2 == 1 || fn == sn {
        ghost var z, y := fn, sn;
        if fn == sn {
          z, y := StripZeros(fn), StripZeros(fn);
          WalkClimbs(h, fn, fr, sr, proof[idx..]);
          WalkUnfold(h, z, y, fr, sr, proof[idx..]);
        }
        fr, sr := h.node(c, fr), h.node(c, sr);
        while fn != 0 && fn % 2 == 0
          decreases fn
          invariant 0 < fn <= sn
          invariant fn % 2 == 0 ==> fn == sn && StripZeros(fn) == z == y
          invariant fn % 2 == 1 ==> fn == z && sn == y
        {
          fn, sn := fn / 2, sn / 2;
        }
      } else {
        sr := h.node(sr, c);
      }
      fn, sn := fn / 2, sn / 2;
      idx := idx + 1;
    }
    assert proof[idx..] == [];
    WalkTooShort(h, fn, sn, fr, sr);
    ok := sn == 0 && fr == first && sr == second;
  }

}
