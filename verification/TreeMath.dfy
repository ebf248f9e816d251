/** Heap-indexed perfect binary trees (src/treekem.c): root 1, children 2i and 2i+1, leaves n..2n-1. */
module TreeMath {
  import opened Common

  function Parent(i: nat): nat { i / 2 }

  /** i ^ 1 */
  function Sibling(i: nat): (s: nat)
    ensures i >= 2 ==> s >= 2 && Parent(s) == Parent(i) && s != i
  {
    if i % 2 == 0 then i + 1 else i - 1
  }

  /** `a` is an ancestor of `x`, or `x` itself. */
  predicate IsAncestor(a: nat, x: nat)
  {
    if x > a then IsAncestor(a, x / 2) else x == a
  }

  lemma {:induction false} AncestorTrans(a: nat, b: nat, x: nat)
    requires IsAncestor(a, b) && IsAncestor(b, x)
    ensures IsAncestor(a, x) && a <= b <= x
  {
    AncestorLe(a, b);
    AncestorLe(b, x);
    if x > b {
      AncestorTrans(a, b, x / 2);
    }
  }

  lemma {:induction false} AncestorLe(a: nat, x: nat)
    ensures IsAncestor(a, x) ==> a <= x
  {
    if x > a {
      AncestorLe(a, x / 2);
    }
  }

  /** The ancestors of one node form a chain. */
  lemma {:induction false} AncestorChain(a: nat, b: nat, x: nat)
    requires a <= b && IsAncestor(a, x) && IsAncestor(b, x)
    ensures IsAncestor(a, b)
  {
    if x > b {
      AncestorChain(a, b, x / 2);
    }
  }

  lemma {:induction false} RootIsAncestor(x: nat)
    requires x >= 1
    ensures IsAncestor(1, x)
  {
    if x > 1 {
      RootIsAncestor(x / 2);
    }
  }

  /** Below v lie v itself and the nodes below exactly one of its children. */
  lemma {:induction false} AncestorChildren(v: nat, x: nat)
    requires v >= 1
    ensures IsAncestor(v, x) <==> x == v || IsAncestor(2 * v, x) || IsAncestor(2 * v + 1, x)
    ensures !(IsAncestor(2 * v, x) && IsAncestor(2 * v + 1, x))
    ensures IsAncestor(2 * v, x) || IsAncestor(2 * v + 1, x) ==> x > v
  {
    AncestorLe(2 * v, x);
    AncestorLe(2 * v + 1, x);
    if x > 2 * v + 1 {
      AncestorChildren(v, x / 2);
    } else if x > v {
      assert IsAncestor(v, x) == IsAncestor(v, x / 2);
      if x / 2 > v {
        assert false;
      }
      AncestorLe(v, x / 2);
    }
  }

  /** A node and its sibling have no descendant in common, and share every proper ancestor. */
  lemma SiblingDisjoint(c: nat, x: nat)
    requires c >= 2
    ensures !(IsAncestor(c, x) && IsAncestor(Sibling(c), x))
    ensures IsAncestor(Parent(c), x) <==> x == Parent(c) || IsAncestor(c, x) || IsAncestor(Sibling(c), x)
  {
    AncestorChildren(Parent(c), x);
  }

  /** Powers of two within TREEKEM_MAX_LEAVES. */
  predicate ValidSize(n: nat)
  {
    n == 2 || n == 4 || n == 8 || n == 16
  }

  lemma ValidSizeTest(n: nat)
    ensures ValidSize(n) <==> 2 <= n <= 16 && IsPow2(n)
  {
    hide IsPow2;
    if 2 <= n <= 16 {
      IsPow2Correct(1);
      IsPow2Correct(n);
      IsPow2Correct(n / 2);
      if n >= 4 {
        IsPow2Correct(n / 4);
      }
      if n >= 8 {
        IsPow2Correct(n / 8);
      }
    }
  }
}
