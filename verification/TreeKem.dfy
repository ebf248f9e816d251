/** The ratchet tree of src/treekem.c with ideal cryptography: secrets and key pairs are terms, a
    sealed secret opens under the key it was sealed to and no other. */
module TreeKem {
  import opened Common
  import opened TreeMath

  /** A path secret: fresh randomness, or kdf(parent of the chain, "path"). */
  datatype Secret = Fresh(id: nat) | Next(of: Secret)

  /** A key pair: generated at random for a leaf, or derived as kdf(secret, "node"). One name
      stands for both halves; who holds the private half is recorded in the nodes. */
  datatype Key = LeafKey(id: nat) | NodeKey(ps: Secret)

  /** kdf(secret of node 1, "root"). */
  datatype Root = RootOf(ps: Secret)

  /** A path secret sealed to a public key. */
  datatype Sealed = Sealed(to: Key, ps: Secret)

  datatype Enc = Enc(recipient: nat, box: Sealed)
  datatype Step = Step(node: nat, pub: Key, encs: seq<Enc>)
  datatype Commit = Commit(sender: nat, leafPub: Key, steps: seq<Step>)

  /** has_pub/pub and has_priv/priv. */
  datatype Node = Node(pub: Option<Key>, priv: Option<Key>)

  datatype Rc = Success | InvalidInput | Integrity

  const MAX_LEAVES: nat := 16
  const MAX_PATH: nat := 5
  const MAX_RES: nat := MAX_LEAVES / 2

  type Tree = seq<Node>
  type Pubs = seq<Option<Key>>

  function PubsOf(t: Tree): (p: Pubs)
    ensures |p| == |t| && forall v :: 0 <= v < |t| ==> p[v] == t[v].pub
  {
    seq(|t|, v requires 0 <= v < |t| => t[v].pub)
  }

  function Open(priv: Key, box: Sealed): Option<Secret>
  {
    if box.to == priv then Some(box.ps) else None
  }

  /** One member's state; slot 0 of the tree is unused. */
  datatype View = View(n: nat, me: nat, tree: Tree, root: Option<Root>)

  predicate WellFormed(w: View)
  {
    ValidSize(w.n) && w.n <= w.me < 2 * w.n && |w.tree| == 2 * w.n
  }

  // ---------------------------------------------------------------------------
  // Specification functions
  // ---------------------------------------------------------------------------

  /** Highest populated nodes below v, left to right. */
  function Resolution(p: Pubs, n: nat, v: nat): (res: seq<nat>)
    requires |p| == 2 * n && v >= 1
    ensures forall i :: 0 <= i < |res| ==> v <= res[i] < 2 * n && p[res[i]].Some? && IsAncestor(v, res[i])
    decreases 2 * n - v
  {
    if v > 2 * n - 1 then []
    else if p[v].Some? then [v]
    else if v >= n then []
    else
      var (l, r) := (Resolution(p, n, 2 * v), Resolution(p, n, 2 * v + 1));
      ResolutionBelow(v, l, r);
      l + r
  }

  lemma ResolutionBelow(v: nat, l: seq<nat>, r: seq<nat>)
    requires v >= 1
    requires forall i :: 0 <= i < |l| ==> IsAncestor(2 * v, l[i])
    requires forall i :: 0 <= i < |r| ==> IsAncestor(2 * v + 1, r[i])
    ensures forall i :: 0 <= i < |l + r| ==> v <= (l + r)[i] && IsAncestor(v, (l + r)[i])
  {
    forall i | 0 <= i < |l + r|
      ensures v <= (l + r)[i] && IsAncestor(v, (l + r)[i])
    {
      AncestorChildren(v, (l + r)[i]);
      AncestorLe(v, (l + r)[i]);
    }
  }

  /** The secret `s` of node `x`, hashed up to the ancestor v. */
  function PathSecret(s: Secret, x: nat, v: nat): Secret
    requires IsAncestor(v, x)
    decreases x
  {
    if x == v then s else PathSecret(Next(s), x / 2, v)
  }

  function SealTo(p: Pubs, res: seq<nat>, ps: Secret): (encs: seq<Enc>)
    requires forall i :: 0 <= i < |res| ==> res[i] < |p| && p[res[i]].Some?
    ensures |encs| == |res|
    ensures forall i :: 0 <= i < |res| ==> encs[i] == Enc(res[i], Sealed(p[res[i]].value, ps))
  {
    seq(|res|, i requires 0 <= i < |res| => Enc(res[i], Sealed(p[res[i]].value, ps)))
  }

  /** The update path above `child`; `ps` is the secret of its parent. */
  function Steps(p: Pubs, n: nat, child: nat, ps: Secret): seq<Step>
    requires |p| == 2 * n && child >= 1
    decreases child
  {
    if child == 1 then []
    else
      [Step(Parent(child), NodeKey(ps), SealTo(p, Resolution(p, n, Sibling(child)), ps))] +
      Steps(p, n, Parent(child), Next(ps))
  }

  /** The commit of member `me` with leaf secret `ls`, given the public tree before it. */
  function CommitOf(p: Pubs, n: nat, me: nat, ls: Secret): Commit
    requires |p| == 2 * n && me >= 1
  {
    Commit(me, NodeKey(ls), Steps(p, n, me, Next(ls)))
  }

  /** Every node on the path of `me` is re-keyed from `ls`; the rest is untouched. */
  function CommitTree(t: Tree, me: nat, ls: Secret): (t': Tree)
    ensures |t'| == |t|
  {
    seq(|t|, v requires 0 <= v < |t| =>
      if v >= 1 && IsAncestor(v, me) then
        var k := NodeKey(PathSecret(ls, me, v));
        Node(Some(k), Some(k))
      else t[v])
  }

  function CommitView(w: View, ls: Secret): View
    requires WellFormed(w)
  {
    RootIsAncestor(w.me);
    w.(tree := CommitTree(w.tree, w.me, ls), root := Some(RootOf(PathSecret(ls, w.me, 1))))
  }

  predicate NodesInRange(n: nat, steps: seq<Step>)
  {
    forall s :: 0 <= s < |steps| ==> 1 <= steps[s].node <= 2 * n - 1
  }

  /** Installs the public keys of a commit's steps; stops at a node out of range. */
  function Install(t: Tree, n: nat, steps: seq<Step>): (r: (bool, Tree))
    requires |t| == 2 * n
    ensures |r.1| == |t| && (r.0 <==> NodesInRange(n, steps))
    decreases |steps|
  {
    if steps == [] then (true, t)
    else if steps[0].node < 1 || steps[0].node > 2 * n - 1 then (false, t)
    else
      assert steps == [steps[0]] + steps[1..];
      Install(t[steps[0].node := Node(Some(steps[0].pub), None)], n, steps[1..])
  }

  /** The first sealed secret that `me` may and can open. */
  function OpenFirst(t: Tree, me: nat, encs: seq<Enc>): Option<Secret>
    requires me < |t|
    decreases |encs|
  {
    if encs == [] then None
    else
      AncestorLe(encs[0].recipient, me);
      var here := if IsAncestor(encs[0].recipient, me) && t[encs[0].recipient].priv.Some?
                  then Open(t[encs[0].recipient].priv.value, encs[0].box) else None;
      if here.Some? then here else OpenFirst(t, me, encs[1..])
  }

  function FindSecret(t: Tree, n: nat, me: nat, steps: seq<Step>, child: nat): (r: Option<(nat, Secret)>)
    requires me < |t|
    ensures r.Some? && NodesInRange(n, steps) ==> 1 <= r.value.0 <= 2 * n - 1
    decreases |steps|
  {
    if steps == [] then None
    else
      var got := if IsAncestor(Sibling(child), me) then OpenFirst(t, me, steps[0].encs) else None;
      if got.Some? then Some((steps[0].node, got.value))
      else FindSecret(t, n, me, steps[1..], steps[0].node)
  }

  /** Re-derives the node keys from v up to the root. */
  function Rederive(t: Tree, v: nat, ps: Secret): (r: (Tree, Root))
    requires 1 <= v < |t|
    ensures |r.0| == |t|
    decreases v
  {
    var t1 := t[v := Node(Some(NodeKey(ps)), Some(NodeKey(ps)))];
    if v == 1 then (t1, RootOf(ps)) else Rederive(t1, Parent(v), Next(ps))
  }

  function ProcessView(w: View, c: Commit): (Rc, View)
    requires WellFormed(w)
  {
    if |c.steps| == 0 || |c.steps| > MAX_PATH then (InvalidInput, w)
    else if c.sender < w.n || c.sender >= 2 * w.n || c.sender == w.me then (InvalidInput, w)
    else
      var (ok, t) := Install(w.tree[c.sender := Node(Some(c.leafPub), None)], w.n, c.steps);
      if !ok then (InvalidInput, w.(tree := t))
      else
        var found := FindSecret(t, w.n, w.me, c.steps, c.sender);
        if found.None? then (Integrity, w.(tree := t))
        else
          var (t', root) := Rederive(t, found.value.0, found.value.1);
          (Success, w.(tree := t', root := Some(root)))
  }

  /** Blanks the proper ancestors of a leaf. */
  function BlankPath(t: Tree, leaf: nat): (t': Tree)
    ensures |t'| == |t|
  {
    seq(|t|, v requires 0 <= v < |t| => if 1 <= v < leaf && IsAncestor(v, leaf) then Node(None, None) else t[v])
  }

  predicate IsLeaf(n: nat, leaf: nat)
  {
    n <= leaf < 2 * n
  }

  function BlankLeafView(w: View, leaf: nat): View
    requires WellFormed(w)
  {
    if !IsLeaf(w.n, leaf) then w else w.(tree := BlankPath(w.tree[leaf := Node(None, None)], leaf))
  }

  function AddLeafView(w: View, leaf: nat, pub: Key): (Rc, View)
    requires WellFormed(w)
  {
    if !IsLeaf(w.n, leaf) then (InvalidInput, w)
    else (Success, w.(tree := BlankPath(w.tree[leaf := Node(Some(pub), None)], leaf)))
  }

  /** A joiner's state from a public snapshot. */
  function ImportView(p: Pubs, n: nat, leaf: nat, priv: Key): (w: View)
    requires ValidSize(n) && |p| == 2 * n && IsLeaf(n, leaf)
    ensures WellFormed(w) && w.tree[0] == Node(None, None)
  {
    View(n, leaf,
         seq(2 * n, v requires 0 <= v < 2 * n =>
           Node(if v == 0 then None else p[v], if v == leaf then Some(priv) else None)),
         None)
  }

  function InitView(n: nat, m: nat, leafPubs: seq<Key>, priv: Key): (w: View)
    requires ValidSize(n) && m < n && |leafPubs| == n
    ensures WellFormed(w)
  {
    View(n, n + m,
         seq(2 * n, v requires 0 <= v < 2 * n =>
           Node(if v >= n then Some(leafPubs[v - n]) else None, if v == n + m then Some(priv) else None)),
         None)
  }

  // ---------------------------------------------------------------------------
  // Sizes of the wire arrays
  // ---------------------------------------------------------------------------

  /** A subtree of height hgt has at most 2^hgt resolution nodes. */
  lemma {:induction false} ResolutionSize(p: Pubs, n: nat, v: nat, w: nat, hgt: nat)
    requires |p| == 2 * n && 1 <= w <= v < 2 * w && n == w * Pow2(hgt)
    ensures |Resolution(p, n, v)| <= Pow2(hgt)
    decreases hgt
  {
    if hgt > 0 {
      assert n == 2 * w * Pow2(hgt - 1) by {
        Pow2Step(hgt - 1);
      }
      ResolutionSize(p, n, 2 * v, 2 * w, hgt - 1);
      ResolutionSize(p, n, 2 * v + 1, 2 * w, hgt - 1);
    }
  }

  /** A copath resolution always fits TREEKEM_MAX_RES. */
  lemma CopathFits(p: Pubs, n: nat, v: nat)
    requires ValidSize(n) && |p| == 2 * n && 2 <= v < 2 * n
    ensures |Resolution(p, n, v)| <= MAX_RES
  {
    hide Resolution;
    assert Pow2(0) == 1 && Pow2(1) == 2 && Pow2(2) == 4 && Pow2(3) == 8;
    var w := if v < 4 then 2 else if v < 8 then 4 else if v < 16 then 8 else 16;
    var hgt := if n == w then 0 else if n == 2 * w then 1 else if n == 4 * w then 2 else 3;
    ResolutionSize(p, n, v, w, hgt);
  }

  /** The height of a node: the number of steps of an update path from it. */
  function Depth(child: nat): nat
  {
    if child <= 1 then 0 else 1 + Depth(child / 2)
  }

  lemma {:induction false} StepsLength(p: Pubs, n: nat, child: nat, ps: Secret)
    requires |p| == 2 * n && child >= 1
    ensures |Steps(p, n, child, ps)| == Depth(child)
    decreases child
  {
    hide Resolution;
    if child > 1 {
      StepsLength(p, n, child / 2, Next(ps));
    }
  }

  lemma DepthBound(me: nat)
    requires 2 <= me < 32
    ensures 1 <= Depth(me) <= 4
  {
    assert Depth(me) == 1 + Depth(me / 2);
    if me / 2 > 1 {
      assert Depth(me / 2) == 1 + Depth(me / 4);
      if me / 4 > 1 {
        assert Depth(me / 4) == 1 + Depth(me / 8);
        if me / 8 > 1 {
          assert Depth(me / 8) == 1 + Depth(me / 16);
        }
      }
    }
  }

  // ---------------------------------------------------------------------------
  // Paths and resolutions
  // ---------------------------------------------------------------------------

  lemma {:induction false} PathSecretParent(s: Secret, x: nat, c: nat)
    requires c >= 2 && IsAncestor(c, x)
    ensures IsAncestor(c / 2, x) && PathSecret(s, x, c / 2) == Next(PathSecret(s, x, c))
    decreases x
  {
    AncestorTrans(c / 2, c, x);
    if x == c {
      assert PathSecret(s, x, c / 2) == PathSecret(Next(s), x / 2, c / 2);
    } else {
      AncestorLe(c, x / 2);
      PathSecretParent(Next(s), x / 2, c);
    }
  }

  /** Resolution depends only on the nodes below v. */
  lemma {:induction false} ResolutionFrame(p: Pubs, q: Pubs, n: nat, v: nat)
    requires |p| == |q| == 2 * n && v >= 1
    requires forall x :: 1 <= x < 2 * n && IsAncestor(v, x) ==> p[x] == q[x]
    ensures Resolution(p, n, v) == Resolution(q, n, v)
    decreases 2 * n - v
  {
    if v < 2 * n && p[v].None? && v < n {
      forall x
        ensures IsAncestor(2 * v, x) || IsAncestor(2 * v + 1, x) ==> IsAncestor(v, x)
      {
        AncestorChildren(v, x);
      }
      ResolutionFrame(p, q, n, 2 * v);
      ResolutionFrame(p, q, n, 2 * v + 1);
    }
  }

  lemma ResolutionUnfold(p: Pubs, n: nat, v: nat)
    requires |p| == 2 * n && v >= 1
    ensures Resolution(p, n, v) ==
            if v > 2 * n - 1 then [] else if p[v].Some? then [v] else if v >= n then []
            else Resolution(p, n, 2 * v) + Resolution(p, n, 2 * v + 1)
  {
  }

  /** A populated leaf below v lies below exactly one resolution node of v. */
  lemma {:induction false} ResolutionCovers(p: Pubs, n: nat, v: nat, m: nat) returns (i: nat)
    requires |p| == 2 * n && v >= 1 && IsLeaf(n, m) && p[m].Some? && IsAncestor(v, m)
    ensures i < |Resolution(p, n, v)| && IsAncestor(Resolution(p, n, v)[i], m)
    ensures forall j :: 0 <= j < |Resolution(p, n, v)| && IsAncestor(Resolution(p, n, v)[j], m) ==> j == i
    decreases 2 * n - v
  {
    hide Resolution, IsAncestor;
    AncestorLe(v, m);
    ResolutionUnfold(p, n, v);
    if p[v].Some? {
      i := 0;
    } else {
      AncestorChildren(v, m);
      var (l, r) := (Resolution(p, n, 2 * v), Resolution(p, n, 2 * v + 1));
      if IsAncestor(2 * v, m) {
        i := ResolutionCovers(p, n, 2 * v, m);
        NoneBelow(r, 2 * v + 1, m);
      } else {
        var k := ResolutionCovers(p, n, 2 * v + 1, m);
        NoneBelow(l, 2 * v, m);
        i := |l| + k;
      }
      assert Resolution(p, n, v) == l + r;
    }
  }

  lemma NoneBelow(res: seq<nat>, v: nat, m: nat)
    requires forall i :: 0 <= i < |res| ==> IsAncestor(v, res[i])
    requires !IsAncestor(v, m)
    ensures forall i :: 0 <= i < |res| ==> !IsAncestor(res[i], m)
  {
    forall i | 0 <= i < |res| && IsAncestor(res[i], m)
      ensures false
    {
      AncestorTrans(v, res[i], m);
    }
  }
}
