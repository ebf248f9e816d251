/** The mutable member state of src/treekem.c and its ascending loops, proved against module TreeKem. */
module TreeKemMember {
  import opened Common
  import opened TreeMath
  import opened TreeKem

  const NODE_SLOTS: nat := 2 * MAX_LEAVES + 1

  class Member {
    const n: nat
    const me: nat
    const node: array<Node>
    var root: Option<Root>

    ghost predicate Valid()
    {
      ValidSize(n) && IsLeaf(n, me) && node.Length == NODE_SLOTS
    }

    ghost function State(): (w: View)
      requires Valid()
      reads this, node
      ensures WellFormed(w)
    {
      View(n, me, node[..2 * n], root)
    }

    constructor Blank(size: nat, leaf: nat)
      requires ValidSize(size) && IsLeaf(size, leaf)
      ensures Valid() && n == size && me == leaf && root == None && fresh(node)
      ensures forall v :: 0 <= v < NODE_SLOTS ==> node[v] == Node(None, None)
    {
      n, me, root := size, leaf, None;
      node := new Node[NODE_SLOTS](_ => Node(None, None));
    }

    static method Init(size: nat, m: nat, leafPubs: seq<Key>, priv: Key) returns (rc: Rc, t: Member?)
      requires |leafPubs| == size
      ensures rc == (if m < size && ValidSize(size) then Success else InvalidInput)
      ensures rc == Success ==> t != null && fresh(t) && fresh(t.node) && t.Valid() && t.State() == InitView(size, m, leafPubs, priv)
    {
      ValidSizeTest(size);
      if m >= size || size < 2 || size > MAX_LEAVES || !IsPow2(size) {
        return InvalidInput, null;
      }
      t := new Member.Blank(size, size + m);
      for i := 0 to size
        invariant t.Valid() && t.n == size && t.me == size + m && t.root == None && fresh(t) && fresh(t.node)
        invariant forall v :: 0 <= v < 2 * size ==>
                    t.node[v] == Node(if size <= v < size + i then Some(leafPubs[v - size]) else None, None)
      {
        t.node[size + i] := Node(Some(leafPubs[i]), t.node[size + i].priv);
      }
      t.node[t.me] := Node(t.node[t.me].pub, Some(priv));
      rc := Success;
      assert t.State().tree == InitView(size, m, leafPubs, priv).tree;
    }

    lemma PubsAt()
      requires Valid()
      ensures |PubsOf(State().tree)| == 2 * n
      ensures forall v :: 0 <= v < 2 * n ==> PubsOf(State().tree)[v] == node[v].pub
    {
    }

    /** Appends the resolution of v to `out` from index `count` on. */
    method ResolutionInto(v: nat, out: array<nat>, count: nat) returns (count': nat)
      requires Valid() && v >= 1
      requires count + |Resolution(PubsOf(State().tree), n, v)| <= out.Length
      modifies out
      ensures count' == count + |Resolution(PubsOf(State().tree), n, v)|
      ensures out[..count'] == old(out[..count]) + Resolution(PubsOf(State().tree), n, v)
      decreases 2 * n - v
    {
      hide Resolution, IsAncestor, PubsOf;
      ghost var p := PubsOf(State().tree);
      ResolutionUnfold(p, n, v);
      PubsAt();
      count' := count;
      if v > 2 * n - 1 {
        return;
      }
      if node[v].pub.Some? {
        out[count] := v;
        count' := count + 1;
        return;
      }
      if v >= n {
        return;
      }
      ghost var was := out[..count];
      count' := ResolutionInto(2 * v, out, count);
      count' := ResolutionInto(2 * v + 1, out, count');
    }

    /** Seals a path secret to every resolution node of a copath node. */
    method SealCopath(cop: nat, ps: Secret) returns (encs: seq<Enc>)
      requires Valid() && 2 <= cop < 2 * n
      ensures var p := PubsOf(State().tree); encs == SealTo(p, Resolution(p, n, cop), ps)
    {
      ghost var p := PubsOf(State().tree);
      CopathFits(p, n, cop);
      PubsAt();
      var res := new nat[MAX_RES];
      var nres := ResolutionInto(cop, res, 0);
      assert res[..nres] == Resolution(p, n, cop);
      encs := SealEach(res[..nres], p, ps);
    }

    method SealEach(res: seq<nat>, ghost p: Pubs, ps: Secret) returns (encs: seq<Enc>)
      requires |res| <= MAX_RES && |p| <= node.Length
      requires forall v :: 0 <= v < |p| ==> p[v] == node[v].pub
      requires forall i :: 0 <= i < |res| ==> res[i] < |p| && p[res[i]].Some?
      ensures encs == SealTo(p, res, ps)
    {
      encs := [];
      var i := 0;
      while i < |res| && |encs| < MAX_RES
        invariant i <= |res| && |encs| == i
        invariant forall j :: 0 <= j < i ==> encs[j] == Enc(res[j], Sealed(p[res[j]].value, ps))
      {
        encs := encs + [Enc(res[i], Sealed(node[res[i]].pub.value, ps))];
        i := i + 1;
      }
    }

    /** Re-keys the parent of `child` with `ps` and seals `ps` to the other side. */
    method ClimbStep(child: nat, ps: Secret, ghost t0: Tree, ghost ls: Secret) returns (step: Step)
      requires Valid() && 2 <= child <= me && IsAncestor(child, me) && |t0| == 2 * n
      requires ps == Next(PathSecret(ls, me, child))
      requires node[..2 * n] == CommitTreeFrom(t0, me, ls, child)
      modifies node
      ensures IsAncestor(Parent(child), me) && node[..2 * n] == CommitTreeFrom(t0, me, ls, Parent(child))
      ensures step == Step(Parent(child), NodeKey(ps), SealTo(PubsOf(t0), Resolution(PubsOf(t0), n, Sibling(child)), ps))
    {
      hide IsAncestor, PathSecret, CommitTreeFrom, PubsOf, Resolution;
      var v := Parent(child);
      node[v] := Node(Some(NodeKey(ps)), Some(NodeKey(ps)));
      Rekeyed(t0, me, ls, child);
      CopathUnchanged(t0, me, ls, v, n, child);
      assert State().tree == CommitTreeFrom(t0, me, ls, v);
      var encs := SealCopath(Sibling(child), ps);
      step := Step(v, NodeKey(ps), encs);
    }

    /** Re-keys the path of `me` and seals each path secret to the resolution of the copath. */
    method CommitUpdate(leafSecret: Secret) returns (c: Commit)
      requires Valid()
      modifies this`root, node
      ensures State() == CommitView(old(State()), leafSecret)
      ensures c == CommitOf(PubsOf(old(State()).tree), n, me, leafSecret)
    {
      ghost var t0 := State().tree;
      Rekeyed(t0, me, leafSecret, me) by {
        PathSecretSelf(me, leafSecret);
      }
      Whole(t0, me, leafSecret);
      var leafKey := NodeKey(leafSecret);
      node[me] := Node(Some(leafKey), Some(leafKey));
      assert node[..2 * n] == CommitTreeFrom(t0, me, leafSecret, me);
      var steps := Climb(leafSecret, t0);
      c := Commit(me, leafKey, steps);
    }

    method Climb(leafSecret: Secret, ghost t0: Tree) returns (steps: seq<Step>)
      requires Valid() && |t0| == 2 * n
      requires node[..2 * n] == CommitTreeFrom(t0, me, leafSecret, me)
      modifies this`root, node
      ensures node[..2 * n] == CommitTreeFrom(t0, me, leafSecret, 1)
      ensures IsAncestor(1, me) && root == Some(RootOf(PathSecret(leafSecret, me, 1)))
      ensures steps == Steps(PubsOf(t0), n, me, Next(leafSecret))
    {
      hide IsAncestor, PathSecret, CommitTreeFrom, PubsOf, Resolution, Steps, SealTo;
      ghost var p := PubsOf(t0);
      PathSecretSelf(me, leafSecret);
      var ps := Next(leafSecret);
      var child, v := me, Parent(me);
      steps := [];
      RootIsAncestor(me);
      while true
        invariant 2 <= child <= me && v == Parent(child) && IsAncestor(child, me)
        invariant ps == Next(PathSecret(leafSecret, me, child))
        invariant node[..2 * n] == CommitTreeFrom(t0, me, leafSecret, child)
        invariant steps + Steps(p, n, child, ps) == Steps(p, n, me, Next(leafSecret))
        decreases child
      {
        var step := ClimbStep(child, ps, t0, leafSecret);
        StepsUnfold(p, n, child, ps);
        PathSecretParent(leafSecret, me, child);
        steps := steps + [step];
        if v == 1 {
          root := Some(RootOf(ps));
          break;
        }
        child, v := v, Parent(v);
        ps := Next(ps);
      }
      StepsAtRoot(p, n, Next(ps));
    }

    method Process(c: Commit) returns (rc: Rc)
      requires Valid()
      modifies this`root, node
      ensures (rc, State()) == ProcessView(old(State()), c)
    {
      if |c.steps| == 0 || |c.steps| > MAX_PATH {
        return InvalidInput;
      }
      if c.sender < n || c.sender >= 2 * n || c.sender == me {
        return InvalidInput;
      }
      hide Install, FindSecret, Rederive;
      node[c.sender] := Node(Some(c.leafPub), None);
      assert node[..2 * n] == old(State()).tree[c.sender := Node(Some(c.leafPub), None)];
      var ok := InstallSteps(c.steps);
      if !ok {
        return InvalidInput;
      }
      var got := FindOpenable(c.steps, c.sender);
      if got.None? {
        return Integrity;
      }
      RederiveUp(got.value.0, got.value.1);
      rc := Success;
    }

    /** Installs the new public keys; their private halves are unknown to us. */
    method InstallSteps(steps: seq<Step>) returns (ok: bool)
      requires Valid()
      modifies node
      ensures (ok, node[..2 * n]) == Install(old(node[..2 * n]), n, steps)
    {
      hide Install;
      ghost var t0 := node[..2 * n];
      assert steps[0..] == steps;
      var s := 0;
      while s < |steps|
        invariant s <= |steps|
        invariant Install(t0, n, steps) == Install(node[..2 * n], n, steps[s..])
      {
        var v := steps[s].node;
        InstallUnfold(node[..2 * n], n, steps[s..]);
        assert steps[s..][1..] == steps[s + 1..];
        if v < 1 || v > 2 * n - 1 {
          return false;
        }
        ghost var before := node[..2 * n];
        node[v] := Node(Some(steps[s].pub), None);
        assert node[..2 * n] == before[v := Node(Some(steps[s].pub), None)];
        s := s + 1;
      }
      assert steps[s..] == [];
      InstallUnfold(node[..2 * n], n, []);
      ok := true;
    }

    /** The first step whose copath covers our leaf and carries a secret we can open. */
    method FindOpenable(steps: seq<Step>, sender: nat) returns (got: Option<(nat, Secret)>)
      requires Valid()
      ensures got == FindSecret(node[..2 * n], n, me, steps, sender)
    {
      hide FindSecret, OpenFirst;
      ghost var t := node[..2 * n];
      assert steps[0..] == steps;
      got := None;
      var child := sender;
      var s := 0;
      while s < |steps| && got.None?
        invariant s <= |steps|
        invariant got.Some? ==> FindSecret(t, n, me, steps, sender) == got
        invariant got.None? ==> FindSecret(t, n, me, steps, sender) == FindSecret(t, n, me, steps[s..], child)
      {
        var v := steps[s].node;
        FindSecretUnfold(t, n, me, steps[s..], child);
        assert steps[s..][1..] == steps[s + 1..];
        if IsAncestor(Sibling(child), me) {
          var ps := OpenAny(steps[s].encs);
          if ps.Some? {
            got := Some((v, ps.value));
          }
        }
        child := v;
        s := s + 1;
      }
      if got.None? {
        assert steps[s..] == [];
        FindSecretUnfold(t, n, me, [], child);
      }
    }

    method OpenAny(encs: seq<Enc>) returns (ps: Option<Secret>)
      requires Valid()
      ensures ps == OpenFirst(node[..2 * n], me, encs)
    {
      var i := 0;
      assert encs[0..] == encs;
      while i < |encs|
        invariant i <= |encs|
        invariant OpenFirst(node[..2 * n], me, encs) == OpenFirst(node[..2 * n], me, encs[i..])
      {
        var r := encs[i].recipient;
        AncestorLe(r, me);
        assert encs[i..][1..] == encs[i + 1..];
        if IsAncestor(r, me) && node[r].priv.Some? {
          var got := Open(node[r].priv.value, encs[i].box);
          if got.Some? {
            return got;
          }
        }
        i := i + 1;
      }
      ps := None;
    }

    method RederiveUp(from: nat, secret: Secret)
      requires Valid() && 1 <= from < 2 * n
      modifies this`root, node
      ensures var (t', r) := Rederive(old(State()).tree, from, secret);
              State() == old(State()).(tree := t', root := Some(r))
    {
      var v, ps := from, secret;
      ghost var t0 := State().tree;
      while true
        invariant 1 <= v < 2 * n && root == old(root)
        invariant Rederive(node[..2 * n], v, ps) == Rederive(t0, from, secret)
        decreases v
      {
        ghost var before := node[..2 * n];
        node[v] := Node(Some(NodeKey(ps)), Some(NodeKey(ps)));
        assert node[..2 * n] == before[v := node[v]];
        if v == 1 {
          root := Some(RootOf(ps));
          break;
        }
        ps := Next(ps);
        v := Parent(v);
      }
    }

    method BlankLeaf(leaf: nat)
      requires Valid()
      modifies node
      ensures State() == BlankLeafView(old(State()), leaf)
      ensures !IsLeaf(n, leaf) ==> State() == old(State())
    {
      if leaf < n || leaf >= 2 * n {
        return;
      }
      node[leaf] := Node(None, None);
      ghost var t0 := old(State()).tree[leaf := Node(None, None)];
      assert node[..2 * n] == t0;
      BlankAbove(leaf);
    }

    method AddLeaf(leaf: nat, pub: Key) returns (rc: Rc)
      requires Valid()
      modifies node
      ensures (rc, State()) == AddLeafView(old(State()), leaf, pub)
      ensures if IsLeaf(n, leaf) then rc == Success else rc == InvalidInput && State() == old(State())
    {
      if leaf < n || leaf >= 2 * n {
        return InvalidInput;
      }
      node[leaf] := Node(Some(pub), None);
      ghost var t0 := old(State()).tree[leaf := Node(Some(pub), None)];
      assert node[..2 * n] == t0;
      BlankAbove(leaf);
      rc := Success;
    }

    /** The loop shared by removal and addition: zeroes every proper ancestor of a leaf. */
    method BlankAbove(leaf: nat)
      requires Valid() && IsLeaf(n, leaf)
      modifies node
      ensures node[..2 * n] == BlankPath(old(node[..2 * n]), leaf)
    {
      var v := Parent(leaf);
      ghost var t0 := node[..2 * n];
      ghost var below: nat := leaf;
      while v >= 1
        invariant v == Parent(below) && 1 <= below <= leaf && IsAncestor(below, leaf)
        invariant forall x :: 0 <= x < 2 * n ==>
                    node[x] == if below <= x < leaf && IsAncestor(x, leaf) then Node(None, None) else t0[x]
        decreases v
      {
        node[v] := Node(None, None);
        AboveStep(below, leaf);
        below := v;
        if v == 1 {
          break;
        }
        v := Parent(v);
      }
    }

    /** First blank leaf, or -1. */
    method FreeLeaf() returns (l: int)
      requires Valid()
      ensures l == -1 ==> forall x :: n <= x < 2 * n ==> State().tree[x].pub.Some?
      ensures l != -1 ==> n <= l < 2 * n && State().tree[l].pub.None? && forall x :: n <= x < l ==> State().tree[x].pub.Some?
    {
      l := n;
      while l < 2 * n
        invariant n <= l <= 2 * n
        invariant forall x :: n <= x < l ==> node[x].pub.Some?
      {
        if node[l].pub.None? {
          return;
        }
        l := l + 1;
      }
      l := -1;
    }

    method Export() returns (p: Pubs)
      requires Valid()
      ensures |p| == 2 * n && p[0] == None && forall v :: 1 <= v < 2 * n ==> p[v] == State().tree[v].pub
    {
      p := [None];
      for i := 1 to 2 * n
        invariant |p| == i && p[0] == None && forall v :: 1 <= v < i ==> p[v] == node[v].pub
      {
        p := p + [node[i].pub];
      }
    }

    static method Import(size: nat, p: Pubs, leaf: nat, priv: Key) returns (rc: Rc, t: Member?)
      requires |p| == 2 * size
      ensures rc == (if ValidSize(size) && IsLeaf(size, leaf) then Success else InvalidInput)
      ensures rc == Success ==> t != null && fresh(t) && fresh(t.node) && t.Valid() && t.State() == ImportView(p, size, leaf, priv)
    {
      ValidSizeTest(size);
      if size < 2 || size > MAX_LEAVES || !IsPow2(size) {
        return InvalidInput, null;
      }
      if leaf < size || leaf >= 2 * size {
        return InvalidInput, null;
      }
      t := new Member.Blank(size, leaf);
      for i := 1 to 2 * size
        invariant t.Valid() && t.n == size && t.me == leaf && t.root == None && fresh(t) && fresh(t.node)
        invariant forall v :: 0 <= v < 2 * size ==> t.node[v] == Node(if 1 <= v < i then p[v] else None, None)
      {
        if p[i].Some? {
          t.node[i] := Node(p[i], t.node[i].priv);
        }
      }
      t.node[leaf] := Node(t.node[leaf].pub, Some(priv));
      rc := Success;
      assert t.State().tree == ImportView(p, size, leaf, priv).tree;
    }
  }

  /** The tree while a commit climbs: nodes of the path from `child` down are re-keyed. */
  ghost function CommitTreeFrom(t: Tree, me: nat, ls: Secret, child: nat): (t': Tree)
    ensures |t'| == |t|
  {
    seq(|t|, v requires 0 <= v < |t| =>
      if v >= 1 && v >= child && IsAncestor(v, me) then
        var k := NodeKey(PathSecret(ls, me, v));
        Node(Some(k), Some(k))
      else t[v])
  }

  /** Writing the parent of `child` extends the re-keyed part by exactly that node. */
  lemma Rekeyed(t: Tree, me: nat, ls: Secret, child: nat)
    requires 2 <= child <= me < |t| && IsAncestor(child, me)
    ensures IsAncestor(Parent(child), me)
    ensures var k := NodeKey(Next(PathSecret(ls, me, child)));
            CommitTreeFrom(t, me, ls, Parent(child)) ==
            CommitTreeFrom(t, me, ls, child)[Parent(child) := Node(Some(k), Some(k))]
    ensures var k := NodeKey(ls);
            CommitTreeFrom(t, me, ls, me) == t[me := Node(Some(k), Some(k))]
  {
    PathSecretParent(ls, me, child);
    hide PathSecret;
    assert PathSecret(ls, me, me) == ls by {
      PathSecretSelf(me, ls);
    }
    forall v: nat | Parent(child) < v < child
      ensures !IsAncestor(v, me)
    {
      AboveStep(child, me);
    }
    forall v: nat | v > me
      ensures !IsAncestor(v, me)
    {
    }
  }

  lemma Whole(t: Tree, me: nat, ls: Secret)
    ensures CommitTreeFrom(t, me, ls, 1) == CommitTree(t, me, ls)
  {
    hide PathSecret;
  }

  lemma PathSecretSelf(me: nat, ls: Secret)
    ensures IsAncestor(me, me) && PathSecret(ls, me, me) == ls
  {
  }

  /** No ancestor lies strictly between a path node and its parent. */
  lemma AboveStep(child: nat, x: nat)
    requires child >= 1 && IsAncestor(child, x)
    ensures forall v: nat :: Parent(child) < v < child ==> !IsAncestor(v, x)
    ensures child >= 2 ==> IsAncestor(Parent(child), x)
  {
    forall v: nat | Parent(child) < v < child && IsAncestor(v, x)
      ensures false
    {
      AncestorChain(v, child, x);
    }
    if child >= 2 {
      SiblingDisjoint(child, child);
      AncestorTrans(Parent(child), child, x);
    }
  }

  /** The copath of a path is never touched by re-keying it. */
  lemma CopathUnchanged(t: Tree, me: nat, ls: Secret, v: nat, n: nat, child: nat)
    requires |t| == 2 * n && child >= 2 && IsAncestor(child, me) && me < 2 * n
    ensures var (p', p) := (PubsOf(CommitTreeFrom(t, me, ls, v)), PubsOf(t));
            var cop := Sibling(child);
            && Resolution(p', n, cop) == Resolution(p, n, cop)
            && forall ps :: SealTo(p', Resolution(p', n, cop), ps) == SealTo(p, Resolution(p, n, cop), ps)
  {
    hide Resolution, PathSecret;
    var t' := CommitTreeFrom(t, me, ls, v);
    var cop := Sibling(child);
    forall x: nat | 1 <= x < 2 * n && IsAncestor(cop, x)
      ensures t'[x] == t[x]
    {
      if IsAncestor(x, me) {
        AncestorTrans(cop, x, me);
        SiblingDisjoint(child, me);
      }
    }
    var (p', p) := (PubsOf(t'), PubsOf(t));
    ResolutionFrame(p', p, n, cop);
    var res := Resolution(p, n, cop);
    forall ps
      ensures SealTo(p', res, ps) == SealTo(p, res, ps)
    {
      assert forall i :: 0 <= i < |res| ==> IsAncestor(cop, res[i]) && t'[res[i]] == t[res[i]];
    }
  }

  lemma StepsUnfold(p: Pubs, n: nat, child: nat, ps: Secret)
    requires |p| == 2 * n && child >= 2
    ensures Steps(p, n, child, ps) ==
            [Step(Parent(child), NodeKey(ps), SealTo(p, Resolution(p, n, Sibling(child)), ps))] +
            Steps(p, n, Parent(child), Next(ps))
  {
    hide Resolution;
  }

  lemma StepsAtRoot(p: Pubs, n: nat, ps: Secret)
    requires |p| == 2 * n
    ensures Steps(p, n, 1, ps) == []
  {
  }

  lemma InstallUnfold(t: Tree, n: nat, steps: seq<Step>)
    requires |t| == 2 * n
    ensures Install(t, n, steps) ==
            if steps == [] then (true, t)
            else if steps[0].node < 1 || steps[0].node > 2 * n - 1 then (false, t)
            else Install(t[steps[0].node := Node(Some(steps[0].pub), None)], n, steps[1..])
  {
  }

  lemma FindSecretUnfold(t: Tree, n: nat, me: nat, steps: seq<Step>, child: nat)
    requires me < |t|
    ensures FindSecret(t, n, me, steps, child) ==
            if steps == [] then None
            else if IsAncestor(Sibling(child), me) && OpenFirst(t, me, steps[0].encs).Some?
            then Some((steps[0].node, OpenFirst(t, me, steps[0].encs).value))
            else FindSecret(t, n, me, steps[1..], steps[0].node)
  {
    hide OpenFirst;
  }
}
