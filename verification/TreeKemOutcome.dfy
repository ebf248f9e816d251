/** What processing a commit answers (src/treekem.c), for every commit and every member: when it succeeds and
    with which root secret, when it is refused, and that a member that was removed is refused for good. */
module TreeKemOutcome {
  import opened Common
  import opened TreeMath
  import opened TreeKem
  import opened TreeKemGroup
  import opened TreeKemSecrecy

  // ---------------------------------------------------------------------------
  // One commit
  // ---------------------------------------------------------------------------

  /** The path node below step i. */
  function ChildOf(steps: seq<Step>, sender: nat, i: nat): nat
    requires i < |steps|
  {
    if i == 0 then sender else steps[i - 1].node
  }

  /** The commit gives node v a new public key, so older private halves of it are stale. */
  ghost predicate Rekeys(c: Commit, v: nat)
  {
    v == c.sender || exists i :: 0 <= i < |c.steps| && c.steps[i].node == v
  }

  /** Copy j of step i is for the member: the step's copath covers its leaf, the recipient is on its path,
      and it holds the private key the copy was sealed to, on that node, which the commit does not re-key. */
  ghost predicate Readable(w: View, c: Commit, i: nat, j: nat)
    requires WellFormed(w)
  {
    && i < |c.steps| && j < |c.steps[i].encs|
    && IsAncestor(Sibling(ChildOf(c.steps, c.sender, i)), w.me)
    && var e := c.steps[i].encs[j];
    && e.recipient < 2 * w.n && IsAncestor(e.recipient, w.me)
    && w.tree[e.recipient].priv == Some(e.box.to) && !Rekeys(c, e.recipient)
  }

  /** It is the first such copy, step by step. */
  ghost predicate FirstReadable(w: View, c: Commit, i: nat, j: nat)
    requires WellFormed(w)
  {
    Readable(w, c, i, j) && forall k: nat, l: nat :: Readable(w, c, k, l) ==> i < k || (i == k && j <= l)
  }

  /** A commit of another member of the tree, with nodes of the tree. */
  predicate Proper(w: View, c: Commit)
  {
    1 <= |c.steps| <= 5 && IsLeaf(w.n, c.sender) && c.sender != w.me && NodesInRange(w.n, c.steps)
  }

  lemma {:induction false} InstallPrivs(t: Tree, n: nat, steps: seq<Step>, v: nat)
    requires |t| == 2 * n && v < 2 * n && NodesInRange(n, steps)
    ensures Install(t, n, steps).1[v].priv == if exists i :: 0 <= i < |steps| && steps[i].node == v then None else t[v].priv
    decreases |steps|
  {
    if steps != [] {
      var t1 := t[steps[0].node := Node(Some(steps[0].pub), None)];
      assert steps == [steps[0]] + steps[1..];
      InstallPrivs(t1, n, steps[1..], v);
      if i :| 0 <= i < |steps[1..]| && steps[1..][i].node == v {
        assert steps[i + 1].node == v;
      }
      if i :| 0 <= i < |steps| && steps[i].node == v {
        assert i == 0 || steps[1..][i - 1].node == v;
      }
    }
  }

  predicate CanOpen(t: Tree, me: nat, e: Enc)
  {
    IsAncestor(e.recipient, me) && e.recipient < |t| && t[e.recipient].priv == Some(e.box.to)
  }

  lemma {:induction false} OpenFirstIs(t: Tree, me: nat, encs: seq<Enc>) returns (j: nat)
    requires me < |t|
    ensures OpenFirst(t, me, encs).None? ==> forall k :: 0 <= k < |encs| ==> !CanOpen(t, me, encs[k])
    ensures OpenFirst(t, me, encs).Some? ==>
      && j < |encs| && CanOpen(t, me, encs[j]) && OpenFirst(t, me, encs).value == encs[j].box.ps
      && forall k :: 0 <= k < j ==> !CanOpen(t, me, encs[k])
    decreases |encs|
  {
    hide IsAncestor;
    j := 0;
    if encs != [] {
      AncestorLe(encs[0].recipient, me);
      if !CanOpen(t, me, encs[0]) {
        var i := OpenFirstIs(t, me, encs[1..]);
        j := i + 1;
        assert forall k :: 0 < k < |encs| ==> encs[k] == encs[1..][k - 1];
      }
    }
  }

  ghost predicate Hits(t: Tree, me: nat, steps: seq<Step>, sender: nat, i: nat, j: nat)
  {
    && i < |steps| && j < |steps[i].encs|
    && IsAncestor(Sibling(ChildOf(steps, sender, i)), me) && CanOpen(t, me, steps[i].encs[j])
  }

  ghost predicate FirstHit(t: Tree, me: nat, steps: seq<Step>, sender: nat, i: nat, j: nat)
  {
    Hits(t, me, steps, sender, i, j) && forall k: nat, l: nat :: Hits(t, me, steps, sender, k, l) ==> i < k || (i == k && j <= l)
  }

  /** Hits of the later steps. */
  lemma HitsShift(t: Tree, me: nat, steps: seq<Step>, sender: nat, i: nat, j: nat)
    requires i > 0 && steps != []
    ensures Hits(t, me, steps, sender, i, j) <==> Hits(t, me, steps[1..], steps[0].node, i - 1, j)
  {
    hide IsAncestor, CanOpen;
  }

  lemma {:induction false} FindSecretIs(t: Tree, n: nat, me: nat, steps: seq<Step>, sender: nat) returns (i: nat, j: nat)
    requires me < |t|
    ensures FindSecret(t, n, me, steps, sender).None? ==> forall k: nat, l: nat :: !Hits(t, me, steps, sender, k, l)
    ensures FindSecret(t, n, me, steps, sender).Some? ==>
      && FirstHit(t, me, steps, sender, i, j)
      && FindSecret(t, n, me, steps, sender).value == (steps[i].node, steps[i].encs[j].box.ps)
    decreases |steps|
  {
    hide IsAncestor, CanOpen, OpenFirst, Hits;
    i, j := 0, 0;
    if steps == [] {
      NoHits(t, me, steps, sender);
    } else {
      var here := OpenFirstIs(t, me, steps[0].encs);
      FirstStepHits(t, me, steps, sender);
      forall k: nat, l: nat | k > 0
        ensures Hits(t, me, steps, sender, k, l) <==> Hits(t, me, steps[1..], steps[0].node, k - 1, l)
      {
        HitsShift(t, me, steps, sender, k, l);
      }
      if IsAncestor(Sibling(sender), me) && OpenFirst(t, me, steps[0].encs).Some? {
        j := here;
      } else {
        var k, l := FindSecretIs(t, n, me, steps[1..], steps[0].node);
        i, j := k + 1, l;
        if FindSecret(t, n, me, steps[1..], steps[0].node).Some? {
          HitRange(t, me, steps[1..], steps[0].node, k, l);
        }
      }
    }
  }

  lemma HitRange(t: Tree, me: nat, steps: seq<Step>, sender: nat, i: nat, j: nat)
    requires Hits(t, me, steps, sender, i, j)
    ensures i < |steps| && j < |steps[i].encs|
  {
  }

  lemma NoHits(t: Tree, me: nat, steps: seq<Step>, sender: nat)
    requires steps == []
    ensures forall k: nat, l: nat :: !Hits(t, me, steps, sender, k, l)
  {
  }

  lemma FirstStepHits(t: Tree, me: nat, steps: seq<Step>, sender: nat)
    requires steps != []
    ensures forall l: nat :: Hits(t, me, steps, sender, 0, l) <==>
      IsAncestor(Sibling(sender), me) && l < |steps[0].encs| && CanOpen(t, me, steps[0].encs[l])
  {
    hide IsAncestor, CanOpen;
  }

  /** The tree after the new public keys are in. */
  function Installed(w: View, c: Commit): (t: Tree)
    requires WellFormed(w) && IsLeaf(w.n, c.sender)
  {
    Install(w.tree[c.sender := Node(Some(c.leafPub), None)], w.n, c.steps).1
  }

  lemma HitsAreReadable(w: View, c: Commit, i: nat, j: nat)
    requires WellFormed(w) && Proper(w, c)
    ensures |Installed(w, c)| == 2 * w.n
    ensures Hits(Installed(w, c), w.me, c.steps, c.sender, i, j) <==> Readable(w, c, i, j)
  {
    hide IsAncestor, Install, NodesInRange;
    if i < |c.steps| && j < |c.steps[i].encs| {
      var v := c.steps[i].encs[j].recipient;
      if v < 2 * w.n {
        InstallPrivs(w.tree[c.sender := Node(Some(c.leafPub), None)], w.n, c.steps, v);
      }
    }
  }

  /** Hashing up to the root from node v. */
  lemma {:induction false} RederivedRoot(t: Tree, v: nat, ps: Secret)
    requires 1 <= v < |t|
    ensures IsAncestor(1, v) && Rederive(t, v, ps).1 == RootOf(PathSecret(ps, v, 1))
    decreases v
  {
    RootIsAncestor(v);
    if v > 1 {
      RederivedRoot(t[v := Node(Some(NodeKey(ps)), Some(NodeKey(ps)))], Parent(v), Next(ps));
    }
  }

  /** The answer to every commit, honest or not. A commit that is none of another member with nodes of this
      tree is refused as invalid. Any other succeeds exactly if the member can read a copy, and then the root
      secret is the one hashed up from the secret in the first copy it can read; if it can read none the
      commit fails its integrity check. Only success changes the stored root secret. */
  lemma ProcessOutcome(w: View, c: Commit)
    requires WellFormed(w)
    ensures var (rc, w') := ProcessView(w, c);
      && rc == (if !Proper(w, c) then InvalidInput
                else if exists i: nat, j: nat :: Readable(w, c, i, j) then Success else Integrity)
      && (rc != Success ==> w'.root == w.root)
      && w'.n == w.n && w'.me == w.me && |w'.tree| == 2 * w.n
    ensures forall i: nat, j: nat :: Proper(w, c) && FirstReadable(w, c, i, j) ==>
      && IsAncestor(1, c.steps[i].node)
      && ProcessView(w, c).1.root == Some(RootOf(PathSecret(c.steps[i].encs[j].box.ps, c.steps[i].node, 1)))
  {
    hide IsAncestor, Install, NodesInRange, FindSecret, Rederive, Hits, Readable, PathSecret;
    if Proper(w, c) {
      var t := Installed(w, c);
      forall k: nat, l: nat
        ensures Hits(t, w.me, c.steps, c.sender, k, l) <==> Readable(w, c, k, l)
      {
        HitsAreReadable(w, c, k, l);
      }
      HitsAreReadable(w, c, 0, 0);
      var i, j := FindSecretIs(t, w.n, w.me, c.steps, c.sender);
      if FindSecret(t, w.n, w.me, c.steps, c.sender).Some? {
        assert FirstReadable(w, c, i, j);
        HitRange(t, w.me, c.steps, c.sender, i, j);
        StepInRange(w, c, i);
        RederivedRoot(t, c.steps[i].node, c.steps[i].encs[j].box.ps);
        forall k: nat, l: nat | FirstReadable(w, c, k, l)
          ensures (k, l) == (i, j)
        {
        }
      }
    }
  }

  /** The first k steps are of nodes of the tree, and no more are. */
  predicate Leading(n: nat, steps: seq<Step>, k: nat)
  {
    && k <= |steps| && (forall i: nat :: i < k ==> 1 <= steps[i].node < 2 * n)
    && (k < |steps| ==> !(1 <= steps[k].node < 2 * n))
  }

  /** Step i is the last of the first k that re-keys node v. */
  predicate LastRekey(steps: seq<Step>, k: nat, v: nat, i: nat)
  {
    i < k <= |steps| && steps[i].node == v && forall j: nat :: i < j < k ==> steps[j].node != v
  }

  lemma {:induction false} InstallIs(t: Tree, n: nat, steps: seq<Step>, k: nat, v: nat)
    requires |t| == 2 * n && v < 2 * n && Leading(n, steps, k)
    ensures forall i: nat :: LastRekey(steps, k, v, i) ==> Install(t, n, steps).1[v] == Node(Some(steps[i].pub), None)
    ensures (forall i: nat :: i < k ==> steps[i].node != v) ==> Install(t, n, steps).1[v] == t[v]
    decreases |steps|
  {
    if k > 0 {
      var t1 := t[steps[0].node := Node(Some(steps[0].pub), None)];
      var rest := steps[1..];
      assert forall i: nat :: i < |rest| ==> rest[i] == steps[i + 1];
      assert Leading(n, rest, k - 1);
      InstallIs(t1, n, rest, k - 1, v);
      forall i: nat | LastRekey(steps, k, v, i)
        ensures Install(t, n, steps).1[v] == Node(Some(steps[i].pub), None)
      {
        if i > 0 {
          assert LastRekey(rest, k - 1, v, i - 1);
        } else {
          assert forall j: nat :: j < k - 1 ==> rest[j].node != v;
        }
      }
      if forall i: nat :: i < k ==> steps[i].node != v {
        assert steps[0].node != v;
        assert forall j: nat :: j < k - 1 ==> rest[j].node != v;
      }
    }
  }

  /** What a refused commit leaves: nothing if its sender or length is at fault; otherwise its public keys are
      in, up to the first node that is none of the tree, and the private halves they replace are gone. */
  lemma RefusedTree(w: View, c: Commit, k: nat, v: nat)
    requires WellFormed(w) && v < 2 * w.n && ProcessView(w, c).0 != Success && Leading(w.n, c.steps, k)
    ensures !(1 <= |c.steps| <= 5 && IsLeaf(w.n, c.sender) && c.sender != w.me) ==> ProcessView(w, c).1 == w
    ensures 1 <= |c.steps| <= 5 && IsLeaf(w.n, c.sender) && c.sender != w.me ==>
      var t := ProcessView(w, c).1.tree;
      && |t| == 2 * w.n
      && (forall i: nat :: LastRekey(c.steps, k, v, i) ==> t[v] == Node(Some(c.steps[i].pub), None))
      && ((forall i: nat :: i < k ==> c.steps[i].node != v) ==>
            t[v] == if v == c.sender then Node(Some(c.leafPub), None) else w.tree[v])
  {
    hide IsAncestor, FindSecret, Rederive, Install, LastRekey, Leading;
    if IsLeaf(w.n, c.sender) {
      InstallIs(w.tree[c.sender := Node(Some(c.leafPub), None)], w.n, c.steps, k, v);
    }
  }

  /** What a commit that is read leaves: on the path from the first copy's node to the root both halves of the
      keys hashed up from its secret, elsewhere the commit's public keys or what was there. */
  lemma ReadTree(w: View, c: Commit, i: nat, j: nat, v: nat)
    requires WellFormed(w) && v < 2 * w.n && Proper(w, c) && FirstReadable(w, c, i, j)
    ensures |ProcessView(w, c).1.tree| == 2 * w.n
    ensures var (x, ps) := (c.steps[i].node, c.steps[i].encs[j].box.ps);
      var node := ProcessView(w, c).1.tree[v];
      if v >= 1 && IsAncestor(v, x) then node == Node(Some(NodeKey(PathSecret(ps, x, v))), Some(NodeKey(PathSecret(ps, x, v))))
      else
        && (forall l: nat :: LastRekey(c.steps, |c.steps|, v, l) ==> node == Node(Some(c.steps[l].pub), None))
        && ((forall l: nat :: l < |c.steps| ==> c.steps[l].node != v) ==>
              node == if v == c.sender then Node(Some(c.leafPub), None) else w.tree[v])
  {
    hide IsAncestor, Install, NodesInRange, FindSecret, Rederive, Hits, Readable, PathSecret, LastRekey;
    var t := Installed(w, c);
    forall k: nat, l: nat
      ensures Hits(t, w.me, c.steps, c.sender, k, l) <==> Readable(w, c, k, l)
    {
      HitsAreReadable(w, c, k, l);
    }
    HitsAreReadable(w, c, i, j);
    var a, b := FindSecretIs(t, w.n, w.me, c.steps, c.sender);
    assert a == i && b == j;
    HitRange(t, w.me, c.steps, c.sender, i, j);
    StepInRange(w, c, i);
    RederivedTree(t, c.steps[i].node, c.steps[i].encs[j].box.ps, v);
    InstallLeading(w, c, v);
  }

  lemma InstallLeading(w: View, c: Commit, v: nat)
    requires WellFormed(w) && v < 2 * w.n && Proper(w, c)
    ensures Leading(w.n, c.steps, |c.steps|) && |Installed(w, c)| == 2 * w.n
    ensures forall l: nat :: LastRekey(c.steps, |c.steps|, v, l) ==> Installed(w, c)[v] == Node(Some(c.steps[l].pub), None)
    ensures (forall l: nat :: l < |c.steps| ==> c.steps[l].node != v) ==>
      Installed(w, c)[v] == if v == c.sender then Node(Some(c.leafPub), None) else w.tree[v]
  {
    hide Install, LastRekey;
    InstallIs(w.tree[c.sender := Node(Some(c.leafPub), None)], w.n, c.steps, |c.steps|, v);
  }

  lemma RederivedTree(t: Tree, x: nat, ps: Secret, v: nat)
    requires 1 <= x < |t| && v < |t|
    ensures v >= 1 && IsAncestor(v, x) ==>
      Rederive(t, x, ps).0[v] == Node(Some(NodeKey(PathSecret(ps, x, v))), Some(NodeKey(PathSecret(ps, x, v))))
    ensures !(v >= 1 && IsAncestor(v, x)) ==> Rederive(t, x, ps).0[v] == t[v]
  {
    hide Rederive;
    RootIsAncestor(x);
    assert IsAncestor(x, x) && PathSecret(ps, x, x) == ps;
    RederiveAll(t, x, x, ps);
    if IsAncestor(v, x) {
      AncestorLe(v, x);
    }
  }

  lemma StepInRange(w: View, c: Commit, i: nat)
    requires Proper(w, c) && i < |c.steps|
    ensures 1 <= c.steps[i].node < 2 * w.n
  {
  }

  /** A refused member keeps no private key it did not have. */
  lemma RefusedPrivs(w: View, c: Commit, v: nat)
    requires WellFormed(w) && v < 2 * w.n && ProcessView(w, c).0 != Success
    ensures |ProcessView(w, c).1.tree| == 2 * w.n
    ensures ProcessView(w, c).1.tree[v].priv in {None, w.tree[v].priv}
  {
    hide IsAncestor, FindSecret, Rederive, Install;
    if IsLeaf(w.n, c.sender) {
      InstallDropsPrivs(w.tree[c.sender := Node(Some(c.leafPub), None)], w.n, c.steps, v);
    }
  }

  lemma {:induction false} InstallDropsPrivs(t: Tree, n: nat, steps: seq<Step>, v: nat)
    requires |t| == 2 * n && v < 2 * n
    ensures Install(t, n, steps).1[v].priv in {None, t[v].priv}
    decreases |steps|
  {
    if steps != [] && 1 <= steps[0].node <= 2 * n - 1 {
      InstallDropsPrivs(t[steps[0].node := Node(Some(steps[0].pub), None)], n, steps[1..], v);
    }
  }

  // ---------------------------------------------------------------------------
  // A member that was removed
  // ---------------------------------------------------------------------------

  /** All keys the group has on the path of m are from `bound` on. */
  ghost predicate PathNew(p: Pubs, m: nat, bound: nat)
  {
    forall v: nat :: 1 <= v < |p| && IsAncestor(v, m) && p[v].Some? ==> KeyId(p[v].value) >= bound
  }

  /** All private keys the view holds are from before. */
  ghost predicate PrivsOld(w: View, bound: nat)
  {
    forall v: nat :: 1 <= v < |w.tree| && w.tree[v].priv.Some? ==> KeyId(w.tree[v].priv.value) < bound
  }

  /** The boxes of a commit are sealed to keys of the tree it was made in. */
  lemma {:induction false} BoxesToTree(p: Pubs, n: nat, child: nat, ps: Secret, i: nat, j: nat)
    requires |p| == 2 * n && child >= 1
    requires i < |Steps(p, n, child, ps)| && j < |Steps(p, n, child, ps)[i].encs|
    ensures var e := Steps(p, n, child, ps)[i].encs[j]; 1 <= e.recipient < 2 * n && p[e.recipient] == Some(e.box.to)
    decreases child
  {
    hide Resolution;
    var steps := Steps(p, n, child, ps);
    if i > 0 {
      assert steps[1..] == Steps(p, n, Parent(child), Next(ps));
      BoxesToTree(p, n, Parent(child), Next(ps), i - 1, j);
    }
  }

  /** A member all of whose private keys are older than the group's keys on its path can read no copy. */
  lemma StaleRefused(w: View, p: Pubs, s: nat, ls: Secret, bound: nat)
    requires WellFormed(w) && |p| == 2 * w.n && IsLeaf(w.n, s)
    requires PathNew(p, w.me, bound) && PrivsOld(w, bound)
    ensures ProcessView(w, CommitOf(p, w.n, s, ls)).0 == if s == w.me then InvalidInput else Integrity
    ensures ProcessView(w, CommitOf(p, w.n, s, ls)).1.root == w.root
    ensures WellFormed(ProcessView(w, CommitOf(p, w.n, s, ls)).1)
    ensures ProcessView(w, CommitOf(p, w.n, s, ls)).1.me == w.me && ProcessView(w, CommitOf(p, w.n, s, ls)).1.n == w.n
    ensures PrivsOld(ProcessView(w, CommitOf(p, w.n, s, ls)).1, bound)
  {
    hide IsAncestor, ProcessView, Steps;
    var c := CommitOf(p, w.n, s, ls);
    ProcessOutcome(w, c);
    HonestNodes(p, w.n, s, s, Next(ls));
    DepthBound(s);
    forall i: nat, j: nat
      ensures !Readable(w, c, i, j)
    {
      if Readable(w, c, i, j) {
        BoxesToTree(p, w.n, s, Next(ls), i, j);
      }
    }
    forall v: nat | v < 2 * w.n
      ensures ProcessView(w, c).1.tree[v].priv in {None, w.tree[v].priv}
    {
      RefusedPrivs(w, c, v);
    }
  }

  lemma {:induction false} HonestNodes(p: Pubs, n: nat, s: nat, child: nat, ps: Secret)
    requires |p| == 2 * n && 1 <= child < 2 * n
    ensures NodesInRange(n, Steps(p, n, child, ps)) && |Steps(p, n, child, ps)| == Depth(child)
    decreases child
  {
    hide Resolution;
    if child > 1 {
      HonestNodes(p, n, s, Parent(child), Next(ps));
      var steps := Steps(p, n, child, ps);
      assert steps[1..] == Steps(p, n, Parent(child), Next(ps));
      assert forall i :: 0 < i < |steps| ==> steps[i] == steps[1..][i - 1];
    }
  }

  lemma HappensPathNew(w: World, e: Event, m: nat, bound: nat)
    requires Guarded(w) && Enabled(w, e) && PathNew(w.g.pubs, m, bound) && bound <= w.next
    ensures PathNew(Happens(w, e).g.pubs, m, bound) && bound <= Happens(w, e).next
    ensures Happens(w, e).g.n == w.g.n
  {
    hide Guarded, Sync, InStep, IsAncestor, CommitPubs, BlankPubs, PathSecret, CommitOf, Boxes;
    GuardedFacts(w);
    var w' := Happens(w, e);
    forall v: nat | 1 <= v < |w.g.pubs| && IsAncestor(v, m) && w'.g.pubs[v].Some?
      ensures KeyId(w'.g.pubs[v].value) >= bound
    {
      if e.HonestCommit? || e.LeakyCommit? {
        CommitPubsAt(w.g.pubs, e.leaf, Fresh(w.next), v);
        if IsAncestor(v, e.leaf) {
          PathSecretShape(Fresh(w.next), e.leaf, v);
        }
      } else if !e.Compromise? {
        BlankPubsAt(w.g.pubs, w.g.n, e.leaf, if e.Join? then Some(LeafKey(w.next)) else None, v);
      }
    }
  }

  /** The answers a member that only listens gives to the commits of a run, and its state afterwards. */
  function Listens(view: View, w: World, events: seq<Event>): (r: (seq<Rc>, View))
    requires WellFormed(view) && Guarded(w) && Runs(w, events).Some?
    decreases |events|
  {
    if events == [] then ([], view)
    else
      var e := events[0];
      HappensGuarded(w, e);
      if e.HonestCommit? || e.LeakyCommit? then
        GuardedFacts(w);
        var (rc, view') := ProcessView(view, CommitOf(w.g.pubs, w.g.n, e.leaf, Fresh(w.next)));
        ProcessOutcome(view, CommitOf(w.g.pubs, w.g.n, e.leaf, Fresh(w.next)));
        var (rest, end) := Listens(view', Happens(w, e), events[1..]);
        ([rc] + rest, end)
      else Listens(view, Happens(w, e), events[1..])
  }

  /** Every later commit refuses it, whatever else happens, and it keeps the root secret it had. */
  lemma {:induction false} StaleStaysOut(view: View, w: World, events: seq<Event>, bound: nat)
    requires WellFormed(view) && Guarded(w) && Runs(w, events).Some? && view.n == w.g.n
    requires PathNew(w.g.pubs, view.me, bound) && PrivsOld(view, bound) && bound <= w.next
    ensures Listens(view, w, events).1.root == view.root
    ensures forall i :: 0 <= i < |Listens(view, w, events).0| ==> Listens(view, w, events).0[i] in {InvalidInput, Integrity}
    decreases |events|
  {
    hide Guarded, Sync, Happens, ProcessView, CommitOf, PathNew, PrivsOld, WellFormed;
    if events != [] {
      var e := events[0];
      GuardedFacts(w);
      HappensGuarded(w, e);
      GuardedFacts(Happens(w, e));
      HappensPathNew(w, e, view.me, bound);
      if e.HonestCommit? || e.LeakyCommit? {
        EnabledLeaf(w, e);
        StaleRefused(view, w.g.pubs, e.leaf, Fresh(w.next), bound);
        StaleStaysOut(ProcessView(view, CommitOf(w.g.pubs, w.g.n, e.leaf, Fresh(w.next))).1, Happens(w, e), events[1..], bound);
      } else {
        StaleStaysOut(view, Happens(w, e), events[1..], bound);
      }
    }
  }

  lemma EnabledLeaf(w: World, e: Event)
    requires Guarded(w) && Enabled(w, e) && (e.HonestCommit? || e.LeakyCommit?)
    ensures IsLeaf(w.g.n, e.leaf)
  {
    hide Guarded, Sync;
    GuardedFacts(w);
  }

  /** After its removal a member reads no commit any more, over every later run, whether the others commit,
      leave or join, even into its old place: every answer is a refusal, and the root secret it keeps is the
      one from before. */
  lemma RemovedStaysOut(w: World, m: nat, events: seq<Event>)
    requires Guarded(w) && m in w.g.members
    requires Enabled(w, Remove(m)) && Guarded(Happens(w, Remove(m))) && Runs(Happens(w, Remove(m)), events).Some?
    ensures WellFormed(w.g.members[m])
    ensures var (answers, end) := Listens(w.g.members[m], Happens(w, Remove(m)), events);
      && end.root == w.g.members[m].root
      && forall i :: 0 <= i < |answers| ==> answers[i] in {InvalidInput, Integrity}
  {
    hide Guarded, Sync, IsAncestor, BlankPubs, Listens, Runs, Apply;
    GuardedFacts(w);
    GuardedIds(w);
    var view := w.g.members[m];
    InStepFacts(view, w.g.n, w.g.pubs, m);
    var w1 := Happens(w, Remove(m));
    RemovalParts(w, m);
    forall v: nat | 1 <= v < |w1.g.pubs| && IsAncestor(v, m)
      ensures w1.g.pubs[v].None?
    {
      BlankPubsAt(w.g.pubs, w.g.n, m, None, v);
    }
    forall v: nat | 1 <= v < |view.tree| && view.tree[v].priv.Some?
      ensures KeyId(view.tree[v].priv.value) < w.next
    {
    }
    StaleStaysOut(view, w1, events, w.next);
  }

  lemma RemovalParts(w: World, m: nat)
    requires Guarded(w) && Enabled(w, Remove(m))
    ensures var w1 := Happens(w, Remove(m));
      w1.g.n == w.g.n && |w.g.pubs| == 2 * w.g.n && IsLeaf(w.g.n, m) && w1.g.pubs == BlankPubs(w.g.pubs, m, None) && w1.next == w.next
  {
    hide Guarded, Sync, BlankPubs;
    GuardedFacts(w);
  }
}
