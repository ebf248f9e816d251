/** Convergence of the ratchet tree: all members that apply one sequence of commits, adds and
    removes keep one public tree and one root secret, and hold exactly the private keys of their
    own path. */
module TreeKemGroup {
  import opened Common
  import opened TreeMath
  import opened TreeKem

  /** A member's view agrees with the public tree p: its public half is p, and it holds the private
      key of v if and only if v is populated and on its own direct path. */
  ghost predicate InStep(w: View, n: nat, p: Pubs, m: nat)
  {
    && WellFormed(w) && w.n == n && w.me == m && |p| == 2 * n
    && p[m].Some?
    && forall v :: 1 <= v < 2 * n ==>
         w.tree[v] == Node(p[v], if IsAncestor(v, m) then p[v] else None)
  }

  /** The public tree after a commit of s from leaf secret ls. */
  function CommitPubs(p: Pubs, s: nat, ls: Secret): (q: Pubs)
    ensures |q| == |p|
  {
    seq(|p|, v requires 0 <= v < |p| =>
      if v >= 1 && IsAncestor(v, s) then Some(NodeKey(PathSecret(ls, s, v))) else p[v])
  }

  function BlankPubs(p: Pubs, leaf: nat, pub: Option<Key>): (q: Pubs)
    requires leaf < |p|
    ensures |q| == |p|
  {
    seq(|p|, v requires 0 <= v < |p| =>
      if v == leaf then pub else if 1 <= v < leaf && IsAncestor(v, leaf) then None else p[v])
  }

  // ---------------------------------------------------------------------------
  // One honest commit, seen by another member
  // ---------------------------------------------------------------------------

  /** Nodes of the path of s strictly above `child`. */
  predicate OnPathAbove(v: nat, child: nat, s: nat)
  {
    1 <= v < child && IsAncestor(v, s)
  }

  lemma {:induction false} InstallHonest(t: Tree, p: Pubs, n: nat, s: nat, child: nat, ls: Secret)
    requires |t| == |p| == 2 * n && 1 <= child < 2 * n && IsAncestor(child, s)
    ensures var (ok, t') := Install(t, n, Steps(p, n, child, Next(PathSecret(ls, s, child))));
            && ok
            && forall v :: 0 <= v < 2 * n ==>
                 t'[v] == if OnPathAbove(v, child, s) then Node(Some(NodeKey(PathSecret(ls, s, v))), None) else t[v]
    decreases child
  {
    hide Resolution, PathSecret, SealTo;
    if child > 1 {
      var up := Parent(child);
      PathSecretParent(ls, s, child);
      var ps := PathSecret(ls, s, up);
      var t1 := t[up := Node(Some(NodeKey(ps)), None)];
      InstallHonest(t1, p, n, s, up, ls);
      var steps := Steps(p, n, child, ps);
      assert steps[1..] == Steps(p, n, up, Next(ps));
      forall v | OnPathAbove(v, child, s)
        ensures v == up || OnPathAbove(v, up, s)
      {
        AncestorChain(v, child, s);
        AncestorLe(v, child / 2);
      }
    }
  }

  /** Among secrets sealed to a resolution, a member below one of its nodes opens its copy. */
  lemma {:induction false} OpenFirstHonest(t: Tree, p: Pubs, m: nat, res: seq<nat>, ps: Secret, i: nat)
    requires m < |t| == |p| && i < |res|
    requires forall j :: 0 <= j < |res| ==> res[j] < |p| && p[res[j]].Some?
    requires forall j :: 0 <= j < |res| && IsAncestor(res[j], m) ==> t[res[j]].priv == p[res[j]]
    requires IsAncestor(res[i], m)
    ensures OpenFirst(t, m, SealTo(p, res, ps)) == Some(ps)
    decreases |res|
  {
    var encs := SealTo(p, res, ps);
    if !IsAncestor(res[0], m) {
      assert encs[1..] == SealTo(p, res[1..], ps);
      OpenFirstHonest(t, p, m, res[1..], ps, i - 1);
    }
  }

  /** v is the lowest common ancestor of s and m. */
  ghost predicate IsMeet(v: nat, s: nat, m: nat)
  {
    v >= 1 && IsAncestor(v, s) && IsAncestor(v, m) &&
    forall x: nat :: IsAncestor(x, s) && IsAncestor(x, m) ==> x <= v
  }

  /** The node keys m holds before a commit of s that the commit does not replace. */
  ghost predicate HoldsOffPath(t: Tree, p: Pubs, n: nat, s: nat, m: nat)
    requires |t| == |p| == 2 * n
  {
    forall v :: 1 <= v < 2 * n && IsAncestor(v, m) && !IsAncestor(v, s) ==> t[v].priv == p[v]
  }

  /** A member finds the step at its lowest common ancestor with the committer, and its secret. */
  lemma {:induction false} FindSecretHonest(t: Tree, p: Pubs, n: nat, s: nat, m: nat, child: nat, ls: Secret)
    returns (meet: nat)
    requires |t| == |p| == 2 * n && IsLeaf(n, m) && p[m].Some?
    requires 1 <= child < 2 * n && IsAncestor(child, s) && !IsAncestor(child, m)
    requires HoldsOffPath(t, p, n, s, m)
    ensures 1 <= meet < child && IsMeet(meet, s, m)
    ensures FindSecret(t, n, m, Steps(p, n, child, Next(PathSecret(ls, s, child))), child)
            == Some((meet, PathSecret(ls, s, meet)))
    decreases child
  {
    hide Resolution, SealTo, OpenFirst;
    RootIsAncestor(m);
    var up := Parent(child);
    PathSecretParent(ls, s, child);
    var ps := PathSecret(ls, s, up);
    hide PathSecret;
    SiblingDisjoint(child, m);
    AncestorLe(up, m);
    var cop := Sibling(child);
    var steps := Steps(p, n, child, ps);
    assert steps[0] == Step(up, NodeKey(ps), SealTo(p, Resolution(p, n, cop), ps));
    assert steps[1..] == Steps(p, n, up, Next(ps));
    if IsAncestor(cop, m) {
      meet := up;
      var i := ResolutionCovers(p, n, cop, m);
      CopathHeld(t, p, n, s, m, child);
      OpenFirstHonest(t, p, m, Resolution(p, n, cop), ps, i);
      MeetAbove(s, m, child);
    } else {
      meet := FindSecretHonest(t, p, n, s, m, up, ls);
    }
  }

  lemma CopathHeld(t: Tree, p: Pubs, n: nat, s: nat, m: nat, child: nat)
    requires |t| == |p| == 2 * n && 2 <= child && IsAncestor(child, s)
    requires HoldsOffPath(t, p, n, s, m)
    ensures var res := Resolution(p, n, Sibling(child));
            forall j :: 0 <= j < |res| && IsAncestor(res[j], m) ==> t[res[j]].priv == p[res[j]]
  {
    hide Resolution;
    var cop := Sibling(child);
    var res := Resolution(p, n, cop);
    forall j | 0 <= j < |res| && IsAncestor(res[j], m)
      ensures t[res[j]].priv == p[res[j]]
    {
      if IsAncestor(res[j], s) {
        AncestorTrans(cop, res[j], s);
        SiblingDisjoint(child, s);
      }
    }
  }

  lemma MeetAbove(s: nat, m: nat, child: nat)
    requires child >= 2 && IsAncestor(child, s) && IsAncestor(Sibling(child), m)
    ensures IsMeet(Parent(child), s, m)
  {
    SiblingDisjoint(child, m);
    SiblingDisjoint(child, s);
    var up := Parent(child);
    forall x: nat | IsAncestor(x, s) && IsAncestor(x, m)
      ensures x <= up
    {
      if x > up {
        AncestorChain(up, x, s);
        SiblingDisjoint(child, x);
        if IsAncestor(child, x) {
          AncestorTrans(child, x, m);
        } else {
          AncestorTrans(Sibling(child), x, s);
        }
      }
    }
  }

  /** Re-deriving from v upwards re-keys exactly the ancestors of v. */
  lemma {:induction false} RederiveAll(t: Tree, s: nat, v: nat, ls: Secret)
    requires 1 <= v < |t| && IsAncestor(v, s) && IsAncestor(1, s)
    ensures var (t', root) := Rederive(t, v, PathSecret(ls, s, v));
            && root == RootOf(PathSecret(ls, s, 1))
            && forall x :: 0 <= x < |t| ==>
                 t'[x] == if 1 <= x <= v && IsAncestor(x, s)
                          then Node(Some(NodeKey(PathSecret(ls, s, x))), Some(NodeKey(PathSecret(ls, s, x))))
                          else t[x]
    decreases v
  {
    var ps := PathSecret(ls, s, v);
    var t1 := t[v := Node(Some(NodeKey(ps)), Some(NodeKey(ps)))];
    if v > 1 {
      PathSecretParent(ls, s, v);
      hide PathSecret;
      RederiveAll(t1, s, v / 2, ls);
      forall x | 1 <= x <= v && IsAncestor(x, s)
        ensures x == v || x <= v / 2
      {
        AncestorChain(x, v, s);
        AncestorLe(x, v / 2);
      }
    }
  }

  /** Processing an honest commit succeeds for every other member in step, leaves it in step with
      the new public tree, and yields the committer's root secret. */
  lemma ProcessHonest(w: View, n: nat, p: Pubs, s: nat, m: nat, ls: Secret)
    requires InStep(w, n, p, m) && IsLeaf(n, s) && s != m
    ensures var (rc, w') := ProcessView(w, CommitOf(p, n, s, ls));
            && rc == Success
            && InStep(w', n, CommitPubs(p, s, ls), m)
            && IsAncestor(1, s) && w'.root == Some(RootOf(PathSecret(ls, s, 1)))
  {
    hide Resolution, Install, Steps, FindSecret, Rederive;
    RootIsAncestor(s);
    StepsLength(p, n, s, Next(ls));
    DepthBound(s);
    assert PathSecret(ls, s, s) == ls;
    NotAboveLeaf(n, s, m);
    var c := CommitOf(p, n, s, ls);
    var t0 := w.tree[s := Node(Some(c.leafPub), None)];
    InstallHonest(t0, p, n, s, s, ls);
    var t := Install(t0, n, c.steps).1;
    var meet := FindSecretHonest(t, p, n, s, m, s, ls);
    RederiveAll(t, s, meet, ls);
    var w' := ProcessView(w, c).1;
    forall v | 1 <= v < 2 * n
      ensures w'.tree[v] == Node(CommitPubs(p, s, ls)[v], if IsAncestor(v, m) then CommitPubs(p, s, ls)[v] else None)
    {
      if v <= meet && IsAncestor(v, s) {
        AncestorChain(v, meet, s);
        AncestorTrans(v, meet, m);
      }
      AncestorLe(v, s);
    }
  }

  /** A leaf lies below no other leaf. */
  lemma NotAboveLeaf(n: nat, s: nat, m: nat)
    requires IsLeaf(n, s) && IsLeaf(n, m) && s != m
    ensures !IsAncestor(s, m) && !IsAncestor(m, s)
  {
    AncestorLe(s, m);
    AncestorLe(m, s);
    if s < m {
      AncestorLe(s, m / 2);
    } else {
      AncestorLe(m, s / 2);
    }
  }

  /** The committer itself stays in step. */
  lemma CommitInStep(w: View, n: nat, p: Pubs, m: nat, ls: Secret)
    requires InStep(w, n, p, m)
    ensures InStep(CommitView(w, ls), n, CommitPubs(p, m, ls), m)
    ensures IsAncestor(1, m) && CommitView(w, ls).root == Some(RootOf(PathSecret(ls, m, 1)))
  {
    hide PathSecret;
    RootIsAncestor(m);
  }

  lemma BlankInStep(w: View, n: nat, p: Pubs, m: nat, leaf: nat)
    requires InStep(w, n, p, m) && IsLeaf(n, leaf) && leaf != m
    ensures InStep(BlankLeafView(w, leaf), n, BlankPubs(p, leaf, None), m)
  {
    NotAboveLeaf(n, leaf, m);
  }

  lemma AddInStep(w: View, n: nat, p: Pubs, m: nat, leaf: nat, k: Key)
    requires InStep(w, n, p, m) && IsLeaf(n, leaf) && leaf != m
    ensures AddLeafView(w, leaf, k).0 == Success
    ensures InStep(AddLeafView(w, leaf, k).1, n, BlankPubs(p, leaf, Some(k)), m)
  {
    NotAboveLeaf(n, leaf, m);
  }

  /** A joiner importing the tree right after its leaf was added is in step: nothing above its leaf
      is populated yet. */
  lemma ImportInStep(p: Pubs, n: nat, leaf: nat, k: Key)
    requires ValidSize(n) && |p| == 2 * n && IsLeaf(n, leaf)
    ensures InStep(ImportView(BlankPubs(p, leaf, Some(k)), n, leaf, k), n, BlankPubs(p, leaf, Some(k)), leaf)
  {
    forall v | 1 <= v < 2 * n && IsAncestor(v, leaf)
      ensures v <= leaf
    {
      AncestorLe(v, leaf);
    }
  }

  // ---------------------------------------------------------------------------
  // Whole runs
  // ---------------------------------------------------------------------------

  /** Removing a leaf, seating a joiner with key k, or a commit of the member at a leaf. */
  datatype Op = Commits(leaf: nat, secret: Secret) | Removes(leaf: nat) | Adds(leaf: nat, key: Key)

  /** The public tree, each member's own state, and the root secret of the last commit. */
  datatype Group = Group(n: nat, pubs: Pubs, members: map<nat, View>, root: Option<Root>)

  predicate CanApply(g: Group, op: Op)
  {
    match op
    case Commits(s, _) => s in g.members
    case Removes(leaf) => IsLeaf(g.n, leaf)
    case Adds(leaf, _) => IsLeaf(g.n, leaf)
  }

  ghost predicate Sync(g: Group)
  {
    && ValidSize(g.n) && |g.pubs| == 2 * g.n
    && (forall m: nat :: m in g.members <==> IsLeaf(g.n, m) && g.pubs[m].Some?)
    && (forall m :: m in g.members ==> InStep(g.members[m], g.n, g.pubs, m))
    && (forall m :: m in g.members ==> g.members[m].root in {None, g.root})
  }

  /** Every member applies the operation with its own copy of the code: the committer commits on its
      own state, the others process what it sent; a joiner imports what a member exports. */
  function Apply(g: Group, op: Op): (g': Group)
    requires Sync(g) && CanApply(g, op)
  {
    match op
    case Commits(s, ls) =>
      RootIsAncestor(s);
      var sent := CommitOf(PubsOf(g.members[s].tree), g.n, s, ls);
      g.(pubs := CommitPubs(g.pubs, s, ls),
         members := map m | m in g.members :: if m == s then CommitView(g.members[m], ls) else ProcessView(g.members[m], sent).1,
         root := Some(RootOf(PathSecret(ls, s, 1))))
    case Removes(leaf) =>
      g.(pubs := BlankPubs(g.pubs, leaf, None),
         members := map m | m in g.members && m != leaf :: BlankLeafView(g.members[m], leaf))
    case Adds(leaf, k) =>
      var p' := BlankPubs(g.pubs, leaf, Some(k));
      g.(pubs := p',
         members := (map m | m in g.members && m != leaf :: AddLeafView(g.members[m], leaf, k).1)
                    [leaf := ImportView(p', g.n, leaf, k)])
  }

  function Run(g: Group, ops: seq<Op>): Option<Group>
    requires Sync(g)
    decreases |ops|
  {
    if ops == [] then Some(g)
    else if !CanApply(g, ops[0]) then None
    else
      ApplyKeepsSync(g, ops[0]);
      Run(Apply(g, ops[0]), ops[1..])
  }

  function Start(n: nat, keys: seq<Key>): Group
    requires ValidSize(n) && |keys| == n
  {
    Group(n, seq(2 * n, v requires 0 <= v < 2 * n => if v >= n then Some(keys[v - n]) else None),
          map m: nat | n <= m < 2 * n && IsLeaf(n, m) :: InitView(n, m - n, keys, keys[m - n]), None)
  }

  lemma StartInSync(n: nat, keys: seq<Key>)
    requires ValidSize(n) && |keys| == n
    ensures Sync(Start(n, keys))
  {
    hide InStep, InitView;
    var g := Start(n, keys);
    forall m | m in g.members
      ensures InStep(g.members[m], n, g.pubs, m) && g.members[m].root == None
    {
      InitInStep(n, keys, m, g.pubs);
    }
  }

  lemma InitInStep(n: nat, keys: seq<Key>, m: nat, p: Pubs)
    requires ValidSize(n) && |keys| == n && IsLeaf(n, m) && |p| == 2 * n
    requires forall v :: 0 <= v < 2 * n ==> p[v] == if v >= n then Some(keys[v - n]) else None
    ensures InStep(InitView(n, m - n, keys, keys[m - n]), n, p, m)
    ensures InitView(n, m - n, keys, keys[m - n]).root == None
  {
    forall v | n <= v < 2 * n && v != m
      ensures !IsAncestor(v, m)
    {
      NotAboveLeaf(n, v, m);
    }
  }

  /** A member's own copy of the public tree serves as the public tree in a commit. */
  lemma SameCommit(w: View, n: nat, p: Pubs, m: nat, ls: Secret)
    requires InStep(w, n, p, m)
    ensures CommitOf(PubsOf(w.tree), n, m, ls) == CommitOf(p, n, m, ls)
  {
    SameSteps(PubsOf(w.tree), p, n, m, Next(ls));
  }

  lemma {:induction false} SameSteps(p: Pubs, q: Pubs, n: nat, child: nat, ps: Secret)
    requires |p| == |q| == 2 * n && child >= 1
    requires forall v :: 1 <= v < 2 * n ==> p[v] == q[v]
    ensures Steps(p, n, child, ps) == Steps(q, n, child, ps)
    decreases child
  {
    hide Resolution;
    if child > 1 {
      ResolutionFrame(p, q, n, Sibling(child));
      var res := Resolution(p, n, Sibling(child));
      assert SealTo(p, res, ps) == SealTo(q, res, ps);
      SameSteps(p, q, n, Parent(child), Next(ps));
    }
  }

  /** Each operation keeps all members in step; a commit gives all of them its root secret. */
  lemma ApplyKeepsSync(g: Group, op: Op)
    requires Sync(g) && CanApply(g, op)
    ensures Sync(Apply(g, op))
    ensures op.Commits? ==> forall m :: m in Apply(g, op).members ==> Apply(g, op).members[m].root == Apply(g, op).root
  {
    hide InStep, CommitView, ProcessView, BlankLeafView, AddLeafView, ImportView, PathSecret, CommitOf, PubsOf;
    var g' := Apply(g, op);
    match op
    case Commits(s, ls) =>
      InStepFacts(g.members[s], g.n, g.pubs, s);
      SameCommit(g.members[s], g.n, g.pubs, s, ls);
      forall m | m in g.members
        ensures InStep(g'.members[m], g.n, g'.pubs, m) && g'.members[m].root == g'.root
      {
        if m == s {
          CommitInStep(g.members[m], g.n, g.pubs, m, ls);
        } else {
          ProcessHonest(g.members[m], g.n, g.pubs, s, m, ls);
        }
      }
      CommitKeepsLeaves(g.n, g.pubs, s, ls);
    case Removes(leaf) =>
      BlankKeepsLeaves(g.n, g.pubs, leaf, None);
      forall m | m in g'.members
        ensures InStep(g'.members[m], g.n, g'.pubs, m) && g'.members[m].root == g.members[m].root
      {
        InStepFacts(g.members[m], g.n, g.pubs, m);
        BlankInStep(g.members[m], g.n, g.pubs, m, leaf);
        BlankKeepsRoot(g.members[m], leaf);
      }
    case Adds(leaf, k) =>
      BlankKeepsLeaves(g.n, g.pubs, leaf, Some(k));
      forall m | m in g'.members
        ensures InStep(g'.members[m], g.n, g'.pubs, m)
        ensures g'.members[m].root == if m == leaf then None else g.members[m].root
      {
        if m == leaf {
          ImportInStep(g.pubs, g.n, leaf, k);
          ImportHasNoRoot(g'.pubs, g.n, leaf, k);
        } else {
          InStepFacts(g.members[m], g.n, g.pubs, m);
          AddInStep(g.members[m], g.n, g.pubs, m, leaf, k);
          AddKeepsRoot(g.members[m], leaf, k);
        }
      }
  }

  lemma InStepFacts(w: View, n: nat, p: Pubs, m: nat)
    requires InStep(w, n, p, m)
    ensures WellFormed(w) && w.n == n && w.me == m && |w.tree| == 2 * n
  {
  }

  lemma CommitKeepsLeaves(n: nat, p: Pubs, s: nat, ls: Secret)
    requires |p| == 2 * n && IsLeaf(n, s) && p[s].Some?
    ensures forall m: nat :: IsLeaf(n, m) ==> (CommitPubs(p, s, ls)[m].Some? <==> p[m].Some?)
  {
    forall m: nat | IsLeaf(n, m) && m != s
      ensures CommitPubs(p, s, ls)[m] == p[m]
    {
      NotAboveLeaf(n, m, s);
    }
  }

  lemma BlankKeepsLeaves(n: nat, p: Pubs, leaf: nat, k: Option<Key>)
    requires |p| == 2 * n && IsLeaf(n, leaf)
    ensures forall m: nat :: IsLeaf(n, m) ==> BlankPubs(p, leaf, k)[m] == if m == leaf then k else p[m]
  {
    forall m: nat | IsLeaf(n, m) && m != leaf
      ensures BlankPubs(p, leaf, k)[m] == p[m]
    {
      NotAboveLeaf(n, m, leaf);
    }
  }

  lemma BlankKeepsRoot(w: View, leaf: nat)
    requires WellFormed(w)
    ensures BlankLeafView(w, leaf).root == w.root
  {
  }

  lemma AddKeepsRoot(w: View, leaf: nat, k: Key)
    requires WellFormed(w)
    ensures AddLeafView(w, leaf, k).1.root == w.root
  {
  }

  lemma ImportHasNoRoot(p: Pubs, n: nat, leaf: nat, k: Key)
    requires ValidSize(n) && |p| == 2 * n && IsLeaf(n, leaf)
    ensures ImportView(p, n, leaf, k).root == None
  {
  }

  /** Convergence over every run: whatever sequence of commits, removes and adds is applied to a
      fresh group, all members are in step at the end, and after a final commit share its root. */
  lemma {:induction false} RunsConverge(g: Group, ops: seq<Op>)
    requires Sync(g) && Run(g, ops).Some?
    ensures Sync(Run(g, ops).value)
    ensures ops != [] && ops[|ops| - 1].Commits? ==>
            var e := Run(g, ops).value;
            e.root.Some? && forall m :: m in e.members ==> e.members[m].root == e.root
    decreases |ops|
  {
    hide Sync, Apply;
    if ops != [] {
      ApplyKeepsSync(g, ops[0]);
      RunsConverge(Apply(g, ops[0]), ops[1..]);
      if |ops| == 1 && ops[0].Commits? {
        CommitSetsRoot(g, ops[0]);
      }
    }
  }

  lemma CommitSetsRoot(g: Group, op: Op)
    requires Sync(g) && CanApply(g, op) && op.Commits?
    ensures Apply(g, op).root.Some?
  {
  }

  // ---------------------------------------------------------------------------
  // Copies on the wire, and late joiners
  // ---------------------------------------------------------------------------

  /** Number of sealed copies addressed to a node on the direct path of leaf m. */
  function Copies(encs: seq<Enc>, m: nat): nat
  {
    if encs == [] then 0
    else (if IsAncestor(encs[0].recipient, m) then 1 else 0) + Copies(encs[1..], m)
  }

  function AllCopies(steps: seq<Step>, m: nat): nat
  {
    if steps == [] then 0 else Copies(steps[0].encs, m) + AllCopies(steps[1..], m)
  }

  lemma {:induction false} CopiesCount(p: Pubs, res: seq<nat>, ps: Secret, m: nat, i: Option<nat>)
    requires forall j :: 0 <= j < |res| ==> res[j] < |p| && p[res[j]].Some?
    requires i.Some? ==> i.value < |res| && IsAncestor(res[i.value], m)
    requires forall j :: 0 <= j < |res| && IsAncestor(res[j], m) ==> i == Some(j)
    ensures Copies(SealTo(p, res, ps), m) == if i.Some? then 1 else 0
    decreases |res|
  {
    if res != [] {
      assert SealTo(p, res, ps)[1..] == SealTo(p, res[1..], ps);
      var rest := if i.Some? && i.value > 0 then Some((i.value - 1) as nat) else None;
      CopiesCount(p, res[1..], ps, m, rest);
    }
  }

  /** Every commit carries exactly one copy for each other populated leaf, and none that the
      committer's own (possibly compromised) path keys could open. */
  lemma {:induction false} OneCopyEach(p: Pubs, n: nat, s: nat, child: nat, ps: Secret, m: nat)
    requires |p| == 2 * n && 1 <= child < 2 * n && IsAncestor(child, s)
    requires IsLeaf(n, m) && p[m].Some?
    ensures AllCopies(Steps(p, n, child, ps), m) == if IsAncestor(child, m) then 0 else 1
    decreases child
  {
    hide Resolution, Copies, SealTo;
    if child == 1 {
      RootIsAncestor(m);
    } else {
      var cop := Sibling(child);
      var res := Resolution(p, n, cop);
      SiblingDisjoint(child, child);
      AncestorTrans(Parent(child), child, s);
      OneCopyEach(p, n, s, Parent(child), Next(ps), m);
      SiblingDisjoint(child, m);
      if IsAncestor(cop, m) {
        var i := ResolutionCovers(p, n, cop, m);
        CopiesCount(p, res, ps, m, Some(i));
      } else {
        NoneBelow(res, cop, m);
        CopiesCount(p, res, ps, m, None);
      }
      var steps := Steps(p, n, child, ps);
      assert steps[0].encs == SealTo(p, res, ps) && steps[1..] == Steps(p, n, Parent(child), Next(ps));
    }
  }

  lemma CommitCopies(p: Pubs, n: nat, s: nat, ls: Secret, m: nat)
    requires |p| == 2 * n && IsLeaf(n, s) && IsLeaf(n, m) && p[m].Some?
    ensures AllCopies(CommitOf(p, n, s, ls).steps, m) == if m == s then 0 else 1
  {
    OneCopyEach(p, n, s, s, Next(ls), m);
    if m != s {
      NotAboveLeaf(n, s, m);
    }
  }

  /** A joiner may also import the tree exported after the commit that seats it: processing that
      commit then leads to the same state as importing before the commit. */
  lemma LateImport(p: Pubs, n: nat, s: nat, leaf: nat, k: Key, ls: Secret)
    requires ValidSize(n) && |p| == 2 * n && IsLeaf(n, s) && IsLeaf(n, leaf) && s != leaf
    ensures var p0 := BlankPubs(p, leaf, Some(k));
            var p1 := CommitPubs(p0, s, ls);
            var c := CommitOf(p0, n, s, ls);
            && ProcessView(ImportView(p1, n, leaf, k), c).0 == Success
            && ProcessView(ImportView(p1, n, leaf, k), c) == ProcessView(ImportView(p0, n, leaf, k), c)
  {
    hide FindSecret, Rederive, PathSecret, Steps, Resolution, Install;
    var p0 := BlankPubs(p, leaf, Some(k));
    var p1 := CommitPubs(p0, s, ls);
    var c := CommitOf(p0, n, s, ls);
    var (early, late) := (ImportView(p0, n, leaf, k), ImportView(p1, n, leaf, k));
    ImportInStep(p, n, leaf, k);
    ProcessHonest(early, n, p0, s, leaf, ls);
    StepsLength(p0, n, s, Next(ls));
    DepthBound(s);
    SelfSecret(s, ls);
    NotAboveLeaf(n, s, leaf);
    InstallHonest(early.tree[s := Node(Some(c.leafPub), None)], p0, n, s, s, ls);
    InstallHonest(late.tree[s := Node(Some(c.leafPub), None)], p0, n, s, s, ls);
    assert Install(early.tree[s := Node(Some(c.leafPub), None)], n, c.steps).1
        == Install(late.tree[s := Node(Some(c.leafPub), None)], n, c.steps).1;
  }

  lemma SelfSecret(s: nat, ls: Secret)
    ensures IsAncestor(s, s) && PathSecret(ls, s, s) == ls
  {
  }
}
