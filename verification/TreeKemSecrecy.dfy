/** Who can know the group secret of src/treekem.c, over whole runs in which an attacker sees all
    traffic, takes snapshots of members, and leaks the randomness of some commits and joins. What it
    knows is the closure of what it was given under hashing and opening; the main result here is that it
    knows the root secret of a commit right after it if and only if a compromised leaf survives it. */
module TreeKemSecrecy {
  import opened Common
  import opened TreeMath
  import opened TreeKem
  import opened TreeKemGroup

  datatype Atom = ASecret(ps: Secret) | APriv(k: Key) | ARoot(r: Root)

  /** A derivation: start from something given, apply the public functions, open sealed boxes. */
  datatype Attack = Given(a: Atom) | HashPath(of: Attack) | HashNode(of: Attack) | HashRoot(of: Attack)
                  | OpenBox(with: Attack, box: Sealed)

  function Yields(d: Attack, given: set<Atom>, traffic: set<Sealed>): Option<Atom>
  {
    match d
    case Given(a) => if a in given then Some(a) else None
    case HashPath(e) =>
      var y := Yields(e, given, traffic);
      if y.Some? && y.value.ASecret? then Some(ASecret(Next(y.value.ps))) else None
    case HashNode(e) =>
      var y := Yields(e, given, traffic);
      if y.Some? && y.value.ASecret? then Some(APriv(NodeKey(y.value.ps))) else None
    case HashRoot(e) =>
      var y := Yields(e, given, traffic);
      if y.Some? && y.value.ASecret? then Some(ARoot(RootOf(y.value.ps))) else None
    case OpenBox(e, box) =>
      if box in traffic && Yields(e, given, traffic) == Some(APriv(box.to)) then Some(ASecret(box.ps)) else None
  }

  ghost predicate Known(a: Atom, given: set<Atom>, traffic: set<Sealed>)
  {
    exists d :: Yields(d, given, traffic) == Some(a)
  }

  // ---------------------------------------------------------------------------
  // Runs with an attacker
  // ---------------------------------------------------------------------------

  datatype Event = HonestCommit(leaf: nat) | LeakyCommit(leaf: nat) | Compromise(leaf: nat)
                 | Remove(leaf: nat) | Join(leaf: nat, leaked: bool)

  /** `hurt` holds the leaves that count as compromised; `next` is the next unused random value. */
  datatype World = World(g: Group, given: set<Atom>, traffic: set<Sealed>, hurt: set<nat>, next: nat)

  function EncBoxes(encs: seq<Enc>): set<Sealed>
  {
    set i | 0 <= i < |encs| :: encs[i].box
  }

  function Boxes(steps: seq<Step>): set<Sealed>
  {
    if steps == [] then {} else EncBoxes(steps[0].encs) + Boxes(steps[1..])
  }

  /** Everything a member's state holds that is secret. */
  function Snapshot(w: View): set<Atom>
  {
    (set v | 1 <= v < |w.tree| && w.tree[v].priv.Some? :: APriv(w.tree[v].priv.value)) +
    (if w.root.Some? then {ARoot(w.root.value)} else {})
  }

  function OpOf(w: World, e: Event): Option<Op>
  {
    match e
    case HonestCommit(s) => Some(Commits(s, Fresh(w.next)))
    case LeakyCommit(s) => Some(Commits(s, Fresh(w.next)))
    case Compromise(_) => None
    case Remove(leaf) => Some(Removes(leaf))
    case Join(leaf, _) => Some(Adds(leaf, LeafKey(w.next)))
  }

  predicate Enabled(w: World, e: Event)
  {
    if e.Compromise? then e.leaf in w.g.members else CanApply(w.g, OpOf(w, e).value)
  }

  function Happens(w: World, e: Event): World
    requires Sync(w.g) && Enabled(w, e)
  {
    var g' := if e.Compromise? then w.g else Apply(w.g, OpOf(w, e).value);
    match e
    case HonestCommit(s) =>
      World(g', w.given, w.traffic + Boxes(CommitOf(w.g.pubs, w.g.n, s, Fresh(w.next)).steps), w.hurt - {s}, w.next + 1)
    case LeakyCommit(s) =>
      World(g', w.given + {ASecret(Fresh(w.next))},
            w.traffic + Boxes(CommitOf(w.g.pubs, w.g.n, s, Fresh(w.next)).steps), w.hurt + {s}, w.next + 1)
    case Compromise(m) => w.(given := w.given + Snapshot(w.g.members[m]), hurt := w.hurt + {m})
    case Remove(leaf) => w.(g := g', hurt := w.hurt - {leaf})
    case Join(leaf, leaked) =>
      World(g', if leaked then w.given + {APriv(LeafKey(w.next))} else w.given, w.traffic,
            if leaked then w.hurt + {leaf} else w.hurt - {leaf}, w.next + 1)
  }

  /** v is on the direct path of a compromised leaf. */
  ghost predicate Touched(hurt: set<nat>, v: nat)
  {
    exists c :: c in hurt && IsAncestor(v, c)
  }

  // ---------------------------------------------------------------------------
  // The invariant
  // ---------------------------------------------------------------------------

  function SecretId(ps: Secret): nat
  {
    match ps case Fresh(id) => id case Next(q) => SecretId(q)
  }

  function KeyId(k: Key): nat
  {
    match k case LeafKey(id) => id case NodeKey(ps) => SecretId(ps)
  }

  function AtomId(a: Atom): nat
  {
    match a case ASecret(ps) => SecretId(ps) case APriv(k) => KeyId(k) case ARoot(r) => SecretId(r.ps)
  }

  /** If the atom concerns a key now in the tree, that key sits on the path of a compromised leaf. */
  ghost predicate Exposed(p: Pubs, hurt: set<nat>, a: Atom)
    requires |p| > 1
  {
    match a
    case ASecret(ps) => forall v: nat :: 1 <= v < |p| && p[v] == Some(NodeKey(ps)) ==> Touched(hurt, v)
    case APriv(k) => forall v: nat :: 1 <= v < |p| && p[v] == Some(k) ==> Touched(hurt, v)
    case ARoot(r) => p[1] == Some(NodeKey(r.ps)) ==> Touched(hurt, 1)
  }

  ghost predicate DistinctKeys(p: Pubs)
  {
    forall u, v :: 1 <= u < |p| && 1 <= v < |p| && p[u].Some? && p[u] == p[v] ==> u == v
  }

  /** The key of an inner node comes from hashing the secret of a child whose key is in the tree. */
  ghost predicate Chained(p: Pubs, n: nat)
    requires |p| == 2 * n
  {
    && (forall v :: 1 <= v < n && p[v].Some? ==>
         && p[v].value.NodeKey? && p[v].value.ps.Next?
         && (p[2 * v] == Some(NodeKey(p[v].value.ps.of)) || p[2 * v + 1] == Some(NodeKey(p[v].value.ps.of))))
    && (forall v :: n <= v < 2 * n && p[v].Some? && p[v].value.NodeKey? ==> p[v].value.ps.Fresh?)
  }

  /** A box whose secret is still in use was sealed to a key that is still in use, further down. */
  ghost predicate BoxCovered(p: Pubs, box: Sealed)
  {
    forall v: nat :: 1 <= v < |p| && p[v] == Some(NodeKey(box.ps)) ==> KeyBelow(p, v, box.to)
  }

  ghost predicate KeyBelow(p: Pubs, v: nat, k: Key)
  {
    exists u: nat :: 1 <= u < |p| && p[u] == Some(k) && IsAncestor(v, u)
  }

  ghost predicate IdsBelow(w: World)
  {
    && (forall v :: 1 <= v < |w.g.pubs| && w.g.pubs[v].Some? ==> KeyId(w.g.pubs[v].value) < w.next)
    && (forall a :: a in w.given ==> AtomId(a) < w.next)
    && (forall b :: b in w.traffic ==> KeyId(b.to) < w.next && SecretId(b.ps) < w.next)
    && (w.g.root.Some? ==> SecretId(w.g.root.value.ps) < w.next)
  }

  /** The attacker has every key on the path of a compromised leaf. */
  ghost predicate Reached(p: Pubs, w: World)
  {
    forall v: nat :: 1 <= v < |p| && p[v].Some? && Touched(w.hurt, v) ==> Known(APriv(p[v].value), w.given, w.traffic)
  }

  ghost predicate Guarded(w: World)
  {
    && Sync(w.g)
    && (forall c :: c in w.hurt ==> c in w.g.members)
    && DistinctKeys(w.g.pubs) && Chained(w.g.pubs, w.g.n) && IdsBelow(w)
    && (forall b :: b in w.traffic ==> BoxCovered(w.g.pubs, b))
    && (forall a :: a in w.given ==> Exposed(w.g.pubs, w.hurt, a))
    && Reached(w.g.pubs, w)
  }

  lemma GuardedFacts(w: World)
    requires Guarded(w)
    ensures Sync(w.g) && ValidSize(w.g.n) && |w.g.pubs| == 2 * w.g.n
    ensures forall m :: m in w.g.members ==> IsLeaf(w.g.n, m) && w.g.pubs[m].Some?
    ensures forall m :: m in w.g.members ==> InStep(w.g.members[m], w.g.n, w.g.pubs, m)
    ensures forall m :: m in w.g.members ==> w.g.members[m].root in {None, w.g.root}
    ensures forall c :: c in w.hurt ==> c in w.g.members && IsLeaf(w.g.n, c)
  {
  }

  // ---------------------------------------------------------------------------
  // What the attacker cannot know, and what it does know
  // ---------------------------------------------------------------------------

  lemma TouchedUp(hurt: set<nat>, v: nat, u: nat)
    requires IsAncestor(v, u) && Touched(hurt, u)
    ensures Touched(hurt, v)
  {
    var c :| c in hurt && IsAncestor(u, c);
    AncestorTrans(v, u, c);
  }

  /** Nothing outside the exposed atoms can be derived. */
  lemma {:induction false} OnlyExposed(w: World, d: Attack)
    requires Guarded(w)
    ensures |w.g.pubs| > 1
    ensures Yields(d, w.given, w.traffic).Some? ==> Exposed(w.g.pubs, w.hurt, Yields(d, w.given, w.traffic).value)
    decreases d
  {
    hide Sync, Reached, IdsBelow, DistinctKeys, Touched, IsAncestor;
    GuardedFacts(w);
    var p := w.g.pubs;
    var y := Yields(d, w.given, w.traffic);
    match d
    case Given(a) =>
    case HashPath(e) =>
      OnlyExposed(w, e);
      if y.Some? {
        forall v: nat | 1 <= v < |p| && p[v] == Some(NodeKey(y.value.ps))
          ensures Touched(w.hurt, v)
        {
          var u := if p[2 * v] == Some(NodeKey(y.value.ps.of)) then 2 * v else 2 * v + 1;
          assert p[u] == Some(NodeKey(y.value.ps.of));
          ChildBelow(v);
          TouchedUp(w.hurt, v, u);
        }
      }
    case HashNode(e) => OnlyExposed(w, e);
    case HashRoot(e) => OnlyExposed(w, e);
    case OpenBox(e, box) =>
      OnlyExposed(w, e);
      if y.Some? {
        forall v: nat | 1 <= v < |p| && p[v] == Some(NodeKey(box.ps))
          ensures Touched(w.hurt, v)
        {
          assert BoxCovered(p, box);
          assert KeyBelow(p, v, box.to);
          var u: nat :| 1 <= u < |p| && p[u] == Some(box.to) && IsAncestor(v, u);
          TouchedUp(w.hurt, v, u);
        }
      }
  }

  lemma ChildBelow(v: nat)
    requires v >= 1
    ensures IsAncestor(v, 2 * v) && IsAncestor(v, 2 * v + 1)
  {
    AncestorChildren(v, 2 * v);
    AncestorChildren(v, 2 * v + 1);
  }

  /** In every state of every run, a node's private key is known exactly on the paths of the
      compromised leaves. */
  lemma KeyKnownIff(w: World, v: nat)
    requires Guarded(w) && 1 <= v < |w.g.pubs| && w.g.pubs[v].Some?
    ensures Known(APriv(w.g.pubs[v].value), w.given, w.traffic) <==> Touched(w.hurt, v)
  {
    hide Sync, IdsBelow, DistinctKeys, Touched, Chained;
    var k := w.g.pubs[v].value;
    if Known(APriv(k), w.given, w.traffic) {
      var d :| Yields(d, w.given, w.traffic) == Some(APriv(k));
      OnlyExposed(w, d);
    }
  }

  lemma {:induction false} YieldsMore(d: Attack, given: set<Atom>, traffic: set<Sealed>, given': set<Atom>, traffic': set<Sealed>)
    requires given <= given' && traffic <= traffic'
    ensures Yields(d, given, traffic).Some? ==> Yields(d, given', traffic') == Yields(d, given, traffic)
    decreases d
  {
    match d
    case Given(a) =>
    case HashPath(e) => YieldsMore(e, given, traffic, given', traffic');
    case HashNode(e) => YieldsMore(e, given, traffic, given', traffic');
    case HashRoot(e) => YieldsMore(e, given, traffic, given', traffic');
    case OpenBox(e, box) => YieldsMore(e, given, traffic, given', traffic');
  }

  lemma KnownMore(a: Atom, given: set<Atom>, traffic: set<Sealed>, given': set<Atom>, traffic': set<Sealed>)
    requires given <= given' && traffic <= traffic' && Known(a, given, traffic)
    ensures Known(a, given', traffic')
  {
    var d :| Yields(d, given, traffic) == Some(a);
    YieldsMore(d, given, traffic, given', traffic');
  }

  lemma KnownHashes(ps: Secret, given: set<Atom>, traffic: set<Sealed>)
    requires Known(ASecret(ps), given, traffic)
    ensures Known(ASecret(Next(ps)), given, traffic)
    ensures Known(APriv(NodeKey(ps)), given, traffic)
    ensures Known(ARoot(RootOf(ps)), given, traffic)
  {
    var d :| Yields(d, given, traffic) == Some(ASecret(ps));
    assert Yields(HashPath(d), given, traffic) == Some(ASecret(Next(ps)));
    assert Yields(HashNode(d), given, traffic) == Some(APriv(NodeKey(ps)));
    assert Yields(HashRoot(d), given, traffic) == Some(ARoot(RootOf(ps)));
  }

  lemma KnownOpens(box: Sealed, given: set<Atom>, traffic: set<Sealed>)
    requires box in traffic && Known(APriv(box.to), given, traffic)
    ensures Known(ASecret(box.ps), given, traffic)
  {
    var d :| Yields(d, given, traffic) == Some(APriv(box.to));
    assert Yields(OpenBox(d, box), given, traffic) == Some(ASecret(box.ps));
  }

  lemma KnownGiven(a: Atom, given: set<Atom>, traffic: set<Sealed>)
    requires a in given
    ensures Known(a, given, traffic)
  {
    assert Yields(Given(a), given, traffic) == Some(a);
  }

  /** A known path secret gives all the secrets above it. */
  lemma {:induction false} KnownUpwards(ls: Secret, s: nat, c: nat, v: nat, given: set<Atom>, traffic: set<Sealed>)
    requires 1 <= v <= c && IsAncestor(c, s) && IsAncestor(v, s)
    requires Known(ASecret(PathSecret(ls, s, c)), given, traffic)
    ensures Known(ASecret(PathSecret(ls, s, v)), given, traffic)
    decreases c
  {
    hide PathSecret, Known;
    if v < c {
      PathSecretParent(ls, s, c);
      KnownHashes(PathSecret(ls, s, c), given, traffic);
      AncestorChain(v, c, s);
      AncestorLe(v, c / 2);
      KnownUpwards(ls, s, c / 2, v, given, traffic);
    }
  }

  // ---------------------------------------------------------------------------
  // Commits keep the invariant
  // ---------------------------------------------------------------------------

  function Height(ps: Secret): nat
  {
    match ps case Fresh(_) => 0 case Next(q) => 1 + Height(q)
  }

  lemma {:induction false} PathSecretShape(ls: Secret, s: nat, v: nat)
    requires v >= 1 && IsAncestor(v, s)
    ensures SecretId(PathSecret(ls, s, v)) == SecretId(ls)
    ensures v < s ==> Height(PathSecret(ls, s, v)) > Height(ls)
    decreases s
  {
    if v < s {
      AncestorLe(v, s / 2);
      PathSecretShape(Next(ls), s / 2, v);
    }
  }

  /** Different nodes of one path have different secrets. */
  lemma PathSecretsDiffer(ls: Secret, s: nat, u: nat, v: nat)
    requires 1 <= u < v && IsAncestor(u, s) && IsAncestor(v, s)
    ensures PathSecret(ls, s, u) != PathSecret(ls, s, v)
  {
    AncestorChain(u, v, s);
    PathSecretComposes(ls, s, v, u);
    PathSecretShape(PathSecret(ls, s, v), v, u);
  }

  lemma {:induction false} PathSecretComposes(ls: Secret, s: nat, v: nat, u: nat)
    requires IsAncestor(v, s) && IsAncestor(u, v)
    ensures IsAncestor(u, s) && PathSecret(ls, s, u) == PathSecret(PathSecret(ls, s, v), v, u)
    decreases s
  {
    AncestorTrans(u, v, s);
    if v < s {
      AncestorLe(u, v);
      PathSecretComposes(Next(ls), s / 2, v, u);
    }
  }

  /** The boxes of an update path: each is the secret of a path node, sealed to a resolution node of
      the other side. */
  ghost predicate BoxOfPath(p: Pubs, n: nat, s: nat, ls: Secret, box: Sealed, c: nat, r: nat)
    requires |p| == 2 * n
  {
    2 <= c < 2 * n && IsAncestor(c, s) && IsAncestor(c / 2, s) && r < 2 * n && p[r].Some? &&
    IsAncestor(Sibling(c), r) && r in Resolution(p, n, Sibling(c)) && box == Sealed(p[r].value, PathSecret(ls, s, c / 2))
  }

  lemma {:induction false} BoxesOfSteps(p: Pubs, n: nat, s: nat, child: nat, ls: Secret, box: Sealed) returns (c: nat, r: nat)
    requires |p| == 2 * n && 1 <= child < 2 * n && IsAncestor(child, s)
    requires box in Boxes(Steps(p, n, child, Next(PathSecret(ls, s, child))))
    ensures BoxOfPath(p, n, s, ls, box, c, r)
    decreases child
  {
    hide Resolution, PathSecret, SealTo, IsAncestor;
    var ps := Next(PathSecret(ls, s, child));
    var steps := Steps(p, n, child, ps);
    if child == 1 {
      assert false;
    } else {
      PathSecretParent(ls, s, child);
      var res := Resolution(p, n, Sibling(child));
      assert steps[1..] == Steps(p, n, Parent(child), Next(ps));
      if box in EncBoxes(SealTo(p, res, ps)) {
        var i :| 0 <= i < |res| && SealTo(p, res, ps)[i].box == box;
        c, r := child, res[i];
      } else {
        c, r := BoxesOfSteps(p, n, s, Parent(child), ls, box);
      }
    }
  }

  /** The box meant for a member that shares the parent of c with the committer. */
  lemma {:induction false} BoxFor(p: Pubs, n: nat, s: nat, child: nat, ls: Secret, m: nat) returns (c: nat, r: nat)
    requires |p| == 2 * n && 1 <= child < 2 * n && IsAncestor(child, s)
    requires IsLeaf(n, m) && p[m].Some? && !IsAncestor(child, m)
    ensures 1 <= r < 2 * n && IsAncestor(r, m) && p[r].Some? && !IsAncestor(r, s)
    ensures 2 <= c <= child && IsAncestor(c, s) && IsMeet(c / 2, s, m)
    ensures Sealed(p[r].value, PathSecret(ls, s, c / 2)) in Boxes(Steps(p, n, child, Next(PathSecret(ls, s, child))))
    decreases child
  {
    hide Resolution, PathSecret, SealTo, IsAncestor;
    RootIsAncestor(m);
    var ps := Next(PathSecret(ls, s, child));
    PathSecretParent(ls, s, child);
    SiblingDisjoint(child, m);
    var cop := Sibling(child);
    var res := Resolution(p, n, cop);
    var steps := Steps(p, n, child, ps);
    assert steps[0] == Step(Parent(child), NodeKey(ps), SealTo(p, res, ps)) && steps[1..] == Steps(p, n, Parent(child), Next(ps));
    if IsAncestor(cop, m) {
      var i := ResolutionCovers(p, n, cop, m);
      c, r := child, res[i];
      MeetAbove(s, m, child);
      assert SealTo(p, res, ps)[i].box in EncBoxes(SealTo(p, res, ps));
      if IsAncestor(r, s) {
        AncestorTrans(cop, r, s);
        SiblingDisjoint(child, s);
      }
    } else {
      c, r := BoxFor(p, n, s, Parent(child), ls, m);
    }
  }

  /** Off the path of s nothing changes, and neither does anything below. */
  lemma OffPath(p: Pubs, s: nat, ls: Secret, v: nat, u: nat)
    requires 1 <= v <= u < |p| && IsAncestor(v, u) && !IsAncestor(v, s)
    ensures !IsAncestor(u, s) && CommitPubs(p, s, ls)[u] == p[u]
  {
    if IsAncestor(u, s) {
      AncestorTrans(v, u, s);
    }
  }

  lemma CommitPubsAt(p: Pubs, s: nat, ls: Secret, v: nat)
    requires 1 <= v < |p|
    ensures CommitPubs(p, s, ls)[v] == if IsAncestor(v, s) then Some(NodeKey(PathSecret(ls, s, v))) else p[v]
  {
  }

  ghost predicate PubIdsBelow(p: Pubs, next: nat)
  {
    forall v :: 1 <= v < |p| && p[v].Some? ==> KeyId(p[v].value) < next
  }

  lemma CommitDistinct(p: Pubs, s: nat, next: nat)
    requires DistinctKeys(p) && PubIdsBelow(p, next) && 1 <= s < |p|
    ensures DistinctKeys(CommitPubs(p, s, Fresh(next))) && PubIdsBelow(CommitPubs(p, s, Fresh(next)), next + 1)
  {
    hide IsAncestor, PathSecret;
    var q := CommitPubs(p, s, Fresh(next));
    forall v | 1 <= v < |p|
      ensures IsAncestor(v, s) ==> q[v].Some? && KeyId(q[v].value) == next
    {
      if IsAncestor(v, s) {
        PathSecretShape(Fresh(next), s, v);
      }
    }
    forall u, v | 1 <= u < v < |p| && q[u].Some?
      ensures q[u] != q[v]
    {
      if IsAncestor(u, s) && IsAncestor(v, s) {
        PathSecretsDiffer(Fresh(next), s, u, v);
      }
    }
  }

  lemma CommitChained(p: Pubs, n: nat, s: nat, next: nat)
    requires |p| == 2 * n && IsLeaf(n, s) && Chained(p, n)
    ensures Chained(CommitPubs(p, s, Fresh(next)), n)
  {
    hide IsAncestor, PathSecret;
    var ls := Fresh(next);
    var q := CommitPubs(p, s, ls);
    forall v | 1 <= v < n && q[v].Some?
      ensures q[v].value.NodeKey? && q[v].value.ps.Next?
      ensures q[2 * v] == Some(NodeKey(q[v].value.ps.of)) || q[2 * v + 1] == Some(NodeKey(q[v].value.ps.of))
    {
      if IsAncestor(v, s) {
        AncestorChildren(v, s);
        var c := if IsAncestor(2 * v, s) then 2 * v else 2 * v + 1;
        PathSecretParent(ls, s, c);
      } else {
        ChildBelow(v);
        OffPath(p, s, ls, v, 2 * v);
        OffPath(p, s, ls, v, 2 * v + 1);
      }
    }
    forall v | n <= v < 2 * n && q[v].Some? && q[v].value.NodeKey?
      ensures q[v].value.ps.Fresh?
    {
      if v == s {
        SelfSecret(s, ls);
      } else {
        NotAboveLeaf(n, v, s);
      }
    }
  }

  lemma OldBoxCovered(p: Pubs, s: nat, next: nat, box: Sealed)
    requires BoxCovered(p, box) && SecretId(box.ps) < next && 1 <= s < |p|
    ensures BoxCovered(CommitPubs(p, s, Fresh(next)), box)
  {
    hide IsAncestor, PathSecret;
    var q := CommitPubs(p, s, Fresh(next));
    forall v: nat | 1 <= v < |p| && q[v] == Some(NodeKey(box.ps))
      ensures KeyBelow(q, v, box.to)
    {
      if IsAncestor(v, s) {
        PathSecretShape(Fresh(next), s, v);
      }
      assert KeyBelow(p, v, box.to);
      var u: nat :| 1 <= u < |p| && p[u] == Some(box.to) && IsAncestor(v, u);
      AncestorLe(v, u);
      OffPath(p, s, Fresh(next), v, u);
    }
  }

  lemma NewBoxCovered(p: Pubs, n: nat, s: nat, next: nat, box: Sealed)
    requires |p| == 2 * n && IsLeaf(n, s) && PubIdsBelow(p, next)
    requires box in Boxes(CommitOf(p, n, s, Fresh(next)).steps)
    ensures BoxCovered(CommitPubs(p, s, Fresh(next)), box)
    ensures KeyId(box.to) < next && SecretId(box.ps) == next
  {
    hide IsAncestor, PathSecret, Resolution;
    var ls := Fresh(next);
    var q := CommitPubs(p, s, ls);
    SelfSecret(s, ls);
    var c, r := BoxesOfSteps(p, n, s, s, ls, box);
    var up := c / 2;
    PathSecretShape(ls, s, up);
    AncestorLe(Sibling(c), r);
    SiblingDisjoint(c, r);
    if IsAncestor(r, s) {
      AncestorTrans(Sibling(c), r, s);
      SiblingDisjoint(c, s);
    }
    CommitPubsAt(p, s, ls, r);
    forall v: nat | 1 <= v < |p| && q[v] == Some(NodeKey(box.ps))
      ensures KeyBelow(q, v, box.to)
    {
      CommitPubsAt(p, s, ls, v);
      if !IsAncestor(v, s) {
        assert false;
      } else if v != up {
        PathSecretsDiffer(ls, s, if v < up then v else up, if v < up then up else v);
      }
      assert q[r] == Some(box.to);
    }
  }

  /** An atom from before a commit stays exposed, whether the committer is healed or hurt by it. */
  lemma CommitKeepsExposed(p: Pubs, hurt: set<nat>, hurt': set<nat>, s: nat, next: nat, a: Atom)
    requires |p| > 1 && 1 <= s < |p| && Exposed(p, hurt, a) && AtomId(a) < next && hurt - {s} <= hurt'
    ensures Exposed(CommitPubs(p, s, Fresh(next)), hurt', a)
  {
    hide IsAncestor, PathSecret;
    var q := CommitPubs(p, s, Fresh(next));
    forall v: nat | 1 <= v < |p| && q[v].Some? && KeyId(q[v].value) < next
      ensures q[v] == p[v] && (Touched(hurt, v) ==> Touched(hurt', v))
    {
      CommitPubsAt(p, s, Fresh(next), v);
      if IsAncestor(v, s) {
        PathSecretShape(Fresh(next), s, v);
      }
      if Touched(hurt, v) {
        var c :| c in hurt && IsAncestor(v, c);
        assert c in hurt';
      }
    }
    RootIsAncestor(s);
    CommitPubsAt(p, s, Fresh(next), 1);
    PathSecretShape(Fresh(next), s, 1);
  }

  /** After a commit, the secret of a path node is known if a compromised leaf lies below it. */
  lemma SecretReached(w: World, w': World, s: nat, v: nat, c: nat)
    requires Guarded(w) && s in w.g.members && c in w.g.members && c in w.hurt + {s}
    requires c == s ==> ASecret(Fresh(w.next)) in w'.given
    requires w.given <= w'.given
    requires w.traffic + Boxes(CommitOf(w.g.pubs, w.g.n, s, Fresh(w.next)).steps) <= w'.traffic
    requires v >= 1 && IsAncestor(v, s) && IsAncestor(v, c)
    ensures Known(ASecret(PathSecret(Fresh(w.next), s, v)), w'.given, w'.traffic)
  {
    hide Sync, IdsBelow, Chained, DistinctKeys, BoxCovered, Known, Yields, PathSecret, IsAncestor, Resolution, Boxes;
    GuardedFacts(w);
    var (p, n, ls) := (w.g.pubs, w.g.n, Fresh(w.next));
    SelfSecret(s, ls);
    if c == s {
      KnownGiven(ASecret(ls), w'.given, w'.traffic);
      AncestorLe(v, s);
      KnownUpwards(ls, s, s, v, w'.given, w'.traffic);
    } else {
      NotAboveLeaf(n, s, c);
      var k, r := BoxFor(p, n, s, s, ls, c);
      assert Touched(w.hurt, r);
      KnownMore(APriv(p[r].value), w.given, w.traffic, w'.given, w'.traffic);
      PathSecretParent(ls, s, k);
      KnownOpens(Sealed(p[r].value, PathSecret(ls, s, k / 2)), w'.given, w'.traffic);
      KnownUpwards(ls, s, k / 2, v, w'.given, w'.traffic);
    }
  }

  lemma CommitGuarded(w: World, e: Event)
    requires Guarded(w) && Enabled(w, e) && (e.HonestCommit? || e.LeakyCommit?)
    ensures Guarded(Happens(w, e))
  {
    hide IsAncestor, PathSecret, Known, Sync, CommitOf, Boxes, CommitPubs, InStep, Happens, Apply;
    GuardedFacts(w);
    var (p, n, s, next) := (w.g.pubs, w.g.n, e.leaf, w.next);
    CommitParts(w, e);
    var w' := Happens(w, e);
    CommitDistinct(p, s, next);
    CommitChained(p, n, s, next);
    forall b | b in w'.traffic
      ensures BoxCovered(w'.g.pubs, b) && KeyId(b.to) < next + 1 && SecretId(b.ps) < next + 1
    {
      if b in w.traffic {
        OldBoxCovered(p, s, next, b);
      } else {
        NewBoxCovered(p, n, s, next, b);
      }
    }
    forall a | a in w'.given
      ensures Exposed(w'.g.pubs, w'.hurt, a) && AtomId(a) < next + 1
    {
      if a in w.given {
        CommitKeepsExposed(p, w.hurt, w'.hurt, s, next, a);
      } else {
        LeakExposed(p, s, next, w'.hurt);
      }
    }
    forall v: nat | 1 <= v < |p| && w'.g.pubs[v].Some? && Touched(w'.hurt, v)
      ensures Known(APriv(w'.g.pubs[v].value), w'.given, w'.traffic)
    {
      CommitPubsAt(p, s, Fresh(next), v);
      var c :| c in w'.hurt && IsAncestor(v, c);
      if IsAncestor(v, s) {
        SecretReached(w, w', s, v, c);
        KnownHashes(PathSecret(Fresh(next), s, v), w'.given, w'.traffic);
      } else {
        assert c in w.hurt;
        KnownMore(APriv(p[v].value), w.given, w.traffic, w'.given, w'.traffic);
      }
    }
    RootIsAncestor(s);
    PathSecretShape(Fresh(next), s, 1);
  }

  /** The parts of the state a commit leads to. */
  lemma CommitParts(w: World, e: Event)
    requires Guarded(w) && Enabled(w, e) && (e.HonestCommit? || e.LeakyCommit?)
    ensures var w' := Happens(w, e);
            && w'.g.n == w.g.n && w'.g.pubs == CommitPubs(w.g.pubs, e.leaf, Fresh(w.next))
            && w'.g.members.Keys == w.g.members.Keys
            && Sync(w'.g) && e.leaf in w.g.members && |w.g.pubs| > 1 && w'.next == w.next + 1
            && w'.hurt == (if e.HonestCommit? then w.hurt - {e.leaf} else w.hurt + {e.leaf})
            && w'.given == (if e.HonestCommit? then w.given else w.given + {ASecret(Fresh(w.next))})
            && w'.traffic == w.traffic + Boxes(CommitOf(w.g.pubs, w.g.n, e.leaf, Fresh(w.next)).steps)
            && IsAncestor(1, e.leaf) && w'.g.root == Some(RootOf(PathSecret(Fresh(w.next), e.leaf, 1)))
  {
    hide Guarded, Sync, InStep, Apply, IsAncestor, PathSecret, CommitPubs, CommitOf, Boxes;
    GuardedFacts(w);
    ApplyKeepsSync(w.g, OpOf(w, e).value);
    ApplyCommitParts(w.g, e.leaf, Fresh(w.next));
  }

  lemma ApplyCommitParts(g: Group, s: nat, ls: Secret)
    requires Sync(g) && s in g.members
    ensures var g' := Apply(g, Commits(s, ls));
            && g'.n == g.n && g'.pubs == CommitPubs(g.pubs, s, ls) && g'.members.Keys == g.members.Keys
            && IsAncestor(1, s) && g'.root == Some(RootOf(PathSecret(ls, s, 1)))
  {
    hide InStep, PathSecret, CommitPubs, CommitOf, PubsOf;
    RootIsAncestor(s);
  }

  lemma LeakExposed(p: Pubs, s: nat, next: nat, hurt: set<nat>)
    requires |p| > 1 && 1 <= s < |p| && s in hurt && PubIdsBelow(p, next)
    ensures Exposed(CommitPubs(p, s, Fresh(next)), hurt, ASecret(Fresh(next)))
  {
    hide PathSecret;
    var q := CommitPubs(p, s, Fresh(next));
    forall v: nat | 1 <= v < |p| && q[v] == Some(NodeKey(Fresh(next)))
      ensures Touched(hurt, v)
    {
      if !IsAncestor(v, s) {
        assert false;
      }
    }
  }

  // ---------------------------------------------------------------------------
  // Removals, joins and compromises keep the invariant
  // ---------------------------------------------------------------------------

  lemma BlankPubsAt(p: Pubs, n: nat, leaf: nat, k: Option<Key>, v: nat)
    requires |p| == 2 * n && IsLeaf(n, leaf) && 1 <= v < 2 * n
    ensures BlankPubs(p, leaf, k)[v] == if v == leaf then k else if IsAncestor(v, leaf) then None else p[v]
  {
    AncestorLe(v, leaf);
  }

  /** What blanking a path, and possibly seating a fresh key, does to the tree's invariants. */
  lemma BlankStructure(p: Pubs, n: nat, leaf: nat, k: Option<Key>, next: nat)
    requires |p| == 2 * n && IsLeaf(n, leaf) && DistinctKeys(p) && Chained(p, n) && PubIdsBelow(p, next)
    requires k.Some? ==> k.value == LeafKey(next)
    ensures var q := BlankPubs(p, leaf, k);
            DistinctKeys(q) && Chained(q, n) && PubIdsBelow(q, next + 1)
  {
    hide IsAncestor, BlankPubs;
    var q := BlankPubs(p, leaf, k);
    forall v | 1 <= v < 2 * n
      ensures q[v] == if v == leaf then k else if IsAncestor(v, leaf) then None else p[v]
    {
      BlankPubsAt(p, n, leaf, k, v);
    }
    forall v | 1 <= v < n && q[v].Some?
      ensures q[2 * v] == p[2 * v] && q[2 * v + 1] == p[2 * v + 1]
    {
      AncestorChildren(v, leaf);
      SelfSecret(leaf, Fresh(0));
    }
  }

  lemma BlankKeepsBox(p: Pubs, n: nat, leaf: nat, k: Option<Key>, box: Sealed)
    requires |p| == 2 * n && IsLeaf(n, leaf) && BoxCovered(p, box)
    requires k.Some? ==> k.value.LeafKey?
    ensures BoxCovered(BlankPubs(p, leaf, k), box)
  {
    hide IsAncestor, BlankPubs;
    var q := BlankPubs(p, leaf, k);
    forall v: nat | 1 <= v < |q| && q[v] == Some(NodeKey(box.ps))
      ensures KeyBelow(q, v, box.to)
    {
      BlankPubsAt(p, n, leaf, k, v);
      assert KeyBelow(p, v, box.to);
      var u: nat :| 1 <= u < |p| && p[u] == Some(box.to) && IsAncestor(v, u);
      BlankPubsAt(p, n, leaf, k, u);
      SelfSecret(leaf, Fresh(0));
      if IsAncestor(u, leaf) {
        AncestorTrans(v, u, leaf);
      }
    }
  }

  lemma BlankKeepsExposed(p: Pubs, n: nat, leaf: nat, k: Option<Key>, hurt: set<nat>, hurt': set<nat>, next: nat, a: Atom)
    requires |p| == 2 * n > 1 && IsLeaf(n, leaf) && Exposed(p, hurt, a) && AtomId(a) < next && hurt - {leaf} <= hurt'
    requires k.Some? ==> k.value == LeafKey(next)
    ensures Exposed(BlankPubs(p, leaf, k), hurt', a)
  {
    hide IsAncestor, BlankPubs;
    var q := BlankPubs(p, leaf, k);
    forall v: nat | 1 <= v < |p| && q[v].Some? && q[v] != Some(LeafKey(next))
      ensures q[v] == p[v] && (Touched(hurt, v) ==> Touched(hurt', v))
    {
      BlankPubsAt(p, n, leaf, k, v);
      if Touched(hurt, v) {
        var c :| c in hurt && IsAncestor(v, c);
        assert c in hurt';
      }
    }
  }

  lemma BlankReached(w: World, w': World, leaf: nat, k: Option<Key>)
    requires Guarded(w) && IsLeaf(w.g.n, leaf) && w'.g.pubs == BlankPubs(w.g.pubs, leaf, k)
    requires w'.hurt <= w.hurt + {leaf} && w.given <= w'.given && w.traffic <= w'.traffic
    requires k.Some? && leaf in w'.hurt ==> APriv(k.value) in w'.given
    ensures Reached(w'.g.pubs, w')
  {
    hide IsAncestor, BlankPubs, Known, Sync;
    GuardedFacts(w);
    var p := w.g.pubs;
    forall v: nat | 1 <= v < |p| && w'.g.pubs[v].Some? && Touched(w'.hurt, v)
      ensures Known(APriv(w'.g.pubs[v].value), w'.given, w'.traffic)
    {
      BlankPubsAt(p, w.g.n, leaf, k, v);
      var c :| c in w'.hurt && IsAncestor(v, c);
      if v == leaf {
        if c != leaf {
          NotAboveLeaf(w.g.n, leaf, c);
        }
        KnownGiven(APriv(k.value), w'.given, w'.traffic);
      } else {
        assert c in w.hurt;
        KnownMore(APriv(p[v].value), w.given, w.traffic, w'.given, w'.traffic);
      }
    }
  }

  lemma BlankGuarded(w: World, e: Event)
    requires Guarded(w) && Enabled(w, e) && (e.Remove? || e.Join?)
    ensures Guarded(Happens(w, e))
  {
    hide IsAncestor, Known, Sync, BlankPubs, InStep, Reached;
    GuardedFacts(w);
    var (p, n, leaf, next) := (w.g.pubs, w.g.n, e.leaf, w.next);
    var k := if e.Join? then Some(LeafKey(next)) else None;
    ApplyKeepsSync(w.g, OpOf(w, e).value);
    var w' := Happens(w, e);
    BlankStructure(p, n, leaf, k, next);
    assert e.Remove? ==> PubIdsBelow(w'.g.pubs, next) by {
      hide DistinctKeys, Chained;
      RemoveIds(p, n, leaf, next);
    }
    forall b | b in w'.traffic
      ensures BoxCovered(w'.g.pubs, b)
    {
      BlankKeepsBox(p, n, leaf, k, b);
    }
    forall a | a in w'.given
      ensures Exposed(w'.g.pubs, w'.hurt, a) && AtomId(a) < next + 1
    {
      if a in w.given {
        BlankKeepsExposed(p, n, leaf, k, w.hurt, w'.hurt, next, a);
      } else {
        JoinExposed(p, n, leaf, next, w'.hurt);
      }
    }
    BlankReached(w, w', leaf, k);
  }

  lemma RemoveIds(p: Pubs, n: nat, leaf: nat, next: nat)
    requires |p| == 2 * n && IsLeaf(n, leaf) && PubIdsBelow(p, next)
    ensures PubIdsBelow(BlankPubs(p, leaf, None), next)
  {
  }

  lemma JoinExposed(p: Pubs, n: nat, leaf: nat, next: nat, hurt: set<nat>)
    requires |p| == 2 * n > 1 && IsLeaf(n, leaf) && leaf in hurt && PubIdsBelow(p, next)
    ensures Exposed(BlankPubs(p, leaf, Some(LeafKey(next))), hurt, APriv(LeafKey(next)))
  {
    var q := BlankPubs(p, leaf, Some(LeafKey(next)));
    forall v: nat | 1 <= v < |p| && q[v] == Some(LeafKey(next))
      ensures Touched(hurt, v)
    {
      if v != leaf {
        assert false;
      }
      SelfSecret(leaf, Fresh(0));
    }
  }

  /** A snapshot reveals exactly the keys of the member's own path, and a root secret. */
  lemma CompromiseGuarded(w: World, m: nat)
    requires Guarded(w) && m in w.g.members
    ensures Guarded(Happens(w, Compromise(m)))
  {
    hide IsAncestor, Known, Sync, Chained, DistinctKeys, Reached, Exposed, BoxCovered, InStep;
    GuardedFacts(w);
    var p := w.g.pubs;
    var w' := Happens(w, Compromise(m));
    forall a | a in w'.given
      ensures Exposed(p, w'.hurt, a) && AtomId(a) < w.next
    {
      if a in w.given {
        MoreHurt(p, w.hurt, w'.hurt, a);
      } else {
        SnapshotExposed(w, m, a);
      }
    }
    SnapshotReached(w, m);
  }

  lemma SnapshotReached(w: World, m: nat)
    requires Guarded(w) && m in w.g.members
    ensures Reached(w.g.pubs, Happens(w, Compromise(m)))
  {
    hide IsAncestor, Known, Sync, Chained, DistinctKeys, IdsBelow, Exposed, BoxCovered;
    GuardedFacts(w);
    var p := w.g.pubs;
    var w' := Happens(w, Compromise(m));
    forall v: nat | 1 <= v < |p| && p[v].Some? && Touched(w'.hurt, v)
      ensures Known(APriv(p[v].value), w'.given, w'.traffic)
    {
      var c :| c in w'.hurt && IsAncestor(v, c);
      if c == m {
        assert w.g.members[m].tree[v].priv == p[v];
        KnownGiven(APriv(p[v].value), w'.given, w'.traffic);
      } else {
        assert Touched(w.hurt, v);
        KnownMore(APriv(p[v].value), w.given, w.traffic, w'.given, w'.traffic);
      }
    }
  }

  lemma MoreHurt(p: Pubs, hurt: set<nat>, hurt': set<nat>, a: Atom)
    requires |p| > 1 && hurt <= hurt' && Exposed(p, hurt, a)
    ensures Exposed(p, hurt', a)
  {
    forall v: nat | Touched(hurt, v)
      ensures Touched(hurt', v)
    {
      var c :| c in hurt && IsAncestor(v, c);
      assert c in hurt';
    }
  }

  lemma SnapshotExposed(w: World, m: nat, a: Atom)
    requires Guarded(w) && m in w.g.members && a in Snapshot(w.g.members[m])
    ensures |w.g.pubs| > 1 && Exposed(w.g.pubs, w.hurt + {m}, a) && AtomId(a) < w.next
  {
    hide IsAncestor, Known, Sync, Chained, Reached;
    GuardedFacts(w);
    var (p, n, view) := (w.g.pubs, w.g.n, w.g.members[m]);
    RootIsAncestor(m);
    if a.APriv? {
      var v :| 1 <= v < |view.tree| && view.tree[v].priv == Some(a.k);
      assert p[v] == Some(a.k) && IsAncestor(v, m);
    }
  }

  // ---------------------------------------------------------------------------
  // Runs
  // ---------------------------------------------------------------------------

  lemma HappensGuarded(w: World, e: Event)
    requires Guarded(w) && Enabled(w, e)
    ensures Guarded(Happens(w, e))
  {
    hide Guarded, Happens;
    GuardedFacts(w);
    match e
    case HonestCommit(_) => CommitGuarded(w, e);
    case LeakyCommit(_) => CommitGuarded(w, e);
    case Compromise(m) => CompromiseGuarded(w, m);
    case Remove(_) => BlankGuarded(w, e);
    case Join(_, _) => BlankGuarded(w, e);
  }

  /** The state after a run, if every event of it is enabled. */
  function Runs(w: World, events: seq<Event>): Option<World>
    requires Sync(w.g)
    decreases |events|
  {
    if events == [] then Some(w)
    else if !Enabled(w, events[0]) then None
    else
      assert Sync(Happens(w, events[0]).g) by {
        if !events[0].Compromise? {
          ApplyKeepsSync(w.g, OpOf(w, events[0]).value);
        }
      }
      Runs(Happens(w, events[0]), events[1..])
  }

  function FirstKeys(n: nat): seq<Key>
  {
    seq(n, i requires 0 <= i < n => LeafKey(i))
  }

  /** A fresh group of n members with independent leaf keys, and an attacker that knows nothing. */
  function StartWorld(n: nat): World
    requires ValidSize(n)
  {
    World(Start(n, FirstKeys(n)), {}, {}, {}, n)
  }

  lemma StartGuarded(n: nat)
    requires ValidSize(n)
    ensures Guarded(StartWorld(n))
  {
    hide Sync, InStep, IsAncestor, Known;
    StartInSync(n, FirstKeys(n));
  }

  /** The invariant holds in every state of every run, so KeyKnownIff does too. */
  lemma {:induction false} RunGuarded(w: World, events: seq<Event>)
    requires Guarded(w) && Runs(w, events).Some?
    ensures Guarded(Runs(w, events).value)
    decreases |events|
  {
    hide Guarded, Happens, Sync;
    GuardedFacts(w);
    if events != [] {
      HappensGuarded(w, events[0]);
      GuardedFacts(Happens(w, events[0]));
      RunGuarded(Happens(w, events[0]), events[1..]);
    }
  }

  /** The root secret of a commit is known right after it exactly if some leaf is still compromised:
      an honest commit heals its own leaf, a leaky one hurts it. */
  lemma RootKnownIff(w: World, e: Event)
    requires Guarded(w) && Enabled(w, e) && (e.HonestCommit? || e.LeakyCommit?)
    ensures var w' := Happens(w, e);
            w'.g.root.Some? && (Known(ARoot(w'.g.root.value), w'.given, w'.traffic) <==> w'.hurt != {})
  {
    hide Guarded, Happens, Known, PathSecret, IsAncestor, CommitPubs;
    GuardedFacts(w);
    CommitGuarded(w, e);
    var w' := Happens(w, e);
    GuardedFacts(w');
    CommitParts(w, e);
    CommitPubsAt(w.g.pubs, e.leaf, Fresh(w.next), 1);
    RootKnownOnlyIfHurt(w');
    if w'.hurt != {} {
      RootKnownIfHurt(w, e);
    }
  }

  lemma RootKnownIfHurt(w: World, e: Event)
    requires Guarded(w) && Enabled(w, e) && (e.HonestCommit? || e.LeakyCommit?)
    requires Happens(w, e).hurt != {}
    ensures var w' := Happens(w, e);
            w'.g.root.Some? && Known(ARoot(w'.g.root.value), w'.given, w'.traffic)
  {
    hide Guarded, Sync, InStep, Happens, Enabled, Known, PathSecret, IsAncestor, CommitPubs, CommitOf, Boxes;
    GuardedFacts(w);
    CommitParts(w, e);
    var w' := Happens(w, e);
    var c :| c in w'.hurt;
    RootIsAncestor(c);
    SecretReached(w, w', e.leaf, 1, c);
    KnownHashes(w'.g.root.value.ps, w'.given, w'.traffic);
  }

  lemma RootKnownOnlyIfHurt(w: World)
    requires Guarded(w) && |w.g.pubs| > 1
    requires w.g.root.Some? && w.g.pubs[1] == Some(NodeKey(w.g.root.value.ps))
    ensures Known(ARoot(w.g.root.value), w.given, w.traffic) ==> w.hurt != {}
  {
    hide Guarded;
    var a := ARoot(w.g.root.value);
    if Known(a, w.given, w.traffic) {
      var d :| Yields(d, w.given, w.traffic) == Some(a);
      OnlyExposed(w, d);
    }
  }

  /** Later events other than snapshots give the attacker nothing about what existed before. */
  ghost predicate NothingOld(w: World, w': World, bound: nat)
  {
    && (forall a :: a in w'.given && a !in w.given ==> AtomId(a) >= bound)
    && (forall b :: b in w'.traffic && b !in w.traffic ==> SecretId(b.ps) >= bound)
    && w.given <= w'.given && w.traffic <= w'.traffic
  }

  lemma {:induction false} NothingNewAboutOld(w: World, w': World, bound: nat, d: Attack)
    requires NothingOld(w, w', bound)
    requires forall b :: b in w.traffic ==> KeyId(b.to) < bound
    requires Yields(d, w'.given, w'.traffic).Some? && AtomId(Yields(d, w'.given, w'.traffic).value) < bound
    ensures Yields(d, w.given, w.traffic) == Yields(d, w'.given, w'.traffic)
    decreases d
  {
    match d
    case Given(a) =>
    case HashPath(e) => NothingNewAboutOld(w, w', bound, e);
    case HashNode(e) => NothingNewAboutOld(w, w', bound, e);
    case HashRoot(e) => NothingNewAboutOld(w, w', bound, e);
    case OpenBox(e, box) => NothingNewAboutOld(w, w', bound, e);
  }

  /** The members that renewed their keys: by a commit of their own, or by joining. */
  function Renew(renewed: set<nat>, e: Event): set<nat>
  {
    match e
    case HonestCommit(s) => renewed + {s}
    case LeakyCommit(s) => renewed + {s}
    case Join(leaf, _) => renewed + {leaf}
    case Remove(_) => renewed
    case Compromise(_) => renewed
  }

  /** Only members that renewed their keys before leak their state. */
  predicate OnlyRenewedLeak(renewed: set<nat>, events: seq<Event>)
    decreases |events|
  {
    events == [] ||
    ((events[0].Compromise? ==> events[0].leaf in renewed) && OnlyRenewedLeak(Renew(renewed, events[0]), events[1..]))
  }

  /** All keys on the path of m, and the root secret m holds, are from `bound` on. */
  ghost predicate NewSince(w: World, m: nat, bound: nat)
  {
    && (forall v: nat :: 1 <= v < |w.g.pubs| && IsAncestor(v, m) && w.g.pubs[v].Some? ==> KeyId(w.g.pubs[v].value) >= bound)
    && (m in w.g.members && w.g.members[m].root.Some? ==> SecretId(w.g.members[m].root.value.ps) >= bound)
  }

  /** A commit renews the committer, and nobody's keys get older. */
  lemma CommitRenews(w: World, e: Event, m: nat, bound: nat)
    requires Guarded(w) && Enabled(w, e) && (e.HonestCommit? || e.LeakyCommit?) && bound <= w.next
    requires m in w.g.members && (m == e.leaf || NewSince(w, m, bound))
    ensures NewSince(Happens(w, e), m, bound)
  {
    hide Guarded, Sync, InStep, IsAncestor, CommitPubs, PathSecret, CommitOf, Boxes;
    GuardedFacts(w);
    CommitParts(w, e);
    var w' := Happens(w, e);
    CommitRoots(w, e);
    PathSecretShape(Fresh(w.next), e.leaf, 1);
    forall v: nat | 1 <= v < |w.g.pubs| && IsAncestor(v, m) && w'.g.pubs[v].Some?
      ensures KeyId(w'.g.pubs[v].value) >= bound
    {
      CommitPubsAt(w.g.pubs, e.leaf, Fresh(w.next), v);
      if IsAncestor(v, e.leaf) {
        PathSecretShape(Fresh(w.next), e.leaf, v);
      }
    }
  }

  lemma CommitRoots(w: World, e: Event)
    requires Guarded(w) && Enabled(w, e) && (e.HonestCommit? || e.LeakyCommit?)
    ensures var w' := Happens(w, e); forall m :: m in w'.g.members ==> w'.g.members[m].root == w'.g.root
  {
    hide Guarded, Sync, Apply, CommitOf, Boxes, CanApply;
    GuardedFacts(w);
    ApplyKeepsSync(w.g, Commits(e.leaf, Fresh(w.next)));
  }

  lemma SeatRenews(w: World, e: Event, m: nat, bound: nat)
    requires Guarded(w) && Enabled(w, e) && (e.Remove? || e.Join?) && bound <= w.next
    requires m in Happens(w, e).g.members && ((e.Join? && m == e.leaf) || (m in w.g.members && NewSince(w, m, bound)))
    ensures NewSince(Happens(w, e), m, bound)
  {
    hide Guarded, Sync, InStep, IsAncestor, BlankPubs;
    GuardedFacts(w);
    var w' := Happens(w, e);
    var k := if e.Join? then Some(LeafKey(w.next)) else None;
    SeatRoots(w, e, m);
    forall v: nat | 1 <= v < |w'.g.pubs| && IsAncestor(v, m) && w'.g.pubs[v].Some?
      ensures KeyId(w'.g.pubs[v].value) >= bound
    {
      BlankPubsAt(w.g.pubs, w.g.n, e.leaf, k, v);
    }
  }

  /** Nobody's root secret changes by a removal or an addition; a joiner has none. */
  lemma SeatRoots(w: World, e: Event, m: nat)
    requires Guarded(w) && Enabled(w, e) && (e.Remove? || e.Join?) && m in Happens(w, e).g.members
    ensures |Happens(w, e).g.pubs| == |w.g.pubs|
    ensures var w' := Happens(w, e);
      w'.g.members[m].root.Some? ==> m in w.g.members && w'.g.members[m].root == w.g.members[m].root
    ensures e.Join? && m == e.leaf ==> Happens(w, e).g.members[m].root == None
  {
    hide Guarded, InStep, BlankPubs, BlankLeafView, AddLeafView, ImportView;
    GuardedFacts(w);
    if m in w.g.members {
      InStepFacts(w.g.members[m], w.g.n, w.g.pubs, m);
      BlankKeepsRoot(w.g.members[m], e.leaf);
      if e.Join? {
        AddKeepsRoot(w.g.members[m], e.leaf, LeafKey(w.next));
      }
    }
    if e.Join? {
      ImportHasNoRoot(BlankPubs(w.g.pubs, e.leaf, Some(LeafKey(w.next))), w.g.n, e.leaf, LeafKey(w.next));
    }
  }

  /** What a renewed member's state holds is all new. */
  lemma SnapshotNew(w: World, m: nat, bound: nat, a: Atom)
    requires Guarded(w) && m in w.g.members && NewSince(w, m, bound) && a in Snapshot(w.g.members[m])
    ensures AtomId(a) >= bound
  {
    hide Guarded, Sync, IsAncestor;
    GuardedFacts(w);
  }

  lemma StepRenews(w: World, e: Event, renewed: set<nat>, bound: nat)
    requires Guarded(w) && Enabled(w, e) && bound <= w.next && Sync(w.g)
    requires forall m :: m in renewed && m in w.g.members ==> NewSince(w, m, bound)
    ensures forall m :: m in Renew(renewed, e) && m in Happens(w, e).g.members ==> NewSince(Happens(w, e), m, bound)
  {
    hide Guarded, Sync, NewSince;
    MembersAfter(w, e);
    forall m | m in Renew(renewed, e) && m in Happens(w, e).g.members
      ensures NewSince(Happens(w, e), m, bound)
    {
      if e.HonestCommit? || e.LeakyCommit? {
        CommitRenews(w, e, m, bound);
      } else if e.Remove? || e.Join? {
        SeatRenews(w, e, m, bound);
      } else {
        SameGroup(w, e, m, bound);
      }
    }
  }

  lemma MembersAfter(w: World, e: Event)
    requires Guarded(w) && Enabled(w, e) && Sync(w.g)
    ensures forall m :: m in Happens(w, e).g.members ==> m in w.g.members || (e.Join? && m == e.leaf)
  {
    hide Guarded, Sync;
  }

  lemma SameGroup(w: World, e: Event, m: nat, bound: nat)
    requires Guarded(w) && Enabled(w, e) && Sync(w.g) && e.Compromise? && NewSince(w, m, bound)
    ensures NewSince(Happens(w, e), m, bound)
  {
    hide Guarded, Sync, IsAncestor;
  }

  /** A run in which only renewed members leak their state reveals nothing from before it. */
  lemma {:induction false} RunNothingOld(w: World, events: seq<Event>, bound: nat, renewed: set<nat>)
    requires Guarded(w) && Runs(w, events).Some? && bound <= w.next
    requires forall m :: m in renewed && m in w.g.members ==> NewSince(w, m, bound)
    requires OnlyRenewedLeak(renewed, events)
    ensures NothingOld(w, Runs(w, events).value, bound)
    decreases |events|
  {
    hide Sync, Guarded, Happens, AtomId, SecretId, NewSince;
    GuardedFacts(w);
    if events != [] {
      var w1 := Happens(w, events[0]);
      HappensGuarded(w, events[0]);
      GuardedFacts(w1);
      OneEventNothingOld(w, events[0], bound);
      StepRenews(w, events[0], renewed, bound);
      RunNothingOld(w1, events[1..], bound, Renew(renewed, events[0]));
    }
  }

  lemma GuardedIds(w: World)
    requires Guarded(w)
    ensures PubIdsBelow(w.g.pubs, w.next) && DistinctKeys(w.g.pubs) && Sync(w.g) && Chained(w.g.pubs, w.g.n)
    ensures forall b :: b in w.traffic ==> KeyId(b.to) < w.next && SecretId(b.ps) < w.next
    ensures forall a :: a in w.given ==> AtomId(a) < w.next
  {
  }

  /** An event adds boxes of new secrets, and atoms that are new or come from a leak. */
  lemma HappensGrows(w: World, e: Event)
    requires Guarded(w) && Enabled(w, e)
    ensures var w' := Happens(w, e);
      && w.given <= w'.given && w.traffic <= w'.traffic
      && (forall b :: b in w'.traffic && b !in w.traffic ==> SecretId(b.ps) >= w.next)
      && (forall a :: a in w'.given && a !in w.given && AtomId(a) < w.next ==>
            e.Compromise? && a in Snapshot(w.g.members[e.leaf]))
  {
    hide Guarded, Sync, IsAncestor, CommitPubs, BlankPubs, CommitOf, Boxes, Snapshot;
    GuardedFacts(w);
    GuardedIds(w);
    if e.HonestCommit? || e.LeakyCommit? {
      forall b | b in Boxes(CommitOf(w.g.pubs, w.g.n, e.leaf, Fresh(w.next)).steps)
        ensures SecretId(b.ps) >= w.next
      {
        NewBoxCovered(w.g.pubs, w.g.n, e.leaf, w.next, b);
      }
    }
  }

  lemma NextGrows(w: World, e: Event)
    requires Sync(w.g) && Enabled(w, e)
    ensures w.next <= Happens(w, e).next
  {
    hide Sync;
  }

  lemma OneEventNothingOld(w: World, e: Event, bound: nat)
    requires Guarded(w) && Sync(w.g) && Enabled(w, e) && bound <= w.next
    requires e.Compromise? ==> NewSince(w, e.leaf, bound)
    ensures NothingOld(w, Happens(w, e), bound) && Happens(w, e).next >= w.next
  {
    hide Guarded, Sync, Happens, Snapshot, NewSince;
    HappensGrows(w, e);
    NextGrows(w, e);
    forall a | a in Happens(w, e).given && a !in w.given
      ensures AtomId(a) >= bound
    {
      if AtomId(a) < bound {
        SnapshotNew(w, e.leaf, bound, a);
      }
    }
  }

  /** Renewal is needed: a member that leaks its state right after the commit gives its root away. */
  lemma LeakBeforeRenewal(w: World, e: Event, m: nat)
    requires Guarded(w) && Enabled(w, e) && (e.HonestCommit? || e.LeakyCommit?)
    requires Sync(Happens(w, e).g) && m in Happens(w, e).g.members
    ensures var w1 := Happens(w, e);
            var w2 := Happens(w1, Compromise(m));
            w1.g.root.Some? && Known(ARoot(w1.g.root.value), w2.given, w2.traffic)
  {
    hide Guarded, Sync, Apply, CommitOf, Boxes, Known;
    GuardedFacts(w);
    RootKnownIff(w, e);
    CommitRoots(w, e);
    var w1 := Happens(w, e);
    KnownGiven(ARoot(w1.g.root.value), Happens(w1, Compromise(m)).given, w1.traffic);
  }

  predicate Clean(e: Event)
  {
    e.HonestCommit? || e.Remove? || (e.Join? && !e.leaked)
  }

  lemma CleanKeepsHealed(w: World, e: Event)
    requires Sync(w.g) && Enabled(w, e) && Clean(e) && w.hurt == {}
    ensures Happens(w, e).hurt == {}
  {
    hide Sync;
  }

  /** Without further leaks no leaf is compromised again. */
  lemma {:induction false} HurtStaysEmpty(w: World, events: seq<Event>)
    requires Guarded(w) && Sync(w.g) && w.hurt == {} && Runs(w, events).Some?
    requires forall j :: 0 <= j < |events| ==> Clean(events[j])
    ensures Runs(w, events).value.hurt == {}
    decreases |events|
  {
    hide Sync, Guarded, Happens;
    if events != [] {
      HappensGuarded(w, events[0]);
      GuardedFacts(Happens(w, events[0]));
      CleanKeepsHealed(w, events[0]);
      HurtStaysEmpty(Happens(w, events[0]), events[1..]);
    }
  }
}
