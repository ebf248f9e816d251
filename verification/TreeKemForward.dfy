/** Forward secrecy of the root secrets of src/treekem.c, exactly: which members, leaking their state at
    which moment of a run, give the root secret of an earlier commit away. */
module TreeKemForward {
  import opened Common
  import opened TreeMath
  import opened TreeKem
  import opened TreeKemGroup
  import opened TreeKemSecrecy

  // ---------------------------------------------------------------------------
  // How the keys of a tree hang together
  // ---------------------------------------------------------------------------

  /** u is the nearest populated node above the populated node v. */
  ghost predicate Nearest(p: Pubs, u: nat, v: nat)
  {
    && 1 <= u < v < |p| && IsAncestor(u, v) && p[u].Some? && p[v].Some?
    && forall x: nat :: u < x < v && IsAncestor(x, v) ==> p[x].None?
  }

  ghost predicate Older(p: Pubs, v: nat, u: nat)
    requires u < |p| && v < |p| && p[u].Some? && p[v].Some?
  {
    KeyId(p[v].value) < KeyId(p[u].value)
  }

  /** The secret behind the key of u was hashed from that of v, or it is newer and was sealed to v. */
  ghost predicate Link(p: Pubs, traffic: set<Sealed>, u: nat, v: nat)
    requires Nearest(p, u, v)
  {
    var (above, below) := (p[u].value, p[v].value);
    above.NodeKey? &&
    ((below.NodeKey? && above.ps == Next(below.ps)) || (Older(p, v, u) && Sealed(below, above.ps) in traffic))
  }

  ghost predicate SealedUnder(p: Pubs, u: nat, k: Key)
  {
    exists v: nat :: Nearest(p, u, v) && p[v] == Some(k) && Older(p, v, u)
  }

  /** A box whose secret is still in use at a node was sealed to an older key right below that node. */
  ghost predicate Tight(p: Pubs, box: Sealed)
  {
    forall u: nat :: 1 <= u < |p| && p[u] == Some(NodeKey(box.ps)) ==> SealedUnder(p, u, box.to)
  }

  ghost predicate Linked(p: Pubs, traffic: set<Sealed>)
  {
    forall u: nat, v: nat :: Nearest(p, u, v) ==> Link(p, traffic, u, v)
  }

  ghost predicate Woven(p: Pubs, traffic: set<Sealed>)
  {
    Linked(p, traffic) && forall b :: b in traffic ==> Tight(p, b)
  }

  /** Nodes below u unchanged: what is nearest stays so. */
  lemma NearestSame(p: Pubs, q: Pubs, u: nat, v: nat)
    requires |p| == |q| && Nearest(p, u, v)
    requires forall x: nat :: u <= x < |p| && IsAncestor(u, x) ==> q[x] == p[x]
    ensures Nearest(q, u, v)
  {
    hide IsAncestor;
    SelfSecret(u, Fresh(0));
    forall x: nat | u < x < v && IsAncestor(x, v)
      ensures q[x].None?
    {
      AncestorChain(u, x, v);
    }
  }

  /** The resolution of y: the populated nodes below it with nothing populated in between. */
  lemma {:induction false} InResolution(p: Pubs, n: nat, y: nat, v: nat)
    requires |p| == 2 * n && 1 <= y && v < 2 * n && IsAncestor(y, v) && p[v].Some?
    requires forall x: nat :: y <= x < v && IsAncestor(x, v) ==> p[x].None?
    ensures v in Resolution(p, n, y)
    decreases 2 * n - y
  {
    hide Resolution, IsAncestor;
    AncestorLe(y, v);
    ResolutionUnfold(p, n, y);
    if y < v {
      AncestorChildren(y, v);
      SelfSecret(y, Fresh(0));
      assert y < n by {
        AncestorLe(2 * y, v);
        AncestorLe(2 * y + 1, v);
      }
      if IsAncestor(2 * y, v) {
        InResolution(p, n, 2 * y, v);
      } else {
        InResolution(p, n, 2 * y + 1, v);
      }
    }
  }

  lemma {:induction false} ResolutionHighest(p: Pubs, n: nat, y: nat, v: nat)
    requires |p| == 2 * n && 1 <= y && v in Resolution(p, n, y)
    ensures IsAncestor(y, v) && v < 2 * n && p[v].Some?
    ensures forall x: nat :: y <= x < v && IsAncestor(x, v) ==> p[x].None?
    decreases 2 * n - y
  {
    hide Resolution, IsAncestor;
    ResolutionUnfold(p, n, y);
    if p[y].None? {
      var c := if v in Resolution(p, n, 2 * y) then 2 * y else 2 * y + 1;
      ResolutionHighest(p, n, c, v);
      ChildBelow(y);
      AncestorTrans(y, c, v);
      forall x: nat | y <= x < v && IsAncestor(x, v)
        ensures p[x].None?
      {
        if x < c {
          AncestorChain(x, c, v);
          OnlyParentBetween(y, c, x);
        }
      }
    }
  }

  lemma OnlyParentBetween(y: nat, c: nat, x: nat)
    requires 1 <= y <= x < c && c / 2 == y && IsAncestor(x, c)
    ensures x == y
  {
    AncestorLe(x, c / 2);
  }

  /** The nearest populated node above v in a tree with a populated root. */
  lemma {:induction false} NearestAbove(p: Pubs, v: nat, x: nat) returns (u: nat)
    requires 1 <= x < v < |p| && IsAncestor(x, v) && p[v].Some? && p[1].Some?
    requires forall y: nat :: x < y < v && IsAncestor(y, v) ==> p[y].None?
    ensures Nearest(p, u, v)
    decreases x
  {
    hide IsAncestor;
    if p[x].Some? {
      u := x;
    } else {
      ChildBelow(x / 2);
      AncestorTrans(x / 2, x, v);
      forall y: nat | x / 2 < y < v && IsAncestor(y, v)
        ensures p[y].None?
      {
        if y < x {
          AncestorChain(y, x, v);
          OnlyParentBetween(x / 2, x, y);
        }
      }
      u := NearestAbove(p, v, x / 2);
    }
  }

  lemma NearestFrom(p: Pubs, v: nat) returns (u: nat)
    requires 2 <= v < |p| && p[v].Some? && p[1].Some?
    ensures Nearest(p, u, v)
  {
    hide IsAncestor;
    ChildBelow(v / 2);
    forall y: nat | v / 2 < y < v
      ensures !IsAncestor(y, v)
    {
      if IsAncestor(y, v) {
        OnlyParentBetween(v / 2, v, y);
      }
    }
    u := NearestAbove(p, v, v / 2);
  }

  // ---------------------------------------------------------------------------
  // Every event keeps the tree woven
  // ---------------------------------------------------------------------------

  /** Every node of a copath resolution is sent its box. */
  lemma {:induction false} BoxSent(p: Pubs, n: nat, s: nat, child: nat, ls: Secret, c: nat, r: nat)
    requires |p| == 2 * n && 1 <= child < 2 * n && IsAncestor(child, s)
    requires 2 <= c && IsAncestor(c, child) && r in Resolution(p, n, Sibling(c))
    ensures IsAncestor(c / 2, s) && r < 2 * n && p[r].Some?
    ensures Sealed(p[r].value, PathSecret(ls, s, c / 2)) in Boxes(Steps(p, n, child, Next(PathSecret(ls, s, child))))
    decreases child
  {
    hide Resolution, PathSecret, SealTo;
    AncestorLe(c, child);
    PathSecretParent(ls, s, child);
    var ps := Next(PathSecret(ls, s, child));
    var res := Resolution(p, n, Sibling(child));
    var steps := Steps(p, n, child, ps);
    assert steps[0] == Step(Parent(child), NodeKey(ps), SealTo(p, res, ps)) && steps[1..] == Steps(p, n, Parent(child), Next(ps));
    if c == child {
      var i :| 0 <= i < |res| && res[i] == r;
      assert SealTo(p, res, ps)[i].box in EncBoxes(SealTo(p, res, ps));
    } else {
      BoxSent(p, n, s, Parent(child), ls, c, r);
    }
  }

  /** After a commit, v and the nearest node above it are neighbours on the committer's path, or v is in
      a copath resolution, or nothing has changed for them. */
  lemma CommitNearest(p: Pubs, n: nat, s: nat, ls: Secret, u: nat, v: nat) returns (c: nat)
    requires |p| == 2 * n && IsLeaf(n, s) && Nearest(CommitPubs(p, s, ls), u, v)
    ensures IsAncestor(v, s) ==> u == v / 2
    ensures !IsAncestor(v, s) && IsAncestor(u, s) ==>
      c >= 2 && c / 2 == u && IsAncestor(c, s) && v in Resolution(p, n, Sibling(c)) && CommitPubs(p, s, ls)[v] == p[v]
    ensures !IsAncestor(u, s) ==>
      !IsAncestor(v, s) && Nearest(p, u, v) && CommitPubs(p, s, ls)[u] == p[u] && CommitPubs(p, s, ls)[v] == p[v]
  {
    hide IsAncestor, PathSecret, Resolution, CommitPubs;
    var q := CommitPubs(p, s, ls);
    c := 0;
    forall x: nat | 1 <= x < 2 * n
      ensures q[x] == if IsAncestor(x, s) then Some(NodeKey(PathSecret(ls, s, x))) else p[x]
    {
      CommitPubsAt(p, s, ls, x);
    }
    HalfBelow(u, v);
    if IsAncestor(v, s) {
      ChildBelow(v / 2);
      AncestorTrans(v / 2, v, s);
    } else if IsAncestor(u, s) {
      AncestorChildren(u, s);
      AncestorChildren(u, v);
      c := if IsAncestor(2 * u, s) then 2 * u else 2 * u + 1;
      SelfSecret(v, Fresh(0));
      assert !IsAncestor(c, v) by {
        if IsAncestor(c, v) {
          AncestorLe(c, v);
        }
      }
      InResolution(p, n, Sibling(c), v);
    } else {
      forall x: nat | u <= x < 2 * n && IsAncestor(u, x)
        ensures p[x] == q[x]
      {
        OffPath(p, s, ls, u, x);
      }
      SelfSecret(u, Fresh(0));
      OffPath(p, s, ls, u, v);
      NearestSame(q, p, u, v);
    }
  }

  lemma HalfBelow(u: nat, v: nat)
    requires 1 <= u < v && IsAncestor(u, v)
    ensures u <= v / 2 && IsAncestor(u, v / 2)
  {
    AncestorLe(u, v / 2);
  }

  lemma CommitLinked(p: Pubs, n: nat, s: nat, next: nat, traffic: set<Sealed>)
    requires |p| == 2 * n && IsLeaf(n, s) && PubIdsBelow(p, next) && Linked(p, traffic)
    ensures Linked(CommitPubs(p, s, Fresh(next)), traffic + Boxes(CommitOf(p, n, s, Fresh(next)).steps))
  {
    hide IsAncestor, PathSecret, Resolution, Boxes, Steps, CommitPubs;
    var ls := Fresh(next);
    var q := CommitPubs(p, s, ls);
    SelfSecret(s, ls);
    forall u: nat, v: nat | Nearest(q, u, v)
      ensures Link(q, traffic + Boxes(CommitOf(p, n, s, ls).steps), u, v)
    {
      var c := CommitNearest(p, n, s, ls, u, v);
      CommitPubsAt(p, s, ls, u);
      CommitPubsAt(p, s, ls, v);
      if IsAncestor(v, s) {
        PathSecretParent(ls, s, v);
      } else if IsAncestor(u, s) {
        BoxSent(p, n, s, s, ls, c, v);
        PathSecretShape(ls, s, u);
      } else {
        assert Link(p, traffic, u, v);
      }
    }
  }

  lemma CommitTightOld(p: Pubs, n: nat, s: nat, next: nat, box: Sealed)
    requires |p| == 2 * n && IsLeaf(n, s) && Tight(p, box) && SecretId(box.ps) < next
    ensures Tight(CommitPubs(p, s, Fresh(next)), box)
  {
    hide IsAncestor, PathSecret;
    var q := CommitPubs(p, s, Fresh(next));
    forall u: nat | 1 <= u < |q| && q[u] == Some(NodeKey(box.ps))
      ensures SealedUnder(q, u, box.to)
    {
      if IsAncestor(u, s) {
        PathSecretShape(Fresh(next), s, u);
      }
      assert SealedUnder(p, u, box.to);
      var v: nat :| Nearest(p, u, v) && p[v] == Some(box.to) && Older(p, v, u);
      forall x: nat | u <= x < 2 * n && IsAncestor(u, x)
        ensures q[x] == p[x]
      {
        OffPath(p, s, Fresh(next), u, x);
      }
      NearestSame(p, q, u, v);
    }
  }

  lemma CommitTightNew(p: Pubs, n: nat, s: nat, next: nat, box: Sealed)
    requires |p| == 2 * n && IsLeaf(n, s) && PubIdsBelow(p, next)
    requires box in Boxes(CommitOf(p, n, s, Fresh(next)).steps)
    ensures Tight(CommitPubs(p, s, Fresh(next)), box)
  {
    hide IsAncestor, PathSecret, Resolution, CommitPubs;
    var ls := Fresh(next);
    var q := CommitPubs(p, s, ls);
    SelfSecret(s, ls);
    var c, r := BoxesOfSteps(p, n, s, s, ls, box);
    CommitNearestNew(p, n, s, ls, c, r);
    forall u: nat | 1 <= u < |q| && q[u] == Some(NodeKey(box.ps))
      ensures SealedUnder(q, u, box.to)
    {
      CommitPubsAt(p, s, ls, u);
      CommitPubsAt(p, s, ls, c / 2);
      PathSecretShape(ls, s, c / 2);
      if IsAncestor(u, s) && u != c / 2 {
        PathSecretsDiffer(ls, s, if u < c / 2 then u else c / 2, if u < c / 2 then c / 2 else u);
      }
    }
  }

  lemma CommitNearestNew(p: Pubs, n: nat, s: nat, ls: Secret, c: nat, r: nat)
    requires |p| == 2 * n && IsLeaf(n, s) && 2 <= c < 2 * n && IsAncestor(c, s) && IsAncestor(c / 2, s)
    requires r in Resolution(p, n, Sibling(c))
    ensures Nearest(CommitPubs(p, s, ls), c / 2, r) && CommitPubs(p, s, ls)[r] == p[r]
  {
    hide IsAncestor, PathSecret, Resolution, CommitPubs;
    var q := CommitPubs(p, s, ls);
    var (u, y) := (c / 2, Sibling(c));
    ResolutionHighest(p, n, y, r);
    ChildBelow(u);
    AncestorTrans(u, y, r);
    SiblingDisjoint(c, s);
    OffPath(p, s, ls, y, r);
    CommitPubsAt(p, s, ls, u);
    forall x: nat | u < x < r && IsAncestor(x, r)
      ensures q[x].None?
    {
      if x < y {
        AncestorChain(x, y, r);
        OnlyParentBetween(u, y, x);
      }
      AncestorChain(y, x, r);
      OffPath(p, s, ls, y, x);
    }
  }

  /** Blanking a path, and seating a fresh leaf key, leaves no populated node above the leaf. */
  lemma BlankWoven(p: Pubs, n: nat, leaf: nat, k: Option<Key>, traffic: set<Sealed>)
    requires |p| == 2 * n && IsLeaf(n, leaf) && Woven(p, traffic)
    requires k.Some? ==> k.value.LeafKey?
    ensures Woven(BlankPubs(p, leaf, k), traffic)
  {
    hide IsAncestor, BlankPubs;
    var q := BlankPubs(p, leaf, k);
    forall u: nat, v: nat | Nearest(q, u, v)
      ensures Link(q, traffic, u, v)
    {
      HalfBelow(u, v);
      BlankSame(p, n, leaf, k, u);
      NearestSame(q, p, u, v);
      SelfSecret(u, Fresh(0));
      assert Link(p, traffic, u, v);
    }
    forall b, u: nat | b in traffic && 1 <= u < |q| && q[u] == Some(NodeKey(b.ps))
      ensures SealedUnder(q, u, b.to)
    {
      BlankPubsAt(p, n, leaf, k, u);
      BlankSame(p, n, leaf, k, u);
      SelfSecret(u, Fresh(0));
      assert Tight(p, b);
      assert SealedUnder(p, u, b.to);
      var v: nat :| Nearest(p, u, v) && p[v] == Some(b.to) && Older(p, v, u);
      NearestSame(p, q, u, v);
    }
  }

  lemma BlankSame(p: Pubs, n: nat, leaf: nat, k: Option<Key>, u: nat)
    requires |p| == 2 * n && IsLeaf(n, leaf) && 1 <= u < 2 * n && u != leaf && BlankPubs(p, leaf, k)[u].Some?
    ensures forall x: nat :: u <= x < 2 * n && IsAncestor(u, x) ==> BlankPubs(p, leaf, k)[x] == p[x]
  {
    hide IsAncestor, BlankPubs;
    BlankPubsAt(p, n, leaf, k, u);
    forall x: nat | u <= x < 2 * n && IsAncestor(u, x)
      ensures BlankPubs(p, leaf, k)[x] == p[x]
    {
      BlankPubsAt(p, n, leaf, k, x);
      SelfSecret(leaf, Fresh(0));
      if IsAncestor(x, leaf) {
        AncestorTrans(u, x, leaf);
      }
    }
  }

  lemma HappensWoven(w: World, e: Event)
    requires Guarded(w) && Enabled(w, e) && Woven(w.g.pubs, w.traffic)
    ensures Woven(Happens(w, e).g.pubs, Happens(w, e).traffic)
  {
    hide Guarded, Sync, Linked, Tight, CommitOf, CommitPubs, BlankPubs, Boxes, InStep, IsAncestor;
    GuardedFacts(w);
    GuardedIds(w);
    var (p, n) := (w.g.pubs, w.g.n);
    var w' := Happens(w, e);
    if e.HonestCommit? || e.LeakyCommit? {
      CommitParts(w, e);
      CommitLinked(p, n, e.leaf, w.next, w.traffic);
      forall b | b in w'.traffic
        ensures Tight(w'.g.pubs, b)
      {
        if b in w.traffic {
          CommitTightOld(p, n, e.leaf, w.next, b);
        } else {
          CommitTightNew(p, n, e.leaf, w.next, b);
        }
      }
    } else if !e.Compromise? {
      BlankWoven(p, n, e.leaf, if e.Join? then Some(LeafKey(w.next)) else None, w.traffic);
    }
  }

  lemma StartWoven(n: nat)
    requires ValidSize(n)
    ensures Woven(StartWorld(n).g.pubs, {})
  {
    hide IsAncestor;
    var p := StartWorld(n).g.pubs;
    forall u: nat, v: nat
      ensures !Nearest(p, u, v)
    {
      if Nearest(p, u, v) {
        HalfBelow(u, v);
      }
    }
  }

  lemma {:induction false} RunWoven(w: World, events: seq<Event>)
    requires Guarded(w) && Woven(w.g.pubs, w.traffic) && Runs(w, events).Some?
    ensures Woven(Runs(w, events).value.g.pubs, Runs(w, events).value.traffic)
    decreases |events|
  {
    hide Guarded, Happens, Sync, Woven;
    GuardedFacts(w);
    if events != [] {
      HappensGuarded(w, events[0]);
      GuardedFacts(Happens(w, events[0]));
      HappensWoven(w, events[0]);
      RunWoven(Happens(w, events[0]), events[1..]);
    }
  }

  // ---------------------------------------------------------------------------
  // What leads to the root secret
  // ---------------------------------------------------------------------------

  /** The secret above v was sealed to it: the key right above is newer. */
  ghost predicate SealedAbove(p: Pubs, v: nat)
  {
    exists u: nat :: Nearest(p, u, v) && Older(p, v, u)
  }

  /** The atoms from which the root secret of the tree can be derived. */
  ghost predicate Leads(p: Pubs, a: Atom)
    requires |p| > 1
  {
    match a
    case ASecret(ps) => exists v: nat :: 1 <= v < |p| && p[v] == Some(NodeKey(ps))
    case APriv(k) => exists v: nat :: 1 <= v < |p| && p[v] == Some(k) && SealedAbove(p, v)
    case ARoot(r) => p[1] == Some(NodeKey(r.ps))
  }

  /** The one atom a derivation starts from. */
  function Source(d: Attack): Atom
  {
    match d
    case Given(a) => a
    case HashPath(e) => Source(e)
    case HashNode(e) => Source(e)
    case HashRoot(e) => Source(e)
    case OpenBox(e, _) => Source(e)
  }

  lemma {:induction false} SourceSuffices(d: Attack, given: set<Atom>, given': set<Atom>, traffic: set<Sealed>)
    requires Yields(d, given, traffic).Some?
    ensures Source(d) in given
    ensures Source(d) in given' ==> Yields(d, given', traffic) == Yields(d, given, traffic)
    decreases d
  {
    match d
    case Given(a) =>
    case HashPath(e) => SourceSuffices(e, given, given', traffic);
    case HashNode(e) => SourceSuffices(e, given, given', traffic);
    case HashRoot(e) => SourceSuffices(e, given, given', traffic);
    case OpenBox(e, _) => SourceSuffices(e, given, given', traffic);
  }

  /** Only atoms that lead to the root secret derive atoms that do. */
  lemma {:induction false} OnlyLeading(p: Pubs, n: nat, given: set<Atom>, traffic: set<Sealed>, d: Attack)
    requires |p| == 2 * n > 1 && Chained(p, n) && Woven(p, traffic)
    requires Yields(d, given, traffic).Some? && Leads(p, Yields(d, given, traffic).value)
    ensures Leads(p, Source(d))
    decreases d
  {
    hide IsAncestor, Linked;
    var y := Yields(d, given, traffic).value;
    match d
    case Given(a) =>
    case HashPath(e) =>
      var v: nat :| 1 <= v < |p| && p[v] == Some(NodeKey(y.ps));
      assert v < n;
      var c := if p[2 * v] == Some(NodeKey(y.ps.of)) then 2 * v else 2 * v + 1;
      assert p[c] == Some(NodeKey(y.ps.of));
      OnlyLeading(p, n, given, traffic, e);
    case HashNode(e) => OnlyLeading(p, n, given, traffic, e);
    case HashRoot(e) => OnlyLeading(p, n, given, traffic, e);
    case OpenBox(e, box) =>
      var u: nat :| 1 <= u < |p| && p[u] == Some(NodeKey(box.ps));
      assert Tight(p, box);
      assert SealedUnder(p, u, box.to);
      var v: nat :| Nearest(p, u, v) && p[v] == Some(box.to) && Older(p, v, u);
      NearestRange(p, u, v);
      assert SealedAbove(p, v);
      OnlyLeading(p, n, given, traffic, e);
  }

  lemma NearestRange(p: Pubs, u: nat, v: nat)
    requires Nearest(p, u, v)
    ensures 1 <= u < v < |p| && p[u].Some? && p[v].Some? && IsAncestor(u, v)
  {
  }

  /** The secret of a node leads to the secret of the root. */
  lemma {:induction false} SecretClimbs(p: Pubs, given: set<Atom>, traffic: set<Sealed>, v: nat)
    requires Linked(p, traffic) && 1 <= v < |p| && p[1].Some? && p[v].Some? && p[v].value.NodeKey?
    requires Known(ASecret(p[v].value.ps), given, traffic)
    ensures p[1].value.NodeKey? && Known(ASecret(p[1].value.ps), given, traffic)
    decreases v
  {
    hide IsAncestor, Known, Nearest, Linked;
    if v > 1 {
      var u := NearestFrom(p, v);
      NearestRange(p, u, v);
      LinkedAt(p, traffic, u, v);
      KnownHashes(p[v].value.ps, given, traffic);
      if p[u].value.ps != Next(p[v].value.ps) {
        KnownOpens(Sealed(p[v].value, p[u].value.ps), given, traffic);
      }
      SecretClimbs(p, given, traffic, u);
    }
  }

  lemma LinkedAt(p: Pubs, traffic: set<Sealed>, u: nat, v: nat)
    requires Linked(p, traffic) && Nearest(p, u, v)
    ensures Link(p, traffic, u, v)
  {
  }

  lemma LeadingKeyClimbs(p: Pubs, given: set<Atom>, traffic: set<Sealed>, v: nat)
    requires Linked(p, traffic) && 1 <= v < |p| && p[1].Some? && p[v].Some? && SealedAbove(p, v)
    requires Known(APriv(p[v].value), given, traffic)
    ensures p[1].value.NodeKey? && Known(ARoot(RootOf(p[1].value.ps)), given, traffic)
  {
    hide IsAncestor, Known, Linked;
    var u: nat :| Nearest(p, u, v) && Older(p, v, u);
    NearestRange(p, u, v);
    LinkedAt(p, traffic, u, v);
    KnownOpens(Sealed(p[v].value, p[u].value.ps), given, traffic);
    SecretClimbs(p, given, traffic, u);
    KnownHashes(p[1].value.ps, given, traffic);
  }

  // ---------------------------------------------------------------------------
  // Leaks after the commit
  // ---------------------------------------------------------------------------

  /** The keys m drew at its last renewal that the tree p holds are all still there in q. */
  ghost predicate OwnKeysKept(p: Pubs, q: Pubs, m: nat)
    requires |p| == |q| && m < |p| && p[m].Some?
  {
    forall v: nat :: 1 <= v <= m && IsAncestor(v, m) && p[v].Some? && KeyId(p[v].value) == KeyId(p[m].value) ==> q[v] == p[v]
  }

  /** m leaking its state in w gives away the root secret r of the earlier commit that led to p: it still
      stores it, or it had last renewed its keys before that commit and all it drew then is still in use
      where it was after the commit. */
  ghost predicate Tells(w: World, m: nat, p: Pubs, r: Root)
    requires m in w.g.members && |p| == |w.g.pubs| > 1 && m < |p| && p[1].Some?
  {
    || w.g.members[m].root == Some(r)
    || (p[m].Some? && Older(p, m, 1) && OwnKeysKept(p, w.g.pubs, m))
  }

  ghost predicate OlderKept(p: Pubs, q: Pubs, m: nat)
    requires |p| == |q|
  {
    exists v: nat :: 1 <= v < |p| && IsAncestor(v, m) && p[v].Some? && q[v] == p[v] && SealedAbove(p, v)
  }

  /** What stays of the tree p in later trees: old keys only where they were, and nothing changes below a
      key that stays. */
  ghost predicate Remains(p: Pubs, q: Pubs, bound: nat)
  {
    && |p| == |q|
    && (forall v: nat :: 1 <= v < |q| && q[v].Some? && KeyId(q[v].value) < bound ==> q[v] == p[v])
    && (forall v: nat, x: nat :: 1 <= v <= x < |q| && q[v].Some? && q[v] == p[v] && IsAncestor(v, x) ==> q[x] == p[x])
  }

  /** Keys get no older on the way up. */
  lemma {:induction false} AgesUp(p: Pubs, traffic: set<Sealed>, u: nat, v: nat)
    requires Linked(p, traffic) && 1 <= u <= v < |p| && IsAncestor(u, v) && p[u].Some? && p[v].Some? && p[1].Some?
    ensures KeyId(p[v].value) <= KeyId(p[u].value)
    decreases v
  {
    hide IsAncestor, Nearest, Linked;
    if u < v {
      var x := NearestFrom(p, v);
      NearestRange(p, x, v);
      LinkedAt(p, traffic, x, v);
      NearestStops(p, x, v, u);
      AncestorChain(u, x, v);
      AgesUp(p, traffic, u, x);
    }
  }

  lemma NearestStops(p: Pubs, x: nat, v: nat, u: nat)
    requires Nearest(p, x, v) && u < v && IsAncestor(u, v) && p[u].Some?
    ensures u <= x
  {
    hide IsAncestor;
  }

  /** Going up from a key of m's own renewal, one reaches the key to which the next secret was sealed. */
  lemma {:induction false} OwnTop(p: Pubs, traffic: set<Sealed>, m: nat, v: nat) returns (t: nat)
    requires Linked(p, traffic) && 1 <= v <= m < |p| && IsAncestor(v, m) && p[v].Some? && p[m].Some? && p[1].Some?
    requires KeyId(p[v].value) == KeyId(p[m].value) && Older(p, m, 1)
    ensures 1 <= t <= m && IsAncestor(t, m) && p[t].Some? && KeyId(p[t].value) == KeyId(p[m].value) && SealedAbove(p, t)
    decreases v
  {
    hide IsAncestor, Nearest, Linked;
    assert v > 1;
    var u := NearestFrom(p, v);
    NearestRange(p, u, v);
    LinkedAt(p, traffic, u, v);
    if Older(p, v, u) {
      t := v;
    } else {
      AncestorTrans(u, v, m);
      t := OwnTop(p, traffic, m, u);
    }
  }

  /** The two forms of the condition agree in every later tree in which m is a member. */
  lemma KeptIff(p: Pubs, traffic: set<Sealed>, q: Pubs, bound: nat, m: nat)
    requires Linked(p, traffic) && Remains(p, q, bound) && 1 <= m < |p| && p[1].Some? && q[m].Some?
    ensures OlderKept(p, q, m) <==> p[m].Some? && Older(p, m, 1) && OwnKeysKept(p, q, m)
  {
    hide IsAncestor, Linked;
    SelfSecret(m, Fresh(0));
    if OlderKept(p, q, m) {
      var v: nat :| 1 <= v < |p| && IsAncestor(v, m) && p[v].Some? && q[v] == p[v] && SealedAbove(p, v);
      AncestorLe(v, m);
      var u: nat :| Nearest(p, u, v) && Older(p, v, u);
      NearestRange(p, u, v);
      AgesUp(p, traffic, v, m);
      RootIsAncestor(u);
      AgesUp(p, traffic, 1, u);
      forall x: nat | 1 <= x <= m && IsAncestor(x, m) && p[x].Some? && KeyId(p[x].value) == KeyId(p[m].value)
        ensures q[x] == p[x]
      {
        if x < v {
          AncestorChain(x, v, m);
          NearestStops(p, u, v, x);
          AncestorChain(x, u, v);
          AgesUp(p, traffic, x, u);
        }
        AncestorChain(v, x, m);
      }
    }
    if p[m].Some? && Older(p, m, 1) && OwnKeysKept(p, q, m) {
      var t := OwnTop(p, traffic, m, m);
    }
  }

  lemma SizeKept(w: World, e: Event)
    requires Guarded(w) && Enabled(w, e)
    ensures |Happens(w, e).g.pubs| == |w.g.pubs|
  {
    hide Guarded, Sync, InStep, CommitPubs, BlankPubs, CommitOf, Boxes;
    GuardedFacts(w);
  }

  /** Some leak of the run tells. */
  ghost predicate LeakTells(w: World, events: seq<Event>, p: Pubs, r: Root)
    requires Guarded(w) && Runs(w, events).Some? && |p| == |w.g.pubs| && |p| > 1 && p[1].Some?
    decreases |events|
  {
    events != [] &&
    var e := events[0];
    HappensGuarded(w, e);
    SizeKept(w, e);
    (e.Compromise? && Tells(w, e.leaf, p, r)) || LeakTells(Happens(w, e), events[1..], p, r)
  }

  lemma RemainsItself(p: Pubs, bound: nat)
    ensures Remains(p, p, bound)
  {
  }

  lemma CommitRemains(p: Pubs, q: Pubs, n: nat, s: nat, next: nat, bound: nat)
    requires |p| == 2 * n && IsLeaf(n, s) && Remains(p, q, bound) && PubIdsBelow(p, bound) && bound <= next
    ensures Remains(p, CommitPubs(q, s, Fresh(next)), bound)
  {
    hide IsAncestor, PathSecret, CommitPubs;
    var q' := CommitPubs(q, s, Fresh(next));
    forall v: nat | 1 <= v < |q|
      ensures q'[v] == q[v] || (q'[v].Some? && KeyId(q'[v].value) == next)
      ensures IsAncestor(v, s) ==> q'[v].Some? && KeyId(q'[v].value) == next
    {
      CommitPubsAt(q, s, Fresh(next), v);
      if IsAncestor(v, s) {
        PathSecretShape(Fresh(next), s, v);
      }
    }
    forall v: nat, x: nat | 1 <= v <= x < |q| && q'[v].Some? && q'[v] == p[v] && IsAncestor(v, x)
      ensures q'[x] == p[x]
    {
      OffPath(q, s, Fresh(next), v, x);
      SelfSecret(v, Fresh(0));
      OffPath(q, s, Fresh(next), v, v);
    }
  }

  lemma BlankRemains(p: Pubs, q: Pubs, n: nat, leaf: nat, k: Option<Key>, bound: nat)
    requires |p| == 2 * n && IsLeaf(n, leaf) && Remains(p, q, bound) && PubIdsBelow(p, bound)
    requires k.Some? ==> KeyId(k.value) >= bound
    ensures Remains(p, BlankPubs(q, leaf, k), bound)
  {
    hide IsAncestor, BlankPubs;
    var q' := BlankPubs(q, leaf, k);
    forall v: nat | 1 <= v < |q|
      ensures q'[v] == if v == leaf then k else if IsAncestor(v, leaf) then None else q[v]
    {
      BlankPubsAt(q, n, leaf, k, v);
    }
    forall v: nat, x: nat | 1 <= v <= x < |q| && q'[v].Some? && q'[v] == p[v] && IsAncestor(v, x)
      ensures q'[x] == p[x]
    {
      BlankSame(q, n, leaf, k, v);
      SelfSecret(v, Fresh(0));
      assert q'[v] == q[v];
    }
  }

  lemma HappensRemains(w: World, e: Event, p: Pubs, bound: nat)
    requires Guarded(w) && Enabled(w, e) && Remains(p, w.g.pubs, bound) && PubIdsBelow(p, bound) && bound <= w.next
    ensures Remains(p, Happens(w, e).g.pubs, bound) && bound <= Happens(w, e).next
  {
    hide Guarded, Sync, InStep, CommitPubs, BlankPubs, CommitOf, Boxes, Remains, PubIdsBelow;
    GuardedFacts(w);
    assert |p| == |w.g.pubs| by {
      RemainsSize(p, w.g.pubs, bound);
    }
    if e.HonestCommit? || e.LeakyCommit? {
      CommitRemains(p, w.g.pubs, w.g.n, e.leaf, w.next, bound);
    } else if !e.Compromise? {
      BlankRemains(p, w.g.pubs, w.g.n, e.leaf, if e.Join? then Some(LeafKey(w.next)) else None, bound);
    }
  }

  lemma RemainsSize(p: Pubs, q: Pubs, bound: nat)
    requires Remains(p, q, bound)
    ensures |p| == |q|
  {
  }

  lemma {:induction false} RunGrows(w: World, events: seq<Event>)
    requires Guarded(w) && Runs(w, events).Some?
    ensures var w' := Runs(w, events).value;
      && w.given <= w'.given && w.traffic <= w'.traffic
      && forall b :: b in w'.traffic && b !in w.traffic ==> SecretId(b.ps) >= w.next
    decreases |events|
  {
    hide Guarded, Sync, Happens, SecretId;
    GuardedFacts(w);
    if events != [] {
      HappensGuarded(w, events[0]);
      GuardedFacts(Happens(w, events[0]));
      HappensGrows(w, events[0]);
      NextGrows(w, events[0]);
      RunGrows(Happens(w, events[0]), events[1..]);
    }
  }

  /** The snapshot of a leak that tells holds an atom that leads to the root secret. */
  lemma TellsLeads(w: World, m: nat, p: Pubs, r: Root, traffic: set<Sealed>, bound: nat) returns (a: Atom)
    requires Guarded(w) && m in w.g.members && Remains(p, w.g.pubs, bound)
    requires |p| == |w.g.pubs| && 1 < m < |p| && p[1] == Some(NodeKey(r.ps)) && Linked(p, traffic) && Tells(w, m, p, r)
    ensures a in Snapshot(w.g.members[m]) && Leads(p, a) && !a.ASecret?
  {
    hide Guarded, IsAncestor, Sync, Linked, SealedAbove, Remains, OwnKeysKept, Older;
    GuardedFacts(w);
    var view := w.g.members[m];
    KeptIff(p, traffic, w.g.pubs, bound, m);
    if view.root == Some(r) {
      a := ARoot(r);
    } else {
      var v: nat :| 1 <= v < |p| && IsAncestor(v, m) && p[v].Some? && w.g.pubs[v] == p[v] && SealedAbove(p, v);
      assert view.tree[v].priv == p[v];
      a := APriv(p[v].value);
    }
  }

  /** And no other snapshot does. */
  lemma OnlyTellingLeads(w: World, m: nat, p: Pubs, r: Root, traffic: set<Sealed>, bound: nat, a: Atom)
    requires Guarded(w) && m in w.g.members && Remains(p, w.g.pubs, bound) && PubIdsBelow(p, bound) && DistinctKeys(p)
    requires |p| == |w.g.pubs| && 1 < m < |p| && p[1] == Some(NodeKey(r.ps)) && Linked(p, traffic)
    requires a in Snapshot(w.g.members[m]) && Leads(p, a)
    ensures Tells(w, m, p, r)
  {
    hide Guarded, IsAncestor, Sync, Linked, SealedAbove, OwnKeysKept, Older;
    GuardedFacts(w);
    var view := w.g.members[m];
    KeptIff(p, traffic, w.g.pubs, bound, m);
    if a.APriv? {
      var v: nat :| 1 <= v < |p| && p[v] == Some(a.k) && SealedAbove(p, v);
      var x: nat :| 1 <= x < |view.tree| && view.tree[x].priv == Some(a.k);
      assert w.g.pubs[x] == Some(a.k) && IsAncestor(x, m);
      assert p[x] == Some(a.k);
      assert x == v;
      assert OlderKept(p, w.g.pubs, m);
    }
  }

  /** A leak that tells does give the root secret away. */
  lemma {:induction false} TellingGives(w: World, events: seq<Event>, p: Pubs, r: Root, traffic: set<Sealed>, bound: nat)
    requires Guarded(w) && Runs(w, events).Some? && |p| == |w.g.pubs| && |p| > 1 && p[1] == Some(NodeKey(r.ps))
    requires Remains(p, w.g.pubs, bound) && PubIdsBelow(p, bound) && bound <= w.next
    requires Linked(p, traffic) && traffic <= w.traffic && LeakTells(w, events, p, r)
    ensures Known(ARoot(r), Runs(w, events).value.given, Runs(w, events).value.traffic)
    decreases |events|
  {
    hide Guarded, Sync, Happens, Remains, PubIdsBelow, Linked, Known, Tells;
    GuardedFacts(w);
    var e := events[0];
    var w1 := Happens(w, e);
    HappensGuarded(w, e);
    SizeKept(w, e);
    GuardedFacts(w1);
    HappensGrows(w, e);
    if e.Compromise? && Tells(w, e.leaf, p, r) {
      TellingGivesNow(w, e.leaf, p, r, traffic, bound);
      RunGrows(w1, events[1..]);
      KnownMore(ARoot(r), w1.given, w1.traffic, Runs(w, events).value.given, Runs(w, events).value.traffic);
    } else {
      HappensRemains(w, e, p, bound);
      TellingGives(w1, events[1..], p, r, traffic, bound);
    }
  }

  lemma TellingGivesNow(w: World, m: nat, p: Pubs, r: Root, traffic: set<Sealed>, bound: nat)
    requires Guarded(w) && m in w.g.members && |p| == |w.g.pubs| && |p| > 1 && p[1] == Some(NodeKey(r.ps)) && m < |p|
    requires Remains(p, w.g.pubs, bound) && Linked(p, traffic) && traffic <= w.traffic && Tells(w, m, p, r)
    ensures var w1 := Happens(w, Compromise(m)); Known(ARoot(r), w1.given, w1.traffic)
  {
    hide Guarded, Sync, Remains, Linked, Known, Tells, Snapshot, SealedAbove;
    GuardedFacts(w);
    var w1 := Happens(w, Compromise(m));
    var a := TellsLeads(w, m, p, r, traffic, bound);
    KnownGiven(a, w1.given, traffic);
    if a.APriv? {
      var v: nat :| 1 <= v < |p| && p[v] == Some(a.k) && SealedAbove(p, v);
      LeadingKeyClimbs(p, w1.given, traffic, v);
    }
    KnownMore(ARoot(r), w1.given, traffic, w1.given, w1.traffic);
  }

  /** Whatever the run gives that leads to the root secret comes from a leak that tells. */
  lemma {:induction false} GivenTells(w: World, events: seq<Event>, p: Pubs, r: Root, traffic: set<Sealed>, bound: nat, a: Atom)
    requires Guarded(w) && Runs(w, events).Some? && |p| == |w.g.pubs| && |p| > 1 && p[1] == Some(NodeKey(r.ps))
    requires Remains(p, w.g.pubs, bound) && PubIdsBelow(p, bound) && DistinctKeys(p) && bound <= w.next
    requires Linked(p, traffic) && Leads(p, a) && AtomId(a) < bound
    requires a in Runs(w, events).value.given && a !in w.given
    ensures LeakTells(w, events, p, r)
    decreases |events|
  {
    hide Guarded, Sync, Happens, Remains, PubIdsBelow, DistinctKeys, Linked, Leads, Tells, Snapshot, AtomId;
    GuardedFacts(w);
    var e := events[0];
    var w1 := Happens(w, e);
    HappensGuarded(w, e);
    SizeKept(w, e);
    GuardedFacts(w1);
    HappensGrows(w, e);
    if a in w1.given {
      OnlyTellingLeads(w, e.leaf, p, r, traffic, bound, a);
    } else {
      HappensRemains(w, e, p, bound);
      GivenTells(w1, events[1..], p, r, traffic, bound, a);
    }
  }

  lemma LeadsIsOld(p: Pubs, bound: nat, a: Atom)
    requires |p| > 1 && PubIdsBelow(p, bound) && Leads(p, a)
    ensures AtomId(a) < bound
  {
  }

  /** The group secret over all runs. Whatever commits, removals, joins and leaks follow, the root secret
      of a commit is known at the end of the run if and only if a compromised leaf survived that commit or
      some later leak is of a member that still stores that secret, or that has not renewed its keys
      since before the commit and whose own keys then in the tree are all still in use. */
  lemma RootSecrecy(w: World, e: Event, later: seq<Event>)
    requires Guarded(w) && Woven(w.g.pubs, w.traffic) && Enabled(w, e) && (e.HonestCommit? || e.LeakyCommit?)
    requires Sync(Happens(w, e).g) && Runs(Happens(w, e), later).Some?
    ensures var w1 := Happens(w, e);
            var w2 := Runs(w1, later).value;
            && Guarded(w1) && |w1.g.pubs| > 1 && w1.g.pubs[1].Some? && w1.g.root.Some?
            && (Known(ARoot(w1.g.root.value), w2.given, w2.traffic)
                <==> w1.hurt != {} || LeakTells(w1, later, w1.g.pubs, w1.g.root.value))
  {
    hide Sync, Guarded, Happens, Linked, Tight, LeakTells, Runs, Known, Remains, PubIdsBelow;
    GuardedIds(w);
    var w1 := Happens(w, e);
    var w2 := Runs(w1, later).value;
    HappensGuarded(w, e);
    HappensWoven(w, e);
    RootKnownIff(w, e);
    RootOfCommit(w, e);
    RunGrows(w1, later);
    var a := ARoot(w1.g.root.value);
    if Known(a, w2.given, w2.traffic) && !Known(a, w1.given, w1.traffic) {
      OnlyLeakTells(w1, later);
    }
    if Known(a, w1.given, w1.traffic) {
      KnownMore(a, w1.given, w1.traffic, w2.given, w2.traffic);
    }
    if LeakTells(w1, later, w1.g.pubs, w1.g.root.value) {
      GuardedIds(w1);
      RemainsItself(w1.g.pubs, w1.next);
      TellingGives(w1, later, w1.g.pubs, w1.g.root.value, w1.traffic, w1.next);
    }
  }

  /** The root node after a commit. */
  lemma RootOfCommit(w: World, e: Event)
    requires Guarded(w) && Enabled(w, e) && (e.HonestCommit? || e.LeakyCommit?)
    ensures var w1 := Happens(w, e);
            |w1.g.pubs| > 1 && w1.g.root.Some? && w1.g.pubs[1] == Some(NodeKey(w1.g.root.value.ps))
  {
    hide Guarded, Happens, PathSecret, IsAncestor, CommitPubs;
    GuardedFacts(w);
    CommitParts(w, e);
    CommitPubsAt(w.g.pubs, e.leaf, Fresh(w.next), 1);
  }

  lemma OnlyLeakTells(w: World, later: seq<Event>)
    requires Guarded(w) && Woven(w.g.pubs, w.traffic) && Runs(w, later).Some?
    requires |w.g.pubs| > 1 && w.g.root.Some? && w.g.pubs[1] == Some(NodeKey(w.g.root.value.ps))
    requires Known(ARoot(w.g.root.value), Runs(w, later).value.given, Runs(w, later).value.traffic)
    requires !Known(ARoot(w.g.root.value), w.given, w.traffic)
    ensures LeakTells(w, later, w.g.pubs, w.g.root.value)
  {
    hide Sync, Guarded, LeakTells, Runs, Remains, Yields, Linked, Tight, Chained, DistinctKeys;
    GuardedFacts(w);
    GuardedIds(w);
    var w2 := Runs(w, later).value;
    var (p, a) := (w.g.pubs, ARoot(w.g.root.value));
    RunGrows(w, later);
    RemainsItself(p, w.next);
    var d :| Yields(d, w2.given, w2.traffic) == Some(a);
    LeadsIsOld(p, w.next, a);
    NothingNewAboutOld(w.(given := w2.given), w2, w.next, d);
    OnlyLeading(p, w.g.n, w2.given, w.traffic, d);
    SourceSuffices(d, w2.given, w.given, w.traffic);
    LeadsIsOld(p, w.next, Source(d));
    GivenTells(w, later, p, w.g.root.value, w.traffic, w.next, Source(d));
  }

  // ---------------------------------------------------------------------------
  // What follows for whole groups and single members
  // ---------------------------------------------------------------------------

  /** A leak of the committer, before it renews its keys again, tells only while it stores the secret. */
  lemma CommitterTells(w: World, e: Event, later: World)
    requires Guarded(w) && Enabled(w, e) && (e.HonestCommit? || e.LeakyCommit?)
    requires e.leaf in later.g.members && |later.g.pubs| == |w.g.pubs|
    ensures var w1 := Happens(w, e);
            && |w1.g.pubs| == |w.g.pubs| && 1 < |w1.g.pubs| && e.leaf < |w1.g.pubs| && w1.g.pubs[1].Some? && w1.g.root.Some?
            && (Tells(later, e.leaf, w1.g.pubs, w1.g.root.value) <==> later.g.members[e.leaf].root == w1.g.root)
  {
    hide Guarded, Happens, PathSecret, IsAncestor, CommitPubs, OwnKeysKept, Older, Sync;
    GuardedFacts(w);
    CommitParts(w, e);
    SameAge(w.g.pubs, e.leaf, w.next);
  }

  /** A committer's leaf key is as new as the root key. */
  lemma SameAge(p: Pubs, s: nat, next: nat)
    requires 1 <= s < |p|
    ensures var q := CommitPubs(p, s, Fresh(next)); q[s].Some? && q[1].Some? && !Older(q, s, 1)
  {
    hide PathSecret, IsAncestor, CommitPubs;
    var ls := Fresh(next);
    SelfSecret(s, ls);
    RootIsAncestor(s);
    CommitPubsAt(p, s, ls, 1);
    CommitPubsAt(p, s, ls, s);
    PathSecretShape(ls, s, 1);
    PathSecretShape(ls, s, s);
  }

  /** Leaks of members that renewed their keys since the commit tell nothing. */
  lemma {:induction false} RenewedTellNothing(w: World, events: seq<Event>, p: Pubs, r: Root, bound: nat, renewed: set<nat>)
    requires Guarded(w) && Runs(w, events).Some? && |p| == |w.g.pubs| && |p| > 1 && p[1] == Some(NodeKey(r.ps))
    requires PubIdsBelow(p, bound) && bound <= w.next
    requires forall m :: m in renewed && m in w.g.members ==> NewSince(w, m, bound)
    requires OnlyRenewedLeak(renewed, events)
    ensures !LeakTells(w, events, p, r)
    decreases |events|
  {
    hide Sync, Guarded, Happens, NewSince, PubIdsBelow, Tells;
    GuardedFacts(w);
    if events != [] {
      var e := events[0];
      HappensGuarded(w, e);
      SizeKept(w, e);
      GuardedFacts(Happens(w, e));
      StepRenews(w, e, renewed, bound);
      NextGrows(w, e);
      if e.Compromise? {
        NewTellsNothing(w, e.leaf, p, r, bound);
      }
      RenewedTellNothing(Happens(w, e), events[1..], p, r, bound, Renew(renewed, e));
    }
  }

  lemma NewTellsNothing(w: World, m: nat, p: Pubs, r: Root, bound: nat)
    requires Guarded(w) && m in w.g.members && |p| == |w.g.pubs| && |p| > 1 && m < |p| && p[1] == Some(NodeKey(r.ps))
    requires PubIdsBelow(p, bound) && NewSince(w, m, bound)
    ensures !Tells(w, m, p, r)
  {
    hide Guarded, Sync, IsAncestor;
    GuardedFacts(w);
    SelfSecret(m, Fresh(0));
    assert KeyId(p[1].value) < bound;
    assert p[m].Some? ==> w.g.pubs[m] != p[m];
  }

  /** A run passes through the world after any of its events. */
  lemma {:induction false} RunsSplit(w: World, events: seq<Event>, i: nat)
    requires Guarded(w) && Runs(w, events).Some? && i <= |events|
    ensures Runs(w, events[..i]).Some? && Guarded(Runs(w, events[..i]).value)
    ensures Runs(Runs(w, events[..i]).value, events[i..]) == Runs(w, events)
    decreases i
  {
    hide Sync, Guarded, Happens;
    GuardedFacts(w);
    if i == 0 {
      assert events[..0] == [] && events[0..] == events;
    } else {
      HappensGuarded(w, events[0]);
      GuardedFacts(Happens(w, events[0]));
      RunsSplit(Happens(w, events[0]), events[1..], i - 1);
      assert events[1..][..i - 1] == events[..i][1..] && events[1..][i - 1..] == events[i..];
    }
  }

  /** The root secret of any commit of a run, at the end of the run. */
  lemma RootSecrecyInRun(w: World, events: seq<Event>, i: nat)
    requires Guarded(w) && Woven(w.g.pubs, w.traffic) && Runs(w, events).Some?
    requires i < |events| && (events[i].HonestCommit? || events[i].LeakyCommit?)
    ensures Runs(w, events[..i + 1]).Some?
    ensures var w1 := Runs(w, events[..i + 1]).value;
            var w2 := Runs(w, events).value;
            && Guarded(w1) && Runs(w1, events[i + 1..]).Some?
            && |w1.g.pubs| > 1 && w1.g.pubs[1].Some? && w1.g.root.Some?
            && (Known(ARoot(w1.g.root.value), w2.given, w2.traffic)
                <==> w1.hurt != {} || LeakTells(w1, events[i + 1..], w1.g.pubs, w1.g.root.value))
  {
    hide Sync, Guarded, Happens, Woven, Known, LeakTells;
    GuardedFacts(w);
    RunsSplit(w, events, i);
    RunsSplit(w, events, i + 1);
    var before := Runs(w, events[..i]).value;
    GuardedFacts(before);
    RunsSplit(w, events[..i + 1], i);
    assert events[..i + 1][..i] == events[..i] && events[..i + 1][i..] == [events[i]];
    assert events[i..][0] == events[i] && events[i..][1..] == events[i + 1..];
    RunWoven(w, events[..i]);
    HappensGuarded(before, events[i]);
    GuardedFacts(Happens(before, events[i]));
    OneEvent(before, events[i]);
    RootSecrecy(before, events[i], events[i + 1..]);
  }

  lemma OneEvent(w: World, e: Event)
    requires Guarded(w) && Enabled(w, e) && Sync(w.g)
    ensures Runs(w, [e]) == Some(Happens(w, e))
  {
    hide Sync, Guarded, Happens;
    HappensGuarded(w, e);
    GuardedFacts(Happens(w, e));
    assert [e][1..] == [];
    assert Runs(Happens(w, e), []) == Some(Happens(w, e));
  }

  /** Once no leaf is compromised, the root secret of an honest commit before the next leak is given away
      by the rest of the run exactly if one of its leaks tells. With hurt == {m} before the removal of m
      this is the secrecy of the group against a removed member; before m's own commit it is
      post-compromise security. */
  lemma HealedGroup(w: World, events: seq<Event>, i: nat)
    requires Guarded(w) && Woven(w.g.pubs, w.traffic) && w.hurt == {} && Runs(w, events).Some?
    requires i < |events| && events[i].HonestCommit? && forall j :: 0 <= j < i ==> Clean(events[j])
    ensures Runs(w, events[..i + 1]).Some?
    ensures var healed := Runs(w, events[..i + 1]).value;
            var end := Runs(w, events).value;
            && Guarded(healed) && healed.hurt == {} && Runs(healed, events[i + 1..]).Some?
            && |healed.g.pubs| > 1 && healed.g.pubs[1].Some? && healed.g.root.Some?
            && (Known(ARoot(healed.g.root.value), end.given, end.traffic)
                <==> LeakTells(healed, events[i + 1..], healed.g.pubs, healed.g.root.value))
  {
    hide Sync, Guarded, Happens, Woven, Known, LeakTells;
    GuardedFacts(w);
    RootSecrecyInRun(w, events, i);
    HurtStaysEmpty(w, events[..i + 1]);
  }
}
