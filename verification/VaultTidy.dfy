/** When src/vault.c accepts a command: the slots and blocks of the volumes it is given lie apart in every
    container the commands make, so the only reasons to refuse are the ones a caller can see. */
module VaultTidy {
  import opened Common
  import opened Framing
  import opened Vault
  import opened VaultCommands
  import opened VaultDir
  import opened VaultRanges
  import opened VaultRewrite
  import opened VaultSlot

  // ---------------------------------------------------------------------------
  // When a rewrite is accepted
  // ---------------------------------------------------------------------------

  /** Everything the plan needs is at hand; only its place in the container is open. */
  ghost predicate Sealable(v: Env, size: nat, was: Option<seq<byte>>, plan: Plan)
  {
    && size >= SPAN && RequiredBlocks(|plan.dir.entries|) - 1 <= |plan.dir.overflow| && Named(plan.dir.entries)
    && BlobsFit(plan)
    && forall i: nat :: i < |plan.dir.entries| ==> BlobFor(v, was, plan, i).Some?
  }

  lemma {:induction false} DataAccepted(v: Env, size: nat, was: Option<seq<byte>>, plan: Plan, rnd: Random, k: nat, n: nat)
    requires n <= |plan.dir.entries|
    requires forall i: nat :: i < n ==>
      BlobFor(v, was, plan, i).Some? && plan.dir.entries[i].offset + SlotLen(plan.dir.entries[i].capacity) <= size
    ensures DataPieces(v, size, was, plan, rnd, k, n).Ok?
    decreases n
  {
    hide BlobFor, SlotLen;
    if n > 0 {
      DataAccepted(v, size, was, plan, rnd, k, n - 1);
    }
  }

  lemma {:induction false} BlocksAccepted(v: Env, size: nat, plan: Plan, anchor: nat, rnd: Random, k: nat, n: nat)
    requires Drawn(rnd, size) && Named(plan.dir.entries)
    requires n <= RequiredBlocks(|plan.dir.entries|) && RequiredBlocks(|plan.dir.entries|) - 1 <= |plan.dir.overflow|
    requires forall b: nat :: b < n ==> BlockOffset(plan, anchor, b) + SPAN <= size
    ensures BlockPieces(v, size, plan, anchor, rnd, k, n).Ok?
    decreases n
  {
    hide BlockBytes, RequiredBlocks, Named, BlockOf;
    if n > 0 {
      BlocksAccepted(v, size, plan, anchor, rnd, k, n - 1);
      BlocksFit(plan.dir, n - 1);
      BlockNamed(plan.dir, n - 1, v.log);
    }
  }

  lemma BlockNamed(dir: Dir, b: nat, log: byte)
    requires Named(dir.entries) && BlockFits(dir, RequiredBlocks(|dir.entries|), b)
    requires RequiredBlocks(|dir.entries|) - 1 <= |dir.overflow|
    ensures var es := BlockOf(dir, RequiredBlocks(|dir.entries|), b, log); Named(es) && |es| <= MAX_ENTRIES
  {
    hide RequiredBlocks;
    BlocksFit(dir, b);
  }

  lemma PlanAccepted(v: Env, size: nat, was: Option<seq<byte>>, plan: Plan, rnd: Random, k: nat)
    requires Drawn(rnd, size) && Sealable(v, size, was, plan) && Inside(PlanSlots(v, size, plan), size)
    ensures PlanPieces(v, size, was, plan, rnd, k).Ok?
  {
    hide DataPieces, BlockPieces, AnchorOffset, Drawn, BlobsFit, BlobFor, RequiredBlocks, Named, SlotLen;
    AnchorInside(v, plan.pass, size);
    var anchor := AnchorOffset(v, plan.pass, size).value;
    var count, n := |plan.dir.entries|, RequiredBlocks(|plan.dir.entries|);
    var slots := PlanSlots(v, size, plan);
    forall i: nat | i < count
      ensures plan.dir.entries[i].offset + SlotLen(plan.dir.entries[i].capacity) <= size
    {
      assert slots[i] in slots;
    }
    forall b: nat | b < n
      ensures BlockOffset(plan, anchor, b) + SPAN <= size
    {
      assert slots[count + b] in slots;
    }
    DataAccepted(v, size, was, plan, rnd, k, count);
    var data := DataPieces(v, size, was, plan, rnd, k, count).value;
    BlocksAccepted(v, size, plan, anchor, rnd, k + |data|, n);
  }

  lemma {:induction false} PlansAccepted(v: Env, size: nat, was: Option<seq<byte>>, plans: seq<Plan>, rnd: Random)
    requires Drawn(rnd, size)
    requires forall j :: 0 <= j < |plans| ==> Sealable(v, size, was, plans[j]) && Inside(PlanSlots(v, size, plans[j]), size)
    ensures AllPieces(v, size, was, plans, rnd).Ok?
  {
    hide PlanPieces, Sealable, PlanSlots, Drawn, Inside;
    if |plans| > 0 {
      var n := |plans| - 1;
      PlansAccepted(v, size, was, plans[..n], rnd);
      PlanAccepted(v, size, was, plans[n], rnd, |AllPieces(v, size, was, plans[..n], rnd).value|);
    }
  }

  lemma {:induction false} AllSlotsMembers(v: Env, size: nat, plans: seq<Plan>, x: Range)
    ensures x in AllSlots(v, size, plans) <==> exists j :: 0 <= j < |plans| && x in PlanSlots(v, size, plans[j])
  {
    hide PlanSlots;
    if |plans| > 0 {
      AllSlotsMembers(v, size, plans[..|plans| - 1], x);
    }
  }

  /** The volumes of the plans lie apart from each other, and their own slots and blocks do. */
  ghost predicate PlansApart(v: Env, size: nat, plans: seq<Plan>)
  {
    && (forall j :: 0 <= j < |plans| ==> Disjoint(PlanSlots(v, size, plans[j])))
    && (forall i, j :: 0 <= i < j < |plans| ==> Apart(PlanSlots(v, size, plans[i]), PlanSlots(v, size, plans[j])))
  }

  lemma {:induction false} AllSlotsDisjoint(v: Env, size: nat, plans: seq<Plan>)
    ensures Disjoint(AllSlots(v, size, plans)) <==> PlansApart(v, size, plans)
  {
    hide PlanSlots, Disjoint;
    if |plans| == 0 {
      NoneDisjoint();
    } else {
      var n := |plans| - 1;
      var front := AllSlots(v, size, plans[..n]);
      var last := PlanSlots(v, size, plans[n]);
      AllSlotsDisjoint(v, size, plans[..n]);
      DisjointJoin(front, last);
      forall j, x | 0 <= j < n && x in PlanSlots(v, size, plans[j])
        ensures x in front
      {
        AllSlotsMembers(v, size, plans[..n], x);
        assert plans[..n][j] == plans[j];
      }
      forall x | x in front
        ensures exists j :: 0 <= j < n && x in PlanSlots(v, size, plans[j])
      {
        AllSlotsMembers(v, size, plans[..n], x);
        var j :| 0 <= j < n && x in PlanSlots(v, size, plans[..n][j]);
        assert plans[..n][j] == plans[j];
      }
    }
  }

  lemma NoneDisjoint()
    ensures Disjoint([])
  {
  }

  /** A rewrite with everything at hand is accepted exactly when all slots and blocks lie in the container
      and none meets another. */
  lemma RewriteAcceptedIff(v: Env, size: nat, was: Option<seq<byte>>, plans: seq<Plan>, rnd: Random)
    requires Exact(v.c.aead) && Drawn(rnd, size)
    requires forall j :: 0 <= j < |plans| ==> Sealable(v, size, was, plans[j])
    ensures AllBlobsFit(plans)
    ensures RewriteResult(v, size, was, plans, rnd).Ok? <==>
      && (forall j :: 0 <= j < |plans| ==> Inside(PlanSlots(v, size, plans[j]), size))
      && PlansApart(v, size, plans)
  {
    hide AllPieces, AllSlots, PlanSlots, PutAll, Disjoint, Drawn, PlansApart, BlobsFit, Named, BlobFor, RequiredBlocks;
    AllSlotsDisjoint(v, size, plans);
    if forall j :: 0 <= j < |plans| ==> Inside(PlanSlots(v, size, plans[j]), size) {
      PlansAccepted(v, size, was, plans, rnd);
      SlotsApart(v, size, was, plans, rnd);
    }
    if RewriteResult(v, size, was, plans, rnd).Ok? {
      SlotsApart(v, size, was, plans, rnd);
      forall j, x | 0 <= j < |plans| && x in PlanSlots(v, size, plans[j])
        ensures x.end <= size
      {
        AllSlotsMembers(v, size, plans, x);
      }
    }
  }

  // ---------------------------------------------------------------------------
  // Tidy containers
  // ---------------------------------------------------------------------------

  /** The anchor, directory blocks and data slots of the volume of p. */
  function VolumeRanges(v: Env, img: seq<byte>, p: Pass): seq<Range>
  {
    match OpenVolume(v, img, p)
    case None => []
    case Some((dir, anchor)) => RangesOf(anchor, dir)
  }

  /** A volume that opens, has exactly the blocks it needs, lies apart and in the container, and whose
      slots all open. */
  ghost predicate Sound(v: Env, img: seq<byte>, p: Pass)
  {
    && OpenVolume(v, img, p).Some?
    && var dir := OpenVolume(v, img, p).value.0;
    && |dir.overflow| == RequiredBlocks(|dir.entries|) - 1
    && Disjoint(VolumeRanges(v, img, p)) && Inside(VolumeRanges(v, img, p), |img|)
    && forall i: nat :: i < |dir.entries| ==> ReadData(v, img, p, dir.entries[i]).Some?
  }

  /** The volumes of ps are sound and lie apart from each other. */
  ghost predicate Tidy(v: Env, img: seq<byte>, ps: set<Pass>)
  {
    && (forall p :: p in ps ==> Sound(v, img, p))
    && (forall p, q :: p in ps && q in ps && p != q ==> Apart(VolumeRanges(v, img, p), VolumeRanges(v, img, q)))
  }

  /** A plan puts its volume where vault_collect_ranges will find it. */
  lemma PlanSlotsAreRanges(v: Env, size: nat, plan: Plan)
    requires size >= SPAN && RequiredBlocks(|plan.dir.entries|) - 1 <= |plan.dir.overflow|
    ensures AnchorOffset(v, plan.pass, size).Some?
    ensures var anchor := AnchorOffset(v, plan.pass, size).value;
      var dir := Dir(plan.dir.entries, plan.dir.overflow[..RequiredBlocks(|plan.dir.entries|) - 1]);
      && multiset(PlanSlots(v, size, plan)) == multiset(RangesOf(anchor, dir))
      && NonEmpty(RangesOf(anchor, dir))
  {
    hide AnchorOffset, RequiredBlocks, SlotLen;
    AnchorInside(v, plan.pass, size);
    SomeBlocks(plan.dir);
    var anchor := AnchorOffset(v, plan.pass, size).value;
    var n := RequiredBlocks(|plan.dir.entries|);
    var dir := Dir(plan.dir.entries, plan.dir.overflow[..n - 1]);
    var data, blocks := SlotRanges(dir.entries), [BlockRange(anchor)] + BlockRanges(dir.overflow);
    assert RangesOf(anchor, dir) == blocks + data;
    var slots := PlanSlots(v, size, plan);
    forall k | 0 <= k < |slots|
      ensures slots[k] == (data + blocks)[k]
    {
      if k > |data| {
        assert blocks[k - |data|] == BlockRange(plan.dir.overflow[k - |data| - 1]);
      }
    }
    assert slots == data + blocks;
    RangesNonEmpty(anchor, dir);
  }

  /** What lies in the container, in one order or another. */
  lemma SameRanges(a: seq<Range>, b: seq<Range>, size: nat)
    requires multiset(a) == multiset(b) && NonEmpty(b)
    ensures (forall x :: x in a <==> x in b) && NonEmpty(a)
    ensures Inside(a, size) <==> Inside(b, size)
    ensures Disjoint(a) <==> Disjoint(b)
  {
    hide Disjoint;
    SameMembers(a, b);
    NonEmptyPermuted(b, a);
    if Disjoint(a) {
      DisjointSub(b, a);
    }
    if Disjoint(b) {
      DisjointSub(a, b);
    }
  }

  /** A plan whose directory an accepted rewrite leaves readable. */
  ghost predicate Lasting(v: Env, plan: Plan)
  {
    NoPointers(plan.dir.entries) && |plan.dir.entries| <= MAX_VOLUME && Readable(plan.dir, v.log)
  }

  /** What an accepted rewrite makes of one plan. */
  lemma SealedSound(v: Env, size: nat, was: Option<seq<byte>>, plans: seq<Plan>, rnd: Random, j: nat)
    requires Exact(v.c.aead) && Drawn(rnd, size) && AllBlobsFit(plans) && size < U64 && j < |plans|
    requires RewriteResult(v, size, was, plans, rnd).Ok? && Lasting(v, plans[j])
    ensures var after := RewriteResult(v, size, was, plans, rnd).value;
      && Sound(v, after, plans[j].pass)
      && forall x :: x in VolumeRanges(v, after, plans[j].pass) <==> x in PlanSlots(v, size, plans[j])
  {
    hide RewriteResult, AnchorOffset, BlobFor, ReadData, RequiredBlocks, AllTrusted, AllBlobsFit, Drawn, Readable, NoPointers,
         PlanSlots, RangesOf, Disjoint, Inside, Follow, ReadBlock, BlockOf;
    var after := RewriteResult(v, size, was, plans, rnd).value;
    var plan := plans[j];
    RewriteOpens(v, size, was, plans, rnd, j);
    PlanReads(v, size, was, plans, rnd, j);
    OpenedAnchor(v, after, plan.pass);
    AnchorInside(v, plan.pass, size);
    PlanSlotsAreRanges(v, size, plan);
    RewritePart(v, size, was, plans, rnd, j);
    SomeBlocks(plan.dir);
    SameRanges(PlanSlots(v, size, plan), VolumeRanges(v, after, plan.pass), size);
    var dir := OpenVolume(v, after, plan.pass).value.0;
    assert |dir.overflow| == RequiredBlocks(|dir.entries|) - 1;
    assert Disjoint(VolumeRanges(v, after, plan.pass)) && Inside(VolumeRanges(v, after, plan.pass), |after|);
    assert forall i: nat :: i < |dir.entries| ==> ReadData(v, after, plan.pass, dir.entries[i]).Some?;
  }

  lemma OpenedAnchor(v: Env, img: seq<byte>, p: Pass)
    requires OpenVolume(v, img, p).Some?
    ensures AnchorOffset(v, p, |img|) == Some(OpenVolume(v, img, p).value.1)
    ensures |img| >= SPAN
  {
    hide Follow;
  }

  lemma RewritePart(v: Env, size: nat, was: Option<seq<byte>>, plans: seq<Plan>, rnd: Random, j: nat)
    requires Exact(v.c.aead) && Drawn(rnd, size) && AllBlobsFit(plans) && j < |plans|
    requires RewriteResult(v, size, was, plans, rnd).Ok?
    ensures Disjoint(PlanSlots(v, size, plans[j])) && Inside(PlanSlots(v, size, plans[j]), size)
    ensures forall i :: 0 <= i < |plans| && i != j ==> Apart(PlanSlots(v, size, plans[i]), PlanSlots(v, size, plans[j]))
  {
    hide AllPieces, AllSlots, PlanSlots, PutAll, Disjoint, Drawn, AllBlobsFit;
    SlotsApart(v, size, was, plans, rnd);
    AllSlotsDisjoint(v, size, plans);
    forall x | x in PlanSlots(v, size, plans[j])
      ensures x.end <= size
    {
      AllSlotsMembers(v, size, plans, x);
    }
    forall i | 0 <= i < |plans| && i != j
      ensures Apart(PlanSlots(v, size, plans[i]), PlanSlots(v, size, plans[j]))
    {
      assert i < j ==> Apart(PlanSlots(v, size, plans[i]), PlanSlots(v, size, plans[j]));
      assert j < i ==> Apart(PlanSlots(v, size, plans[j]), PlanSlots(v, size, plans[i]));
    }
  }

  /** Every accepted rewrite leaves a tidy container. */
  lemma RewriteTidy(v: Env, size: nat, was: Option<seq<byte>>, plans: seq<Plan>, rnd: Random, ps: set<Pass>)
    requires Exact(v.c.aead) && Drawn(rnd, size) && AllBlobsFit(plans) && size < U64
    requires RewriteResult(v, size, was, plans, rnd).Ok?
    requires forall j :: 0 <= j < |plans| ==> Lasting(v, plans[j])
    requires forall p :: p in ps ==> exists j :: 0 <= j < |plans| && plans[j].pass == p
    ensures Tidy(v, RewriteResult(v, size, was, plans, rnd).value, ps)
  {
    hide RewriteResult, AllBlobsFit, Drawn, Lasting, PlanSlots, VolumeRanges, Sound;
    var after := RewriteResult(v, size, was, plans, rnd).value;
    forall p | p in ps
      ensures Sound(v, after, p)
    {
      var j: nat :| j < |plans| && plans[j].pass == p;
      SealedSound(v, size, was, plans, rnd, j);
    }
    forall p, q | p in ps && q in ps && p != q
      ensures Apart(VolumeRanges(v, after, p), VolumeRanges(v, after, q))
    {
      var i: nat :| i < |plans| && plans[i].pass == p;
      var j: nat :| j < |plans| && plans[j].pass == q;
      SealedSound(v, size, was, plans, rnd, i);
      SealedSound(v, size, was, plans, rnd, j);
      RewritePart(v, size, was, plans, rnd, j);
    }
  }

  // ---------------------------------------------------------------------------
  // When a command is accepted in a tidy container
  // ---------------------------------------------------------------------------

  function PassSet(keeps: seq<Pass>): set<Pass>
  {
    set k | k in keeps
  }

  ghost predicate DistinctPasses(keeps: seq<Pass>)
  {
    forall i, j :: 0 <= i < j < |keeps| ==> keeps[i] != keeps[j]
  }

  lemma {:induction false} KeepsOpen(v: Env, img: seq<byte>, keeps: seq<Pass>)
    requires forall k :: k in keeps ==> OpenVolume(v, img, k).Some?
    ensures KeepPlans(v, img, keeps).Some? && KeepRanges(v, img, keeps).Some?
  {
    hide OpenVolume, RangesOf;
    if |keeps| > 0 {
      assert keeps[|keeps| - 1] in keeps;
      KeepsOpen(v, img, keeps[..|keeps| - 1]);
    }
  }

  /** A sound volume can be sealed again where it is. */
  lemma SoundSealable(v: Env, img: seq<byte>, p: Pass)
    requires Sound(v, img, p)
    ensures var plan := Plan(p, p, OpenVolume(v, img, p).value.0, map[]);
      && Sealable(v, |img|, Some(img), plan)
      && Disjoint(PlanSlots(v, |img|, plan)) && Inside(PlanSlots(v, |img|, plan), |img|)
      && forall x :: x in PlanSlots(v, |img|, plan) <==> x in VolumeRanges(v, img, p)
  {
    hide OpenVolume, AnchorOffset, ReadData, RequiredBlocks, PlanSlots, RangesOf, Disjoint, Inside, NoPointers;
    var dir := OpenVolume(v, img, p).value.0;
    var plan := Plan(p, p, dir, map[]);
    OpenedOk(v, img, p);
    OpenedAnchor(v, img, p);
    PlanSlotsAreRanges(v, |img|, plan);
    assert dir.overflow[..RequiredBlocks(|dir.entries|) - 1] == dir.overflow;
    SameRanges(PlanSlots(v, |img|, plan), VolumeRanges(v, img, p), |img|);
    TrustedNamed(dir.entries);
  }

  lemma TrustedNamed(es: seq<Entry>)
    requires AllTrusted(es)
    ensures Named(es)
  {
  }

  /** The plans of distinct, tidy volumes to keep. */
  lemma KeepPlansTidy(v: Env, img: seq<byte>, keeps: seq<Pass>)
    requires Tidy(v, img, PassSet(keeps)) && DistinctPasses(keeps)
    ensures KeepPlans(v, img, keeps).Some?
    ensures var ps := KeepPlans(v, img, keeps).value;
      && |ps| == |keeps|
      && PlansApart(v, |img|, ps)
      && forall j: nat :: j < |ps| ==>
           && Sealable(v, |img|, Some(img), ps[j]) && Inside(PlanSlots(v, |img|, ps[j]), |img|)
           && forall x :: x in PlanSlots(v, |img|, ps[j]) <==> x in VolumeRanges(v, img, keeps[j])
  {
    hide PlanSlots, Sealable, Inside, Disjoint, VolumeRanges, KeepPlans, OpenVolume, Sound;
    forall k | k in keeps
      ensures OpenVolume(v, img, k).Some?
    {
      SoundOpens(v, img, k);
    }
    KeepsOpen(v, img, keeps);
    var ps := KeepPlans(v, img, keeps).value;
    forall j: nat | j < |keeps|
      ensures Sealable(v, |img|, Some(img), ps[j]) && Disjoint(PlanSlots(v, |img|, ps[j])) && Inside(PlanSlots(v, |img|, ps[j]), |img|)
      ensures forall x :: x in PlanSlots(v, |img|, ps[j]) <==> x in VolumeRanges(v, img, keeps[j])
    {
      KeepPlanAt(v, img, keeps, j);
      assert keeps[j] in PassSet(keeps);
      SoundSealable(v, img, keeps[j]);
    }
    forall i, j | 0 <= i < j < |keeps|
      ensures Apart(PlanSlots(v, |img|, ps[i]), PlanSlots(v, |img|, ps[j]))
    {
      assert keeps[i] in PassSet(keeps) && keeps[j] in PassSet(keeps);
    }
  }

  lemma OneMorePlan(v: Env, size: nat, target: Plan, ps: seq<Plan>)
    ensures PlansApart(v, size, [target] + ps) <==>
      && PlansApart(v, size, ps) && Disjoint(PlanSlots(v, size, target))
      && forall j :: 0 <= j < |ps| ==> Apart(PlanSlots(v, size, target), PlanSlots(v, size, ps[j]))
  {
    hide PlanSlots, Disjoint, Apart;
    if PlansApart(v, size, [target] + ps) {
      PlansWithout(v, size, target, ps);
    }
    if PlansApart(v, size, ps) && Disjoint(PlanSlots(v, size, target))
       && forall j :: 0 <= j < |ps| ==> Apart(PlanSlots(v, size, target), PlanSlots(v, size, ps[j])) {
      PlansWith(v, size, target, ps);
    }
  }

  lemma PlansWithout(v: Env, size: nat, target: Plan, ps: seq<Plan>)
    requires PlansApart(v, size, [target] + ps)
    ensures PlansApart(v, size, ps) && Disjoint(PlanSlots(v, size, target))
    ensures forall j :: 0 <= j < |ps| ==> Apart(PlanSlots(v, size, target), PlanSlots(v, size, ps[j]))
  {
    hide PlanSlots, Disjoint, Apart;
    var plans := [target] + ps;
    assert Disjoint(PlanSlots(v, size, plans[0]));
    forall j | 0 <= j < |ps|
      ensures Disjoint(PlanSlots(v, size, ps[j])) && Apart(PlanSlots(v, size, target), PlanSlots(v, size, ps[j]))
    {
      assert Disjoint(PlanSlots(v, size, plans[j + 1]));
      assert Apart(PlanSlots(v, size, plans[0]), PlanSlots(v, size, plans[j + 1]));
    }
    forall i, j | 0 <= i < j < |ps|
      ensures Apart(PlanSlots(v, size, ps[i]), PlanSlots(v, size, ps[j]))
    {
      assert Apart(PlanSlots(v, size, plans[i + 1]), PlanSlots(v, size, plans[j + 1]));
    }
  }

  lemma PlansWith(v: Env, size: nat, target: Plan, ps: seq<Plan>)
    requires PlansApart(v, size, ps) && Disjoint(PlanSlots(v, size, target))
    requires forall j :: 0 <= j < |ps| ==> Apart(PlanSlots(v, size, target), PlanSlots(v, size, ps[j]))
    ensures PlansApart(v, size, [target] + ps)
  {
    hide PlanSlots, Disjoint, Apart;
    var plans := [target] + ps;
    forall j | 0 <= j < |plans|
      ensures Disjoint(PlanSlots(v, size, plans[j]))
    {
      assert j > 0 ==> Disjoint(PlanSlots(v, size, ps[j - 1]));
    }
    forall i, j | 0 <= i < j < |plans|
      ensures Apart(PlanSlots(v, size, plans[i]), PlanSlots(v, size, plans[j]))
    {
      assert plans[j] == ps[j - 1];
      assert i > 0 ==> Apart(PlanSlots(v, size, ps[i - 1]), PlanSlots(v, size, ps[j - 1]));
    }
  }

  /** Two plans for one passphrase would share their anchor, so the rewrite is refused. */
  lemma SharedPassRefused(v: Env, size: nat, was: Option<seq<byte>>, plans: seq<Plan>, rnd: Random, i: nat, j: nat)
    requires Exact(v.c.aead) && Drawn(rnd, size) && AllBlobsFit(plans)
    requires i < j < |plans| && plans[i].pass == plans[j].pass
    ensures RewriteResult(v, size, was, plans, rnd).Err?
  {
    hide RewriteResult, PlanSlots, Drawn, AllBlobsFit;
    if RewriteResult(v, size, was, plans, rnd).Ok? {
      RewritePart(v, size, was, plans, rnd, j);
      AnchorSealed(v, size, was, plans, rnd, i);
      AnchorSealed(v, size, was, plans, rnd, j);
      SlotPositive(BLOCK);
    }
  }

  lemma AnchorSealed(v: Env, size: nat, was: Option<seq<byte>>, plans: seq<Plan>, rnd: Random, j: nat)
    requires Exact(v.c.aead) && Drawn(rnd, size) && AllBlobsFit(plans) && j < |plans|
    requires RewriteResult(v, size, was, plans, rnd).Ok?
    ensures AnchorOffset(v, plans[j].pass, size).Some?
    ensures BlockRange(AnchorOffset(v, plans[j].pass, size).value) in PlanSlots(v, size, plans[j])
  {
    hide RewriteResult, PlanSlots, Drawn, AllBlobsFit, BlobsFit, AnchorOffset, RequiredBlocks, BlobFor, BlockOf, BlockFits,
         BlockOffset, RangesOf, AllPieces, PlanPieces;
    var k := Accepted(v, size, was, plans, rnd, j);
    PlanParts(v, size, was, plans[j], rnd, k);
    SomeBlocks(plans[j].dir);
    AnchorInside(v, plans[j].pass, size);
    PlanSlotsAreRanges(v, size, plans[j]);
    AnchorFirst(AnchorOffset(v, plans[j].pass, size).value,
      Dir(plans[j].dir.entries, plans[j].dir.overflow[..RequiredBlocks(|plans[j].dir.entries|) - 1]), PlanSlots(v, size, plans[j]));
  }

  lemma AnchorFirst(anchor: nat, dir: Dir, slots: seq<Range>)
    requires multiset(slots) == multiset(RangesOf(anchor, dir))
    ensures BlockRange(anchor) in slots
  {
    assert RangesOf(anchor, dir)[0] == BlockRange(anchor);
    SameMembers(slots, RangesOf(anchor, dir));
  }

  /** Keeping a volume twice, or the one that is sealed anew, is refused. */
  lemma RepeatedPassRefused(v: Env, img: seq<byte>, target: Plan, keeps: seq<Pass>, rnd: Random)
    requires Exact(v.c.aead) && Drawn(rnd, |img|) && BlobsFit(target)
    ensures !DistinctPasses([target.pass] + keeps) ==> Mutate(v, img, target, keeps, rnd).Err?
  {
    hide RewriteResult, Drawn, BlobsFit, KeepPlans, OpenVolume;
    var passes := [target.pass] + keeps;
    if !DistinctPasses(passes) && KeepPlans(v, img, keeps).Some? {
      var ps := KeepPlans(v, img, keeps).value;
      var plans := [target] + ps;
      KeepsFit(target, ps);
      var i, j :| 0 <= i < j < |passes| && passes[i] == passes[j];
      forall k | 0 <= k < |passes|
        ensures plans[k].pass == passes[k]
      {
        if k > 0 {
          KeepPlanAt(v, img, keeps, k - 1);
        }
      }
      SharedPassRefused(v, |img|, Some(img), plans, rnd, i, j);
    }
  }

  /** With tidy volumes to keep, a change is accepted exactly when none of them is kept twice and the
      changed volume lies in the container, apart in itself and from them. */
  lemma MutateAcceptedIff(v: Env, img: seq<byte>, target: Plan, keeps: seq<Pass>, rnd: Random)
    requires Exact(v.c.aead) && Drawn(rnd, |img|)
    requires Tidy(v, img, PassSet(keeps)) && Sealable(v, |img|, Some(img), target)
    ensures Mutate(v, img, target, keeps, rnd).Ok? <==>
      && DistinctPasses(keeps)
      && Inside(PlanSlots(v, |img|, target), |img|) && Disjoint(PlanSlots(v, |img|, target))
      && forall k :: k in keeps ==> Apart(PlanSlots(v, |img|, target), VolumeRanges(v, img, k))
  {
    hide Mutate, PlanSlots, Drawn, Inside, Disjoint, VolumeRanges, Tidy, Apart, Named, BlobFor, RequiredBlocks;
    if DistinctPasses(keeps) {
      MutateDistinctIff(v, img, target, keeps, rnd);
    } else {
      MoreDistinct(target.pass, keeps);
      RepeatedPassRefused(v, img, target, keeps, rnd);
    }
  }

  lemma MoreDistinct(p: Pass, keeps: seq<Pass>)
    ensures DistinctPasses([p] + keeps) <==> p !in keeps && DistinctPasses(keeps)
  {
    var all := [p] + keeps;
    assert forall i :: 0 <= i < |keeps| ==> all[i + 1] == keeps[i];
    if DistinctPasses(all) {
      forall i, j | 0 <= i < j < |keeps|
        ensures keeps[i] != keeps[j]
      {
        assert all[i + 1] != all[j + 1];
      }
      forall i | 0 <= i < |keeps|
        ensures keeps[i] != p
      {
        assert all[0] != all[i + 1];
      }
    }
  }

  lemma MutateDistinctIff(v: Env, img: seq<byte>, target: Plan, keeps: seq<Pass>, rnd: Random)
    requires Exact(v.c.aead) && Drawn(rnd, |img|)
    requires Tidy(v, img, PassSet(keeps)) && DistinctPasses(keeps) && Sealable(v, |img|, Some(img), target)
    ensures Mutate(v, img, target, keeps, rnd).Ok? <==>
      && Inside(PlanSlots(v, |img|, target), |img|) && Disjoint(PlanSlots(v, |img|, target))
      && forall k :: k in keeps ==> Apart(PlanSlots(v, |img|, target), VolumeRanges(v, img, k))
  {
    hide RewriteResult, PlanSlots, Drawn, Sealable, Inside, Disjoint, VolumeRanges, KeepPlans, PlansApart, Tidy;
    KeepPlansTidy(v, img, keeps);
    var ps := KeepPlans(v, img, keeps).value;
    var plans := [target] + ps;
    RewriteAcceptedIff(v, |img|, Some(img), plans, rnd);
    OneMorePlan(v, |img|, target, ps);
    assert plans[0] == target && forall j: nat :: j < |ps| ==> plans[j + 1] == ps[j];
    assert (forall k :: k in keeps ==> Apart(PlanSlots(v, |img|, target), VolumeRanges(v, img, k))) <==>
      forall j: nat :: j < |keeps| ==> Apart(PlanSlots(v, |img|, target), VolumeRanges(v, img, keeps[j]));
  }

  lemma SoundOpens(v: Env, img: seq<byte>, p: Pass)
    requires Sound(v, img, p)
    ensures OpenVolume(v, img, p).Some?
  {
    hide OpenVolume;
  }
}
