/** What the volume commands of src/vault.c refuse, in any container, and with which error. */
module VaultRefusals {
  import opened Common
  import opened Framing
  import opened Vault
  import opened VaultAccept
  import opened VaultCommands
  import opened VaultDir
  import opened VaultRanges
  import opened VaultRewrite
  import opened VaultSlot
  import opened VaultTidy

  // ---------------------------------------------------------------------------
  // A rewrite
  // ---------------------------------------------------------------------------

  /** Data slot i of the plan lies in the container and its content is at hand. */
  ghost predicate SlotFine(v: Env, size: nat, was: Option<seq<byte>>, plan: Plan, i: nat)
    requires i < |plan.dir.entries|
  {
    plan.dir.entries[i].offset + SlotLen(plan.dir.entries[i].capacity) <= size && BlobFor(v, was, plan, i).Some?
  }

  /** The first data slot that is not fine decides: beyond the container, or a slot that does not open. */
  lemma {:induction false} DataRefused(v: Env, size: nat, was: Option<seq<byte>>, plan: Plan, rnd: Random, k: nat, n: nat, i: nat)
    requires i < n <= |plan.dir.entries| && !SlotFine(v, size, was, plan, i)
    requires forall j: nat :: j < i ==> SlotFine(v, size, was, plan, j)
    ensures DataPieces(v, size, was, plan, rnd, k, n)
         == Err(if plan.dir.entries[i].offset + SlotLen(plan.dir.entries[i].capacity) > size then ErrInput else ErrIntegrity)
    decreases n
  {
    hide BlobFor, SlotLen;
    if i < n - 1 {
      DataRefused(v, size, was, plan, rnd, k, n - 1, i);
    } else {
      forall j: nat | j < n - 1
        ensures BlobFor(v, was, plan, j).Some? && plan.dir.entries[j].offset + SlotLen(plan.dir.entries[j].capacity) <= size
      {
        assert SlotFine(v, size, was, plan, j);
      }
      DataAccepted(v, size, was, plan, rnd, k, n - 1);
    }
  }

  lemma {:induction false} DataRefusedInput(v: Env, size: nat, was: Option<seq<byte>>, plan: Plan, rnd: Random, k: nat, n: nat)
    requires n <= |plan.dir.entries| && forall i: nat :: i < n ==> BlobFor(v, was, plan, i).Some?
    ensures DataPieces(v, size, was, plan, rnd, k, n).Err? ==> DataPieces(v, size, was, plan, rnd, k, n).error == ErrInput
    decreases n
  {
    hide BlobFor, SlotLen;
    if n > 0 {
      DataRefusedInput(v, size, was, plan, rnd, k, n - 1);
    }
  }

  lemma {:induction false} BlocksRefusedInput(v: Env, size: nat, plan: Plan, anchor: nat, rnd: Random, k: nat, n: nat)
    requires Drawn(rnd, size) && Named(plan.dir.entries)
    requires n <= RequiredBlocks(|plan.dir.entries|) && RequiredBlocks(|plan.dir.entries|) - 1 <= |plan.dir.overflow|
    ensures BlockPieces(v, size, plan, anchor, rnd, k, n).Err? ==> BlockPieces(v, size, plan, anchor, rnd, k, n).error == ErrInput
    decreases n
  {
    hide BlockBytes, RequiredBlocks, Named, BlockOf;
    if n > 0 {
      BlocksRefusedInput(v, size, plan, anchor, rnd, k, n - 1);
      BlocksFit(plan.dir, n - 1);
      BlockNamed(plan.dir, n - 1, v.log);
    }
  }

  /** Every blob, new or old, and every name of the plan is at hand. */
  ghost predicate AtHand(v: Env, was: Option<seq<byte>>, plan: Plan)
  {
    Named(plan.dir.entries) && BlobsFit(plan) && forall i: nat :: i < |plan.dir.entries| ==> BlobFor(v, was, plan, i).Some?
  }

  lemma PlanRefusedInput(v: Env, size: nat, was: Option<seq<byte>>, plan: Plan, rnd: Random, k: nat)
    requires Drawn(rnd, size) && AtHand(v, was, plan)
    ensures PlanPieces(v, size, was, plan, rnd, k).Err? ==> PlanPieces(v, size, was, plan, rnd, k).error == ErrInput
  {
    hide DataPieces, BlockPieces, AnchorOffset, Drawn, BlobsFit, BlobFor, RequiredBlocks, Named;
    DataRefusedInput(v, size, was, plan, rnd, k, |plan.dir.entries|);
    if AnchorOffset(v, plan.pass, size).Some? && DataPieces(v, size, was, plan, rnd, k, |plan.dir.entries|).Ok?
       && RequiredBlocks(|plan.dir.entries|) - 1 <= |plan.dir.overflow| {
      var anchor := AnchorOffset(v, plan.pass, size).value;
      var data := DataPieces(v, size, was, plan, rnd, k, |plan.dir.entries|).value;
      BlocksRefusedInput(v, size, plan, anchor, rnd, k + |data|, RequiredBlocks(|plan.dir.entries|));
    }
  }

  lemma {:induction false} PlansRefusedInput(v: Env, size: nat, was: Option<seq<byte>>, plans: seq<Plan>, rnd: Random)
    requires Drawn(rnd, size) && forall j :: 0 <= j < |plans| ==> AtHand(v, was, plans[j])
    ensures AllPieces(v, size, was, plans, rnd).Err? ==> AllPieces(v, size, was, plans, rnd).error == ErrInput
  {
    hide PlanPieces, AtHand, Drawn;
    if |plans| > 0 {
      var n := |plans| - 1;
      PlansRefusedInput(v, size, was, plans[..n], rnd);
      if AllPieces(v, size, was, plans[..n], rnd).Ok? {
        PlanRefusedInput(v, size, was, plans[n], rnd, |AllPieces(v, size, was, plans[..n], rnd).value|);
      }
    }
  }

  /** With all contents and names at hand, a rewrite is refused for its places only, as input: too small a
      container, too few blocks for the directory, a place outside, or two that meet. */
  lemma RewriteRefusedInput(v: Env, size: nat, was: Option<seq<byte>>, plans: seq<Plan>, rnd: Random)
    requires Exact(v.c.aead) && Drawn(rnd, size) && forall j :: 0 <= j < |plans| ==> AtHand(v, was, plans[j])
    ensures AllBlobsFit(plans)
    ensures RewriteResult(v, size, was, plans, rnd).Err? ==> RewriteResult(v, size, was, plans, rnd).error == ErrInput
  {
    hide AllPieces, PutAll, Disjoint, Drawn, BlobsFit, Named, BlobFor, RequiredBlocks;
    PlansRefusedInput(v, size, was, plans, rnd);
  }

  /** An accepted rewrite had everything at hand. */
  lemma AcceptedSealable(v: Env, size: nat, was: Option<seq<byte>>, plans: seq<Plan>, rnd: Random, j: nat)
    requires Exact(v.c.aead) && Drawn(rnd, size) && AllBlobsFit(plans) && j < |plans|
    requires RewriteResult(v, size, was, plans, rnd).Ok?
    ensures Sealable(v, size, was, plans[j])
  {
    hide AllPieces, PlanPieces, PutAll, Disjoint, Drawn, BlobsFit, AnchorOffset, BlockOf, BlockBytes, BlobFor, RequiredBlocks, DataIn;
    var k := PlanIn(v, size, was, plans, rnd, j);
    PlanParts(v, size, was, plans[j], rnd, k);
    AnchorInside(v, plans[j].pass, size);
    var dir := plans[j].dir;
    forall i: nat | i < |dir.entries|
      ensures |dir.entries[i].name| <= MAX_NAME && BlobFor(v, was, plans[j], i).Some?
    {
      var b := EntryInBlock(dir, i);
      NamedInBlock(dir, b, i, v.log);
    }
  }

  lemma NamedInBlock(dir: Dir, b: nat, i: nat, log: byte)
    requires i < |dir.entries| && BlockFits(dir, RequiredBlocks(|dir.entries|), b)
    requires PER_INNER * b <= i < PER_INNER * b + DataIn(|dir.entries|, RequiredBlocks(|dir.entries|), b)
    requires Named(BlockOf(dir, RequiredBlocks(|dir.entries|), b, log))
    ensures |dir.entries[i].name| <= MAX_NAME
  {
    hide RequiredBlocks, DataIn;
    var es := BlockOf(dir, RequiredBlocks(|dir.entries|), b, log);
    assert es[i - PER_INNER * b].name == dir.entries[i].name;
  }

  /** Every rewrite: accepted exactly when everything is at hand, all places are in the container and none
      meets another. */
  lemma RewriteExact(v: Env, size: nat, was: Option<seq<byte>>, plans: seq<Plan>, rnd: Random)
    requires Exact(v.c.aead) && Drawn(rnd, size) && AllBlobsFit(plans)
    ensures RewriteResult(v, size, was, plans, rnd).Ok? <==>
      && (forall j :: 0 <= j < |plans| ==> Sealable(v, size, was, plans[j]) && Inside(PlanSlots(v, size, plans[j]), size))
      && PlansApart(v, size, plans)
  {
    hide RewriteResult, Sealable, PlanSlots, PlansApart, Drawn, AllBlobsFit, Inside;
    if RewriteResult(v, size, was, plans, rnd).Ok? {
      forall j | 0 <= j < |plans|
        ensures Sealable(v, size, was, plans[j])
      {
        AcceptedSealable(v, size, was, plans, rnd, j);
      }
    }
    if forall j :: 0 <= j < |plans| ==> Sealable(v, size, was, plans[j]) {
      RewriteAcceptedIff(v, size, was, plans, rnd);
    }
  }

  // ---------------------------------------------------------------------------
  // Volumes that do not open
  // ---------------------------------------------------------------------------

  lemma {:induction false} KeepLost(v: Env, img: seq<byte>, keeps: seq<Pass>)
    ensures KeepPlans(v, img, keeps).None? <==> exists k :: k in keeps && OpenVolume(v, img, k).None?
    ensures KeepRanges(v, img, keeps).None? <==> exists k :: k in keeps && OpenVolume(v, img, k).None?
  {
    hide OpenVolume, RangesOf;
    if |keeps| > 0 {
      KeepLost(v, img, keeps[..|keeps| - 1]);
      assert forall k :: k in keeps <==> k in keeps[..|keeps| - 1] || k == keeps[|keeps| - 1];
    }
  }

  /** A kept volume that does not open stops every change, as an integrity error. */
  lemma LostKeepRefused(v: Env, img: seq<byte>, target: Plan, keeps: seq<Pass>, rnd: Random, k: Pass)
    requires Exact(v.c.aead) && Drawn(rnd, |img|) && BlobsFit(target)
    requires k in keeps && OpenVolume(v, img, k).None?
    ensures Mutate(v, img, target, keeps, rnd) == Err(ErrIntegrity)
  {
    hide OpenVolume, KeepPlans, RewriteResult, Drawn;
    KeepLost(v, img, keeps);
  }

  /** Under a passphrase that opens nothing, or with a kept volume that does not open, every command is refused
      and nothing is written: with an integrity error, unless the request itself is at fault. */
  lemma UnopenedRefused(v: Env, img: seq<byte>, pass: Pass, newPass: Pass, name: seq<byte>, req: Request, keeps: seq<Pass>, rnd: Random)
    requires Exact(v.c.aead) && Drawn(rnd, |img|)
    requires OpenVolume(v, img, pass).None? || exists k :: k in keeps && OpenVolume(v, img, k).None?
    ensures ChangePass(v, img, pass, newPass, keeps, rnd) == Err(ErrIntegrity)
    ensures Remove(v, img, pass, name, keeps, rnd)
      == Err(if OpenVolume(v, img, pass).Some? && Find(OpenVolume(v, img, pass).value.0.entries, name).None? then ErrInput else ErrIntegrity)
    ensures Add(v, img, pass, req, keeps, rnd)
      == Err(if RequestOk(req) && (OpenVolume(v, img, pass).Some? ==> Admits(OpenVolume(v, img, pass).value.0, req))
             then ErrIntegrity else ErrInput)
    ensures OpenVolume(v, img, pass).Some? ==> CreateIn(v, img, newPass, keeps, rnd) == Err(ErrIntegrity)
  {
    hide OpenVolume, Mutate, Drawn, KeepPlans, KeepRanges, Find, RequestOk, CapacityFor;
    KeepLost(v, img, keeps);
    if k :| k in keeps && OpenVolume(v, img, k).None? {
      LostKeepRefused(v, img, Plan(newPass, newPass, Dir([], []), map[]), keeps, rnd, k);
      if OpenVolume(v, img, pass).Some? {
        var dir := OpenVolume(v, img, pass).value.0;
        LostKeepRefused(v, img, Plan(newPass, pass, dir, map[]), keeps, rnd, k);
        if Find(dir.entries, name).Some? {
          LostKeepRefused(v, img, Plan(pass, pass, dir.(entries := RemoveAt(dir.entries, Find(dir.entries, name).value)), map[]), keeps, rnd, k);
        }
      }
    }
  }

  /** What the open volume must allow: the name free or to be replaced, and content that fits. */
  ghost predicate Admits(found: Dir, req: Request)
  {
    && (Find(found.entries, req.name).Some? ==> req.replace)
    && CapacityFor(req) <= MAX_CAPACITY && |req.content| <= CapacityFor(req) - 8
  }

  /** A new container is made exactly if it can hold an anchor; otherwise it is refused as input. */
  lemma CreateNewExact(v: Env, size: nat, pass: Pass, rnd: Random)
    requires Exact(v.c.aead) && Drawn(rnd, size)
    ensures CreateNew(v, size, pass, rnd).Ok? <==> size >= SPAN
    ensures size < SPAN ==> CreateNew(v, size, pass, rnd) == Err(ErrInput)
  {
    hide RewriteResult, Sealable, PlanSlots, Drawn, Inside, Disjoint;
    if size >= SPAN {
      EmptyPlan(v, size, None, pass);
      RewriteAcceptedIff(v, size, None, [Plan(pass, pass, Dir([], []), map[])], rnd);
    }
  }

  // ---------------------------------------------------------------------------
  // Tidy containers
  // ---------------------------------------------------------------------------

  /** With tidy volumes to keep, a change that can be sealed is refused for its places, as input. */
  lemma MutateRefusedInput(v: Env, img: seq<byte>, target: Plan, keeps: seq<Pass>, rnd: Random)
    requires Exact(v.c.aead) && Drawn(rnd, |img|) && Tidy(v, img, PassSet(keeps)) && Sealable(v, |img|, Some(img), target)
    ensures Mutate(v, img, target, keeps, rnd).Err? ==> Mutate(v, img, target, keeps, rnd).error == ErrInput
  {
    hide RewriteResult, PlanSlots, Drawn, Inside, Disjoint, VolumeRanges, KeepPlans, Sound, OpenVolume, Named, BlobFor, RequiredBlocks, BlobsFit;
    forall k | k in keeps
      ensures OpenVolume(v, img, k).Some?
    {
      assert k in PassSet(keeps);
      SoundOpens(v, img, k);
    }
    KeepLost(v, img, keeps);
    var ps := KeepPlans(v, img, keeps).value;
    var plans := [target] + ps;
    forall j | 0 <= j < |plans|
      ensures Sealable(v, |img|, Some(img), plans[j])
    {
      if j > 0 {
        KeepPlanAt(v, img, keeps, j - 1);
        assert keeps[j - 1] in PassSet(keeps);
        SoundSealable(v, img, keeps[j - 1]);
      }
    }
    RewriteRefusedInput(v, |img|, Some(img), plans, rnd);
  }

  /** In a tidy container no command fails for integrity: whatever is refused is refused as input. */
  lemma TidyRefusedInput(v: Env, img: seq<byte>, pass: Pass, newPass: Pass, name: seq<byte>, req: Request, keeps: seq<Pass>, rnd: Random)
    requires Exact(v.c.aead) && Drawn(rnd, |img|) && Tidy(v, img, {pass} + PassSet(keeps))
    ensures Remove(v, img, pass, name, keeps, rnd).Err? ==> Remove(v, img, pass, name, keeps, rnd).error == ErrInput
    ensures ChangePass(v, img, pass, newPass, keeps, rnd).Err? ==> ChangePass(v, img, pass, newPass, keeps, rnd).error == ErrInput
    ensures CreateIn(v, img, newPass, keeps, rnd).Err? ==> CreateIn(v, img, newPass, keeps, rnd).error == ErrInput
    ensures Add(v, img, pass, req, keeps, rnd).Err? ==> Add(v, img, pass, req, keeps, rnd).error == ErrInput
  {
    hide OpenVolume, Mutate, Drawn, Tidy, Sealable, Sound, AnchorOffset, Find, AddPlan, PlanSlots, Inside, Disjoint, VolumeRanges, BodyRanges, Apart;
    TidyParts(v, img, pass, keeps);
    SoundOpens(v, img, pass);
    var dir := OpenVolume(v, img, pass).value.0;
    if Find(dir.entries, name).Some? {
      var i := Find(dir.entries, name).value;
      RemovedPlan(v, img, pass, i);
      MutateRefusedInput(v, img, Plan(pass, pass, dir.(entries := RemoveAt(dir.entries, i)), map[]), keeps, rnd);
    }
    OpenedAnchor(v, img, pass);
    AnchorInside(v, newPass, |img|);
    RekeyedPlan(v, img, pass, newPass);
    MutateRefusedInput(v, img, Plan(newPass, pass, dir, map[]), keeps, rnd);
    EmptyPlan(v, |img|, Some(img), newPass);
    MutateRefusedInput(v, img, Plan(newPass, newPass, Dir([], []), map[]), keeps, rnd);
    KeepRangesInside(v, img, keeps);
    AddPlanRefusal(v, img, pass, req, keeps, rnd);
    if AddPlan(v, img, pass, req, keeps, rnd).Ok? {
      AddSealable(v, img, pass, req, keeps, rnd);
      MutateRefusedInput(v, img, AddPlan(v, img, pass, req, keeps, rnd).value, keeps, rnd);
    }
  }

  lemma AddPlanRefusal(v: Env, img: seq<byte>, pass: Pass, req: Request, keeps: seq<Pass>, rnd: Random)
    requires Drawn(rnd, |img|) && OpenVolume(v, img, pass).Some? && KeepRanges(v, img, keeps).Some?
    ensures AddPlan(v, img, pass, req, keeps, rnd).Err? ==> AddPlan(v, img, pass, req, keeps, rnd).error == ErrInput
  {
    hide OpenVolume, KeepRanges, Find, RequestOk, CapacityFor, Placed, Extended, RangesOf, Drawn;
  }
}
