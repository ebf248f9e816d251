/** Exactly when each volume command of src/vault.c is accepted, in the containers the commands make. */
module VaultAccept {
  import opened Common
  import opened Framing
  import opened Vault
  import opened VaultCommands
  import opened VaultDir
  import opened VaultRanges
  import opened VaultRewrite
  import opened VaultRuns
  import opened VaultSlot
  import opened VaultTidy

  // ---------------------------------------------------------------------------
  // Removing, changing the passphrase, creating
  // ---------------------------------------------------------------------------

  /** Fewer entries and fewer blocks take no new room. */
  lemma FewerRanges(anchor: nat, dir: Dir, i: nat, n: nat)
    requires i < |dir.entries| && n <= |dir.overflow|
    ensures multiset(RangesOf(anchor, Dir(RemoveAt(dir.entries, i), dir.overflow[..n]))) <= multiset(RangesOf(anchor, dir))
  {
    hide SlotLen;
    var data, blocks := SlotRanges(dir.entries), BlockRanges(dir.overflow);
    var rest := SlotRanges(RemoveAt(dir.entries, i));
    assert rest == data[..i] + data[i + 1..];
    assert data == data[..i] + [data[i]] + data[i + 1..];
    assert BlockRanges(dir.overflow[..n]) == blocks[..n];
    assert blocks == blocks[..n] + blocks[n..];
  }

  /** The parts of a tidy container a command is given. */
  lemma TidyParts(v: Env, img: seq<byte>, pass: Pass, keeps: seq<Pass>)
    requires Tidy(v, img, {pass} + PassSet(keeps))
    ensures Sound(v, img, pass) && Tidy(v, img, PassSet(keeps))
    ensures forall k :: k in keeps && k != pass ==> Apart(VolumeRanges(v, img, pass), VolumeRanges(v, img, k))
  {
    hide Sound, VolumeRanges, Apart;
    forall k | k in keeps && k != pass
      ensures Apart(VolumeRanges(v, img, pass), VolumeRanges(v, img, k))
    {
      assert k in PassSet(keeps);
    }
  }

  lemma FewerBlocks(a: nat, b: nat)
    requires a <= b
    ensures RequiredBlocks(a) <= RequiredBlocks(b)
  {
  }

  lemma ApartSub(a: seq<Range>, b: seq<Range>, c: seq<Range>)
    requires (forall x :: x in a ==> x in b) && Apart(b, c)
    ensures Apart(a, c)
  {
  }

  /** Removing is accepted exactly when the name is there and the volume itself is not among those to
      keep, nor any of them twice. */
  lemma RemoveAcceptedIff(v: Env, img: seq<byte>, pass: Pass, name: seq<byte>, keeps: seq<Pass>, rnd: Random)
    requires Exact(v.c.aead) && Drawn(rnd, |img|) && Tidy(v, img, {pass} + PassSet(keeps))
    ensures OpenVolume(v, img, pass).Some?
    ensures Remove(v, img, pass, name, keeps, rnd).Ok? <==>
      DistinctPasses([pass] + keeps) && Find(OpenVolume(v, img, pass).value.0.entries, name).Some?
  {
    hide OpenVolume, Mutate, Drawn, Find, Tidy, PlanSlots, VolumeRanges, Inside, Disjoint, Sealable, Sound, DistinctPasses;
    TidyParts(v, img, pass, keeps);
    SoundOpens(v, img, pass);
    MoreDistinct(pass, keeps);
    var dir := OpenVolume(v, img, pass).value.0;
    if Find(dir.entries, name).Some? {
      var i := Find(dir.entries, name).value;
      var target := Plan(pass, pass, dir.(entries := RemoveAt(dir.entries, i)), map[]);
      RemovedPlan(v, img, pass, i);
      RepeatedPassRefused(v, img, target, keeps, rnd);
      MutateAcceptedIff(v, img, target, keeps, rnd);
      forall k | k in keeps && k != pass
        ensures Apart(PlanSlots(v, |img|, target), VolumeRanges(v, img, k))
      {
        ApartSub(PlanSlots(v, |img|, target), VolumeRanges(v, img, pass), VolumeRanges(v, img, k));
      }
    }
  }

  lemma RemovedPlan(v: Env, img: seq<byte>, pass: Pass, i: nat)
    requires Sound(v, img, pass) && i < |OpenVolume(v, img, pass).value.0.entries|
    ensures var dir := OpenVolume(v, img, pass).value.0;
      var target := Plan(pass, pass, dir.(entries := RemoveAt(dir.entries, i)), map[]);
      && Sealable(v, |img|, Some(img), target)
      && Disjoint(PlanSlots(v, |img|, target)) && Inside(PlanSlots(v, |img|, target), |img|)
      && forall x :: x in PlanSlots(v, |img|, target) ==> x in VolumeRanges(v, img, pass)
  {
    hide OpenVolume, AnchorOffset, ReadData, RequiredBlocks, PlanSlots, RangesOf, Disjoint, NoPointers;
    var (dir, anchor) := OpenVolume(v, img, pass).value;
    var es := RemoveAt(dir.entries, i);
    var target := Plan(pass, pass, dir.(entries := es), map[]);
    OpenedOk(v, img, pass);
    OpenedAnchor(v, img, pass);
    FewerBlocks(|es|, |dir.entries|);
    SomeBlocks(target.dir);
    assert forall k: nat :: k < |es| ==> es[k] == dir.entries[if k < i then k else k + 1];
    TrustedNamed(dir.entries);
    PlanSlotsAreRanges(v, |img|, target);
    var slots := RangesOf(anchor, Dir(es, dir.overflow[..RequiredBlocks(|es|) - 1]));
    FewerRanges(anchor, dir, i, RequiredBlocks(|es|) - 1);
    RangesNonEmpty(anchor, dir);
    DisjointSub(slots, RangesOf(anchor, dir));
    SubMembers(slots, RangesOf(anchor, dir));
    SameRanges(PlanSlots(v, |img|, target), slots, |img|);
  }

  lemma SubMembers(a: seq<Range>, b: seq<Range>)
    requires multiset(a) <= multiset(b)
    ensures forall x :: x in a ==> x in b
  {
    forall x | x in a
      ensures x in b
    {
      assert x in multiset(a) && x in multiset(b);
    }
  }

  /** A volume without its anchor. */
  function BodyRanges(dir: Dir): seq<Range>
  {
    BlockRanges(dir.overflow) + SlotRanges(dir.entries)
  }

  /** Changing the passphrase is accepted exactly when no volume is kept twice, the new anchor's place is
      clear of the volume's other blocks, of its slots, and of the kept volumes, and the volume itself is
      kept under its old passphrase only if it is empty. */
  lemma ChangePassAcceptedIff(v: Env, img: seq<byte>, pass: Pass, newPass: Pass, keeps: seq<Pass>, rnd: Random)
    requires Exact(v.c.aead) && Drawn(rnd, |img|) && Tidy(v, img, {pass} + PassSet(keeps))
    ensures OpenVolume(v, img, pass).Some? && AnchorOffset(v, newPass, |img|).Some?
    ensures var place := [BlockRange(AnchorOffset(v, newPass, |img|).value)];
      var dir := OpenVolume(v, img, pass).value.0;
      ChangePass(v, img, pass, newPass, keeps, rnd).Ok? <==>
        && DistinctPasses(keeps)
        && Apart(place, BodyRanges(dir))
        && (forall k :: k in keeps ==> Apart(place, VolumeRanges(v, img, k)))
        && (pass in keeps ==> dir.entries == [])
  {
    hide OpenVolume, AnchorOffset, Mutate, Drawn, Tidy, PlanSlots, VolumeRanges, Inside, Disjoint, Sealable, Sound, BodyRanges, Apart,
         DistinctPasses;
    TidyParts(v, img, pass, keeps);
    SoundOpens(v, img, pass);
    OpenedAnchor(v, img, pass);
    AnchorInside(v, newPass, |img|);
    var dir := OpenVolume(v, img, pass).value.0;
    var target := Plan(newPass, pass, dir, map[]);
    var place := [BlockRange(AnchorOffset(v, newPass, |img|).value)];
    RekeyedPlan(v, img, pass, newPass);
    MutateAcceptedIff(v, img, target, keeps, rnd);
    BodyOfVolume(v, img, pass);
    BodyEmpty(v, img, pass);
    forall k | k in keeps
      ensures Apart(PlanSlots(v, |img|, target), VolumeRanges(v, img, k)) <==>
        Apart(place, VolumeRanges(v, img, k)) && (k == pass ==> dir.entries == [])
    {
      ApartJoined(PlanSlots(v, |img|, target), place, BodyRanges(dir), VolumeRanges(v, img, k));
      if k != pass {
        ApartSub(BodyRanges(dir), VolumeRanges(v, img, pass), VolumeRanges(v, img, k));
      }
    }
  }

  /** A volume's slots and further blocks meet the volume, unless there are none. */
  lemma BodyEmpty(v: Env, img: seq<byte>, p: Pass)
    requires Sound(v, img, p)
    ensures var dir := OpenVolume(v, img, p).value.0;
      Apart(BodyRanges(dir), VolumeRanges(v, img, p)) <==> dir.entries == []
  {
    hide OpenVolume, ReadData, Disjoint, Inside, SlotLen;
    var (dir, anchor) := OpenVolume(v, img, p).value;
    var body := BodyRanges(dir);
    BodyOfVolume(v, img, p);
    if dir.entries == [] {
      assert body == [];
    } else {
      var x := body[|dir.overflow|];
      assert x == SlotRange(dir.entries[0]) && x in body;
      SlotPositive(dir.entries[0].capacity);
      assert Meet(x, x);
    }
  }

  lemma ApartJoined(all: seq<Range>, a: seq<Range>, b: seq<Range>, c: seq<Range>)
    requires forall x :: x in all <==> x in a || x in b
    ensures Apart(all, c) <==> Apart(a, c) && Apart(b, c)
  {
  }

  lemma BodyOfVolume(v: Env, img: seq<byte>, p: Pass)
    requires OpenVolume(v, img, p).Some?
    ensures forall x :: x in BodyRanges(OpenVolume(v, img, p).value.0) ==> x in VolumeRanges(v, img, p)
  {
    hide OpenVolume, BlockRanges, SlotRanges;
    var (dir, anchor) := OpenVolume(v, img, p).value;
    assert RangesOf(anchor, dir) == [BlockRange(anchor)] + BodyRanges(dir);
  }

  lemma RekeyedPlan(v: Env, img: seq<byte>, pass: Pass, newPass: Pass)
    requires Sound(v, img, pass) && AnchorOffset(v, newPass, |img|).Some?
    ensures var dir := OpenVolume(v, img, pass).value.0;
      var target := Plan(newPass, pass, dir, map[]);
      var place := [BlockRange(AnchorOffset(v, newPass, |img|).value)];
      && Sealable(v, |img|, Some(img), target) && Inside(PlanSlots(v, |img|, target), |img|)
      && (Disjoint(PlanSlots(v, |img|, target)) <==> Apart(place, BodyRanges(dir)))
      && forall x :: x in PlanSlots(v, |img|, target) <==> x in place || x in BodyRanges(dir)
  {
    hide OpenVolume, AnchorOffset, ReadData, RequiredBlocks, PlanSlots, RangesOf, BodyRanges, Inside, Disjoint, Apart, NoPointers;
    var (dir, anchor) := OpenVolume(v, img, pass).value;
    var target := Plan(newPass, pass, dir, map[]);
    OpenedOk(v, img, pass);
    OpenedAnchor(v, img, pass);
    AnchorInside(v, newPass, |img|);
    TrustedNamed(dir.entries);
    PlanSlotsAreRanges(v, |img|, target);
    assert dir.overflow[..RequiredBlocks(|dir.entries|) - 1] == dir.overflow;
    var there := AnchorOffset(v, newPass, |img|).value;
    MovedAnchor(dir, anchor, there, |img|);
    SameRanges(PlanSlots(v, |img|, target), RangesOf(there, dir), |img|);
  }

  /** Moving the anchor of a volume that lies apart in the container. */
  lemma MovedAnchor(dir: Dir, anchor: nat, there: nat, size: nat)
    requires Disjoint(RangesOf(anchor, dir)) && Inside(RangesOf(anchor, dir), size) && there + SPAN <= size
    ensures var place, body := [BlockRange(there)], BodyRanges(dir);
      && Inside(RangesOf(there, dir), size)
      && (Disjoint(RangesOf(there, dir)) <==> Apart(place, body))
      && forall x :: x in RangesOf(there, dir) <==> x in place || x in body
  {
    hide BlockRanges, SlotRanges, Disjoint, Apart;
    var place, body := [BlockRange(there)], BodyRanges(dir);
    assert RangesOf(there, dir) == place + body && RangesOf(anchor, dir) == [BlockRange(anchor)] + body;
    DisjointJoin(place, body);
    DisjointJoin([BlockRange(anchor)], body);
    OneDisjoint(BlockRange(there));
    assert forall x :: x in body ==> x in RangesOf(anchor, dir);
  }

  lemma OneDisjoint(r: Range)
    ensures Disjoint([r])
  {
  }

  /** Creating a volume is accepted exactly when no volume is kept twice and the new anchor's place is clear
      of the kept ones; a container too small for an anchor takes none. */
  lemma CreateInAcceptedIff(v: Env, img: seq<byte>, pass: Pass, keeps: seq<Pass>, rnd: Random)
    requires Exact(v.c.aead) && Drawn(rnd, |img|) && Tidy(v, img, PassSet(keeps))
    ensures CreateIn(v, img, pass, keeps, rnd).Ok? <==>
      && |img| >= SPAN && DistinctPasses(keeps)
      && match AnchorOffset(v, pass, |img|)
         case None => false
         case Some(anchor) => forall k :: k in keeps ==> Apart([BlockRange(anchor)], VolumeRanges(v, img, k))
  {
    hide AnchorOffset, Drawn, Tidy, PlanSlots, VolumeRanges, Inside, Disjoint, Sealable, Apart, DistinctPasses, RewriteResult, KeepPlans;
    AnchorInside(v, pass, |img|);
    var target := Plan(pass, pass, Dir([], []), map[]);
    if |img| >= SPAN {
      EmptyPlan(v, |img|, Some(img), pass);
      MutateAcceptedIff(v, img, target, keeps, rnd);
    } else if CreateIn(v, img, pass, keeps, rnd).Ok? {
      KeepsFit(target, KeepPlans(v, img, keeps).value);
      var k := Accepted(v, |img|, Some(img), [target] + KeepPlans(v, img, keeps).value, rnd, 0);
    }
  }

  lemma EmptyPlan(v: Env, size: nat, was: Option<seq<byte>>, pass: Pass)
    requires size >= SPAN
    ensures AnchorOffset(v, pass, size).Some?
    ensures var target := Plan(pass, pass, Dir([], []), map[]);
      && Sealable(v, size, was, target)
      && PlanSlots(v, size, target) == [BlockRange(AnchorOffset(v, pass, size).value)]
      && Inside(PlanSlots(v, size, target), size) && Disjoint(PlanSlots(v, size, target))
  {
    hide AnchorOffset, SlotLen;
    AnchorInside(v, pass, size);
  }

  // ---------------------------------------------------------------------------
  // Adding
  // ---------------------------------------------------------------------------

  /** The ranges of kept volumes lie in the container, also when one is kept twice. */
  lemma {:induction false} KeepRangesInside(v: Env, img: seq<byte>, keeps: seq<Pass>)
    requires Tidy(v, img, PassSet(keeps))
    ensures KeepRanges(v, img, keeps).Some?
    ensures NonEmpty(KeepRanges(v, img, keeps).value) && Inside(KeepRanges(v, img, keeps).value, |img|)
  {
    hide OpenVolume, Sound, RangesOf, Apart, NonEmpty, Inside;
    if |keeps| == 0 {
      NothingInside(|img|);
    } else {
      var n := |keeps| - 1;
      assert keeps[n] in PassSet(keeps);
      assert PassSet(keeps[..n]) <= PassSet(keeps);
      KeepRangesInside(v, img, keeps[..n]);
      SoundRanges(v, img, keeps[n]);
      NonEmptyMore(KeepRanges(v, img, keeps[..n]).value, VolumeRanges(v, img, keeps[n]));
      InsideAll(KeepRanges(v, img, keeps[..n]).value, VolumeRanges(v, img, keeps[n]), |img|);
    }
  }

  lemma NothingInside(size: nat)
    ensures NonEmpty([]) && Inside([], size)
  {
  }

  lemma {:induction false} KeepRangesAre(v: Env, img: seq<byte>, keeps: seq<Pass>)
    requires Tidy(v, img, PassSet(keeps)) && DistinctPasses(keeps)
    ensures KeepRanges(v, img, keeps).Some?
    ensures var rs := KeepRanges(v, img, keeps).value;
      && NonEmpty(rs) && Disjoint(rs) && Inside(rs, |img|)
      && forall x :: x in rs <==> exists k :: k in keeps && x in VolumeRanges(v, img, k)
  {
    hide OpenVolume, Disjoint, Sound, RangesOf, Apart;
    if |keeps| == 0 {
      NoneDisjoint();
    } else {
      var n := |keeps| - 1;
      var front := keeps[..n];
      assert keeps == front + [keeps[n]];
      FewerPasses(v, img, keeps);
      KeepRangesAre(v, img, front);
      var last := VolumeRanges(v, img, keeps[n]);
      assert keeps[n] in PassSet(keeps);
      SoundRanges(v, img, keeps[n]);
      var rs := KeepRanges(v, img, front).value;
      forall k | k in front
        ensures Apart(VolumeRanges(v, img, k), last)
      {
        assert k in PassSet(keeps) && k != keeps[n];
      }
      ApartAll(v, img, front, rs, last);
      DisjointJoin(rs, last);
      NonEmptyMore(rs, last);
    }
  }

  lemma FewerPasses(v: Env, img: seq<byte>, keeps: seq<Pass>)
    requires Tidy(v, img, PassSet(keeps)) && DistinctPasses(keeps) && |keeps| > 0
    ensures Tidy(v, img, PassSet(keeps[..|keeps| - 1])) && DistinctPasses(keeps[..|keeps| - 1])
  {
    hide Sound, VolumeRanges, Apart;
  }

  lemma SoundRanges(v: Env, img: seq<byte>, p: Pass)
    requires Sound(v, img, p)
    ensures OpenVolume(v, img, p).Some? && VolumeRanges(v, img, p) == RangesOf(OpenVolume(v, img, p).value.1, OpenVolume(v, img, p).value.0)
    ensures NonEmpty(VolumeRanges(v, img, p)) && Disjoint(VolumeRanges(v, img, p)) && Inside(VolumeRanges(v, img, p), |img|)
  {
    hide OpenVolume, RangesOf, Disjoint;
    RangesNonEmpty(OpenVolume(v, img, p).value.1, OpenVolume(v, img, p).value.0);
  }

  lemma ApartAll(v: Env, img: seq<byte>, keeps: seq<Pass>, rs: seq<Range>, other: seq<Range>)
    requires forall x :: x in rs <==> exists k :: k in keeps && x in VolumeRanges(v, img, k)
    ensures Apart(rs, other) <==> forall k :: k in keeps ==> Apart(VolumeRanges(v, img, k), other)
  {
    hide VolumeRanges;
    if Apart(rs, other) {
      forall k, x, y | k in keeps && x in VolumeRanges(v, img, k) && y in other
        ensures !Meet(x, y)
      {
        assert x in rs;
      }
    }
  }

  lemma ApartSwap(a: seq<Range>, b: seq<Range>)
    ensures Apart(a, b) <==> Apart(b, a)
  {
  }

  /** With every range in the container first fit is the least fit of the container. */
  lemma FirstFitInside(rs: seq<Range>, size: nat, need: nat)
    requires NonEmpty(rs) && Inside(rs, size)
    ensures IsLeastFit(rs, size, need, FirstFit(rs, size, need))
  {
    hide Stretched, FirstFit, IsLeastFit;
    FirstFitIs(rs, size, need, FirstFit(rs, size, need));
    forall i | 0 <= i < |rs|
      ensures rs[i].start <= size
    {
      assert rs[i] in rs;
    }
    FirstFitExact(rs, size, need, FirstFit(rs, size, need));
  }

  lemma OneMoreRange(rs: seq<Range>, size: nat, need: nat, o: nat)
    requires NonEmpty(rs) && Inside(rs, size) && Disjoint(rs) && Fits(rs, size, need, o) && need > 0
    ensures var more := rs + [Range(o, o + need)];
      NonEmpty(more) && Inside(more, size) && Disjoint(more)
  {
    hide Disjoint;
    DisjointJoin(rs, [Range(o, o + need)]);
    OneDisjoint(Range(o, o + need));
  }

  /** The blocks that were missing are placed in the container, apart from everything and each other. */
  lemma {:induction false} PlaceBlocksApart(rs: seq<Range>, size: nat, overflow: seq<nat>, needed: nat)
    requires NonEmpty(rs) && Inside(rs, size) && Disjoint(rs) && PlaceBlocks(rs, size, overflow, needed).Some?
    ensures var all := PlaceBlocks(rs, size, overflow, needed).value;
      && overflow <= all && (|overflow| <= needed ==> |all| == needed)
      && var more := BlockRanges(all[|overflow|..]);
      && Disjoint(rs + more) && Inside(rs + more, size) && NonEmpty(rs + more)
    decreases needed - |overflow|
  {
    hide FirstFit, NonEmpty, Inside, Disjoint, Fits;
    var all := PlaceBlocks(rs, size, overflow, needed).value;
    if |overflow| >= needed {
      assert rs + BlockRanges(all[|overflow|..]) == rs;
    } else {
      var o := FirstFit(rs, size, SPAN).value;
      FirstFitInside(rs, size, SPAN);
      SlotPositive(BLOCK);
      OneMoreRange(rs, size, SPAN, o);
      PlaceBlocksApart(rs + [BlockRange(o)], size, overflow + [o], needed);
      assert all[|overflow|..] == [o] + all[|overflow| + 1..];
      assert rs + BlockRanges(all[|overflow|..]) == rs + [BlockRange(o)] + BlockRanges(all[|overflow| + 1..]);
    }
  }

  /** What occupies the container for an add: the volume without the entry it replaces, and the kept ones. */
  function Occupied(v: Env, img: seq<byte>, pass: Pass, base: Dir, keeps: seq<Pass>): seq<Range>
  {
    match (OpenVolume(v, img, pass), KeepRanges(v, img, keeps))
    case (Some((_, anchor)), Some(others)) => RangesOf(anchor, base) + others
    case _ => []
  }

  /** There is room: the slot's place, asked for or found, is in the container and clear, and so are places
      for the directory blocks that one more entry needs. */
  ghost predicate AddRoom(v: Env, img: seq<byte>, pass: Pass, base: Dir, req: Request, keeps: seq<Pass>)
  {
    var occupied := Occupied(v, img, pass, base, keeps);
    var need := SlotLen(CapacityFor(req));
    match Placed(occupied, |img|, req)
    case None => false
    case Some(o) =>
      && Fits(occupied, |img|, need, o)
      && PlaceBlocks(occupied + [Range(o, o + need)], |img|, base.overflow, RequiredBlocks(|base.entries| + 1) - 1).Some?
  }

  /** What the request itself must satisfy. */
  predicate Admissible(found: Dir, req: Request)
  {
    && RequestOk(req) && CapacityFor(req) <= MAX_CAPACITY && |req.content| <= CapacityFor(req) - 8
    && BaseDir(found, req).Ok?
    && var base := BaseDir(found, req).value;
       |base.entries| < MAX_VOLUME && Find(base.entries, req.name).None?
  }

  /** The occupied ranges of a tidy container lie in it, whatever is kept. */
  lemma OccupiedInside(v: Env, img: seq<byte>, pass: Pass, req: Request, keeps: seq<Pass>)
    requires Tidy(v, img, {pass} + PassSet(keeps))
    requires OpenVolume(v, img, pass).Some? && BaseDir(OpenVolume(v, img, pass).value.0, req).Ok?
    ensures var base := BaseDir(OpenVolume(v, img, pass).value.0, req).value;
      && KeepRanges(v, img, keeps).Some?
      && NonEmpty(Occupied(v, img, pass, base, keeps)) && Inside(Occupied(v, img, pass, base, keeps), |img|)
  {
    hide OpenVolume, Disjoint, Sound, RangesOf, Apart, Tidy, VolumeRanges, NonEmpty, BaseDir, Inside;
    TidyParts(v, img, pass, keeps);
    var (found, anchor) := OpenVolume(v, img, pass).value;
    var base := BaseDir(found, req).value;
    KeepRangesInside(v, img, keeps);
    SoundRanges(v, img, pass);
    BaseRanges(anchor, found, req);
    SubMembers(RangesOf(anchor, base), VolumeRanges(v, img, pass));
    InsideSub(RangesOf(anchor, base), VolumeRanges(v, img, pass), |img|);
    RangesNonEmpty(anchor, base);
    NonEmptyMore(RangesOf(anchor, base), KeepRanges(v, img, keeps).value);
    InsideAll(RangesOf(anchor, base), KeepRanges(v, img, keeps).value, |img|);
  }

  lemma InsideSub(a: seq<Range>, b: seq<Range>, size: nat)
    requires (forall x :: x in a ==> x in b) && Inside(b, size)
    ensures Inside(a, size)
  {
  }

  /** The occupied ranges of a tidy container lie apart in it. */
  lemma OccupiedApart(v: Env, img: seq<byte>, pass: Pass, req: Request, keeps: seq<Pass>)
    requires Tidy(v, img, {pass} + PassSet(keeps)) && DistinctPasses(keeps) && pass !in keeps
    requires OpenVolume(v, img, pass).Some? && BaseDir(OpenVolume(v, img, pass).value.0, req).Ok?
    ensures var (found, anchor) := OpenVolume(v, img, pass).value;
      var base := BaseDir(found, req).value;
      && KeepRanges(v, img, keeps).Some?
      && Occupied(v, img, pass, base, keeps) == RangesOf(anchor, base) + KeepRanges(v, img, keeps).value
      && NonEmpty(Occupied(v, img, pass, base, keeps)) && Disjoint(Occupied(v, img, pass, base, keeps))
      && Inside(Occupied(v, img, pass, base, keeps), |img|)
  {
    hide OpenVolume, Disjoint, Sound, RangesOf, Apart, Tidy, VolumeRanges, NonEmpty, BaseDir;
    TidyParts(v, img, pass, keeps);
    var (found, anchor) := OpenVolume(v, img, pass).value;
    var base := BaseDir(found, req).value;
    KeepRangesAre(v, img, keeps);
    var others := KeepRanges(v, img, keeps).value;
    SoundRanges(v, img, pass);
    BaseRanges(anchor, found, req);
    var mine, whole := RangesOf(anchor, base), VolumeRanges(v, img, pass);
    RangesNonEmpty(anchor, base);
    DisjointSub(mine, whole);
    SubMembers(mine, whole);
    forall k | k in keeps
      ensures Apart(VolumeRanges(v, img, k), mine)
    {
      ApartSub(mine, whole, VolumeRanges(v, img, k));
      ApartSwap(mine, VolumeRanges(v, img, k));
    }
    ApartAll(v, img, keeps, others, mine);
    ApartSwap(others, mine);
    DisjointJoin(mine, others);
    NonEmptyMore(mine, others);
  }

  lemma BaseRanges(anchor: nat, found: Dir, req: Request)
    requires BaseDir(found, req).Ok?
    ensures multiset(RangesOf(anchor, BaseDir(found, req).value)) <= multiset(RangesOf(anchor, found))
    ensures var base := BaseDir(found, req).value;
      base.overflow == found.overflow && |found.entries| <= |base.entries| + 1 <= |found.entries| + 1
  {
    hide Find, RangesOf;
    if Find(found.entries, req.name).Some? {
      var i := Find(found.entries, req.name).value;
      FewerRanges(anchor, found, i, |found.overflow|);
      assert found.overflow[..|found.overflow|] == found.overflow;
    }
  }

  /** When an add is planned, and what the plan then is. */
  lemma AddPlanIff(v: Env, img: seq<byte>, pass: Pass, req: Request, keeps: seq<Pass>, rnd: Random)
    requires Drawn(rnd, |img|) && OpenVolume(v, img, pass).Some? && KeepRanges(v, img, keeps).Some?
    ensures var found := OpenVolume(v, img, pass).value.0;
      AddPlan(v, img, pass, req, keeps, rnd).Ok? ==> Admissible(found, req)
    ensures var found := OpenVolume(v, img, pass).value.0;
      Admissible(found, req) ==>
        var base := BaseDir(found, req).value;
        var occupied := Occupied(v, img, pass, base, keeps);
        var placed := Placed(occupied, |img|, req);
        var n := RequiredBlocks(|base.entries| + 1) - 1;
        && (AddPlan(v, img, pass, req, keeps, rnd).Ok? <==>
              placed.Some? && PlaceBlocks(occupied + [Range(placed.value, placed.value + SlotLen(CapacityFor(req)))], |img|, base.overflow, n).Some?)
        && (AddPlan(v, img, pass, req, keeps, rnd).Ok? ==>
              var all := PlaceBlocks(occupied + [Range(placed.value, placed.value + SlotLen(CapacityFor(req)))], |img|, base.overflow, n).value;
              var plan := AddPlan(v, img, pass, req, keeps, rnd).value;
              && plan.pass == plan.readPass == pass
              && plan.dir == Dir(base.entries + [Entry(placed.value, CapacityFor(req), v.log, 0, req.name)], all)
              && plan.blobs.Keys == {|base.entries|})
  {
    hide OpenVolume, BaseDir, KeepRanges, Placed, PlaceBlocks, Find, MakeBlob, RequiredBlocks, SlotLen, RangesOf, Drawn, RequestOk;
    var found := OpenVolume(v, img, pass).value.0;
    if RequestOk(req) && BaseDir(found, req).Ok? {
      AddPlanIs(v, img, pass, req, keeps, rnd);
    }
  }

  /** The ranges of the volume with one more slot and some more blocks, beside others. */
  lemma AddedRanges(anchor: nat, es: seq<Entry>, e: Entry, overflow: seq<nat>, more: seq<nat>, others: seq<Range>)
    ensures multiset(RangesOf(anchor, Dir(es + [e], overflow + more)) + others)
      == multiset(RangesOf(anchor, Dir(es, overflow)) + others + [SlotRange(e)] + BlockRanges(more))
  {
    hide SlotLen, SlotRange, BlockRange;
    assert SlotRanges(es + [e]) == SlotRanges(es) + [SlotRange(e)];
    assert BlockRanges(overflow + more) == BlockRanges(overflow) + BlockRanges(more);
  }

  /** Where the planned volume lies, beside the kept ones. */
  lemma AddedApartIff(anchor: nat, es: seq<Entry>, e: Entry, overflow: seq<nat>, more: seq<nat>, others: seq<Range>, size: nat)
    requires var occupied := RangesOf(anchor, Dir(es, overflow)) + others;
      NonEmpty(occupied) && Disjoint(occupied) && Inside(occupied, size)
    requires Fits(RangesOf(anchor, Dir(es, overflow)) + others, size, SlotLen(e.capacity), e.offset) ==>
      && Inside(BlockRanges(more), size)
      && Disjoint(RangesOf(anchor, Dir(es, overflow)) + others + [SlotRange(e)] + BlockRanges(more))
    ensures var mine := RangesOf(anchor, Dir(es + [e], overflow + more));
      (Inside(mine, size) && Disjoint(mine) && Apart(mine, others)) <==>
        Fits(RangesOf(anchor, Dir(es, overflow)) + others, size, SlotLen(e.capacity), e.offset)
  {
    hide RangesOf, BlockRanges, SlotLen, Disjoint;
    var occupied := RangesOf(anchor, Dir(es, overflow)) + others;
    var mine := RangesOf(anchor, Dir(es + [e], overflow + more));
    var all := occupied + [SlotRange(e)] + BlockRanges(more);
    AddedRanges(anchor, es, e, overflow, more, others);
    RangesNonEmpty(anchor, Dir(es + [e], overflow + more));
    OthersNonEmpty(RangesOf(anchor, Dir(es, overflow)), others);
    NonEmptyMore(mine, others);
    SameRanges(all, mine + others, size);
    InsideAll(mine, others, size);
    DisjointJoin(mine, others);
    DisjointJoin(occupied, [SlotRange(e)]);
    DisjointJoin(occupied + [SlotRange(e)], BlockRanges(more));
    SlotPositive(e.capacity);
    assert SlotRange(e) in all;
    assert forall x :: x in mine + others <==> x in all;
    if Inside(mine, size) && Disjoint(mine) && Apart(mine, others) {
      DisjointJoin(RangesOf(anchor, Dir(es, overflow)), others);
      InsideAll(RangesOf(anchor, Dir(es, overflow)), others, size);
    }
    if Fits(occupied, size, SlotLen(e.capacity), e.offset) {
      InsideAll(occupied + [SlotRange(e)], BlockRanges(more), size);
      forall x | x in mine
        ensures x.end <= size
      {
        assert x in mine + others;
      }
    }
  }

  lemma InsideAll(a: seq<Range>, b: seq<Range>, size: nat)
    ensures Inside(a + b, size) <==> Inside(a, size) && Inside(b, size)
  {
    if Inside(a + b, size) {
      forall x | x in a || x in b
        ensures x.end <= size
      {
        assert x in a + b;
      }
    }
  }

  lemma OthersNonEmpty(a: seq<Range>, b: seq<Range>)
    requires NonEmpty(a + b)
    ensures NonEmpty(b)
  {
    forall i | 0 <= i < |b|
      ensures b[i].start < b[i].end
    {
      assert (a + b)[|a| + i] == b[i];
    }
  }

  lemma {:induction false} PlaceBlocksLength(rs: seq<Range>, size: nat, overflow: seq<nat>, needed: nat)
    requires PlaceBlocks(rs, size, overflow, needed).Some? && |overflow| <= needed
    ensures overflow <= PlaceBlocks(rs, size, overflow, needed).value && |PlaceBlocks(rs, size, overflow, needed).value| == needed
    decreases needed - |overflow|
  {
    hide FirstFit;
    if |overflow| < needed {
      var o := FirstFit(rs, size, SPAN).value;
      PlaceBlocksLength(rs + [Range(o, o + SPAN)], size, overflow + [o], needed);
    }
  }

  /** A planned add can be sealed. */
  lemma AddSealable(v: Env, img: seq<byte>, pass: Pass, req: Request, keeps: seq<Pass>, rnd: Random)
    requires Drawn(rnd, |img|) && Sound(v, img, pass) && KeepRanges(v, img, keeps).Some?
    requires AddPlan(v, img, pass, req, keeps, rnd).Ok?
    ensures OpenVolume(v, img, pass).Some? && Admissible(OpenVolume(v, img, pass).value.0, req)
    ensures var plan := AddPlan(v, img, pass, req, keeps, rnd).value;
      && Sealable(v, |img|, Some(img), plan)
      && |plan.dir.overflow| == RequiredBlocks(|plan.dir.entries|) - 1
      && BaseDir(OpenVolume(v, img, pass).value.0, req).value.overflow <= plan.dir.overflow
  {
    hide OpenVolume, AnchorOffset, AddPlan, BaseDir, Find, ReadData, RequiredBlocks, NoPointers, SlotLen, Occupied, Placed, PlaceBlocks,
         Drawn, VolumeRanges, Disjoint, CapacityFor;
    var found := OpenVolume(v, img, pass).value.0;
    AddPlanIff(v, img, pass, req, keeps, rnd);
    var base := BaseDir(found, req).value;
    var plan := AddPlan(v, img, pass, req, keeps, rnd).value;
    OpenedOk(v, img, pass);
    OpenedAnchor(v, img, pass);
    BaseOk(found, req);
    BaseRanges(0, found, req);
    BaseReads(v, img, pass, found, req);
    FewerBlocks(|found.entries|, |base.entries| + 1);
    var o := plan.dir.entries[|base.entries|].offset;
    PlaceBlocksLength(Occupied(v, img, pass, base, keeps) + [Range(o, o + SlotLen(CapacityFor(req)))], |img|, base.overflow,
      RequiredBlocks(|base.entries| + 1) - 1);
    TrustedNamed(base.entries);
    SomeBlocks(plan.dir);
    forall i: nat | i < |plan.dir.entries|
      ensures BlobFor(v, Some(img), plan, i).Some?
    {
      assert i < |base.entries| ==> plan.dir.entries[i] == base.entries[i];
    }
    assert Named(plan.dir.entries);
  }

  /** The slots of the entries that stay still open. */
  lemma BaseReads(v: Env, img: seq<byte>, pass: Pass, found: Dir, req: Request)
    requires BaseDir(found, req).Ok?
    requires forall i: nat :: i < |found.entries| ==> ReadData(v, img, pass, found.entries[i]).Some?
    ensures var es := BaseDir(found, req).value.entries;
      forall i: nat :: i < |es| ==> ReadData(v, img, pass, es[i]).Some?
  {
    hide Find, ReadData;
    var es := BaseDir(found, req).value.entries;
    if Find(found.entries, req.name).Some? {
      var j := Find(found.entries, req.name).value;
      assert forall i: nat :: i < |es| ==> es[i] == found.entries[if i < j then i else i + 1];
    }
  }

  /** Adding is accepted exactly when the request is admissible, there is room, and the volume itself is not
      among those to keep, nor any of them twice; a place found by first fit always is in the container and
      clear. */
  lemma AddAcceptedIff(v: Env, img: seq<byte>, pass: Pass, req: Request, keeps: seq<Pass>, rnd: Random)
    requires Exact(v.c.aead) && Drawn(rnd, |img|) && Tidy(v, img, {pass} + PassSet(keeps))
    ensures OpenVolume(v, img, pass).Some?
    ensures var found := OpenVolume(v, img, pass).value.0;
      Add(v, img, pass, req, keeps, rnd).Ok? <==>
        && DistinctPasses([pass] + keeps)
        && Admissible(found, req) && AddRoom(v, img, pass, BaseDir(found, req).value, req, keeps)
  {
    hide OpenVolume, AddPlan, BaseDir, Drawn, Tidy, Sound, Mutate, PlaceBlocks, Placed, Fits, SlotLen, Occupied, RequestOk, CapacityFor,
         RequiredBlocks, Find, DistinctPasses, BlobsFit;
    TidyParts(v, img, pass, keeps);
    SoundOpens(v, img, pass);
    MoreDistinct(pass, keeps);
    KeepRangesInside(v, img, keeps);
    AddPlanIff(v, img, pass, req, keeps, rnd);
    if AddPlan(v, img, pass, req, keeps, rnd).Ok? {
      RepeatedPassRefused(v, img, AddPlan(v, img, pass, req, keeps, rnd).value, keeps, rnd);
      if DistinctPasses([pass] + keeps) {
        AddPlannedIff(v, img, pass, req, keeps, rnd);
      }
    }
  }

  lemma AddPlannedIff(v: Env, img: seq<byte>, pass: Pass, req: Request, keeps: seq<Pass>, rnd: Random)
    requires Exact(v.c.aead) && Drawn(rnd, |img|)
    requires Tidy(v, img, {pass} + PassSet(keeps)) && DistinctPasses(keeps) && pass !in keeps
    requires AddPlan(v, img, pass, req, keeps, rnd).Ok?
    ensures OpenVolume(v, img, pass).Some? && Admissible(OpenVolume(v, img, pass).value.0, req)
    ensures Add(v, img, pass, req, keeps, rnd).Ok? <==>
      var base := BaseDir(OpenVolume(v, img, pass).value.0, req).value;
      var occupied := Occupied(v, img, pass, base, keeps);
      Placed(occupied, |img|, req).Some?
      && Fits(occupied, |img|, SlotLen(CapacityFor(req)), Placed(occupied, |img|, req).value)
  {
    hide OpenVolume, AddPlan, BaseDir, Drawn, Tidy, Sound, Mutate, PlaceBlocks, Placed, Fits, SlotLen, Occupied, RequestOk, CapacityFor,
         RequiredBlocks, Find, Sealable, PlanSlots, RangesOf, VolumeRanges, BlockRanges, Disjoint, Inside, NonEmpty, Apart;
    TidyParts(v, img, pass, keeps);
    SoundOpens(v, img, pass);
    KeepRangesAre(v, img, keeps);
    AddPlanIff(v, img, pass, req, keeps, rnd);
    AddSealable(v, img, pass, req, keeps, rnd);
    OccupiedApart(v, img, pass, req, keeps);
    var plan := AddPlan(v, img, pass, req, keeps, rnd).value;
    MutateAcceptedIff(v, img, plan, keeps, rnd);
    AddedPlanSlots(v, img, pass, plan, keeps);
    var (found, anchor) := OpenVolume(v, img, pass).value;
    var base := BaseDir(found, req).value;
    var occupied := Occupied(v, img, pass, base, keeps);
    var o := Placed(occupied, |img|, req).value;
    var e := Entry(o, CapacityFor(req), v.log, 0, req.name);
    var more := plan.dir.overflow[|base.overflow|..];
    assert plan.dir == Dir(base.entries + [e], base.overflow + more);
    if Fits(occupied, |img|, SlotLen(e.capacity), o) {
      SlotPositive(e.capacity);
      OneMoreRange(occupied, |img|, SlotLen(e.capacity), o);
      PlaceBlocksApart(occupied + [SlotRange(e)], |img|, base.overflow, RequiredBlocks(|base.entries| + 1) - 1);
      InsideAll(occupied + [SlotRange(e)], BlockRanges(more), |img|);
    }
    AddedApartIff(anchor, base.entries, e, base.overflow, more, KeepRanges(v, img, keeps).value, |img|);
  }

  /** The plan's slots and blocks, and what they must keep clear of. */
  lemma AddedPlanSlots(v: Env, img: seq<byte>, pass: Pass, plan: Plan, keeps: seq<Pass>)
    requires Tidy(v, img, PassSet(keeps)) && DistinctPasses(keeps) && OpenVolume(v, img, pass).Some? && plan.pass == pass
    requires |plan.dir.overflow| == RequiredBlocks(|plan.dir.entries|) - 1
    ensures KeepRanges(v, img, keeps).Some?
    ensures var mine := RangesOf(OpenVolume(v, img, pass).value.1, plan.dir);
      && (Inside(PlanSlots(v, |img|, plan), |img|) <==> Inside(mine, |img|))
      && (Disjoint(PlanSlots(v, |img|, plan)) <==> Disjoint(mine))
      && ((forall k :: k in keeps ==> Apart(PlanSlots(v, |img|, plan), VolumeRanges(v, img, k))) <==>
            Apart(mine, KeepRanges(v, img, keeps).value))
  {
    hide OpenVolume, AnchorOffset, Tidy, RequiredBlocks, PlanSlots, RangesOf, VolumeRanges, Disjoint, Inside, NonEmpty;
    KeepRangesAre(v, img, keeps);
    OpenedAnchor(v, img, pass);
    PlanSlotsAreRanges(v, |img|, plan);
    assert plan.dir.overflow[..RequiredBlocks(|plan.dir.entries|) - 1] == plan.dir.overflow;
    var mine := RangesOf(OpenVolume(v, img, pass).value.1, plan.dir);
    SameRanges(PlanSlots(v, |img|, plan), mine, |img|);
    ApartAll(v, img, keeps, KeepRanges(v, img, keeps).value, mine);
    ApartSwap(mine, KeepRanges(v, img, keeps).value);
    forall k | k in keeps
      ensures Apart(PlanSlots(v, |img|, plan), VolumeRanges(v, img, k)) <==> Apart(VolumeRanges(v, img, k), mine)
    {
      ApartSwap(VolumeRanges(v, img, k), mine);
    }
  }

  /** Automatic placement in a tidy container: the least clear place, found exactly when the slot is no longer
      than the longest free run. */
  lemma AutomaticPlacement(v: Env, img: seq<byte>, pass: Pass, req: Request, keeps: seq<Pass>)
    requires Tidy(v, img, {pass} + PassSet(keeps)) && req.offset.None?
    requires OpenVolume(v, img, pass).Some? && BaseDir(OpenVolume(v, img, pass).value.0, req).Ok?
    ensures var occupied := Occupied(v, img, pass, BaseDir(OpenVolume(v, img, pass).value.0, req).value, keeps);
      var need := SlotLen(CapacityFor(req));
      && IsLeastFit(occupied, |img|, need, Placed(occupied, |img|, req))
      && (Placed(occupied, |img|, req).Some? <==> need <= LongestFree(occupied, |img|))
  {
    hide OpenVolume, BaseDir, Tidy, Occupied, FirstFit, Fits, SlotLen, Disjoint, NonEmpty, Inside, LongestFree;
    OccupiedInside(v, img, pass, req, keeps);
    var occupied := Occupied(v, img, pass, BaseDir(OpenVolume(v, img, pass).value.0, req).value, keeps);
    FirstFitInside(occupied, |img|, SlotLen(CapacityFor(req)));
    SlotPositive(CapacityFor(req));
    LongestFreeIs(occupied, |img|, SlotLen(CapacityFor(req)));
  }

  /** What an accepted add puts into the directory: behind the entries found, without the replaced one, an
      entry of the name with the command's cost. Its capacity is the one asked for, or the least that holds
      the length and the content; its place is the one asked for, or, in a tidy container, the least clear. */
  lemma AddedEntry(v: Env, img: seq<byte>, pass: Pass, req: Request, keeps: seq<Pass>, rnd: Random)
    requires Exact(v.c.aead) && Drawn(rnd, |img|) && |img| <= MAX_OFFSET && CostInRange(v)
    requires Add(v, img, pass, req, keeps, rnd).Ok?
    ensures OpenVolume(v, img, pass).Some? && BaseDir(OpenVolume(v, img, pass).value.0, req).Ok?
    ensures OpenVolume(v, Add(v, img, pass, req, keeps, rnd).value, pass).Some?
    ensures var base := BaseDir(OpenVolume(v, img, pass).value.0, req).value;
      var es := OpenVolume(v, Add(v, img, pass, req, keeps, rnd).value, pass).value.0.entries;
      && |es| == |base.entries| + 1 && es[..|base.entries|] == base.entries
      && var e := es[|base.entries|];
      && e.name == req.name && e.logN == v.log && e.flags == 0
      && e.capacity == (if req.capacity.Some? then req.capacity.value else Max(MIN_CAPACITY, |req.content| + 8))
      && (req.offset.Some? ==> e.offset == req.offset.value)
      && (req.offset.None? && Tidy(v, img, {pass} + PassSet(keeps)) ==>
            IsLeastFit(Occupied(v, img, pass, base, keeps), |img|, SlotLen(e.capacity), Some(e.offset)))
  {
    hide OpenVolume, Mutate, Drawn, BaseDir, AddPlan, RequestOk, Tidy, Occupied, FirstFit, SlotLen, CostInRange, Exact, IsLeastFit;
    AddOpensIff(v, img, pass, req, keeps, rnd);
    AddPlanParts(v, img, pass, req, keeps, rnd);
    PlannedPlace(v, img, pass, req, keeps, rnd);
    if req.offset.None? && Tidy(v, img, {pass} + PassSet(keeps)) {
      AutomaticPlacement(v, img, pass, req, keeps);
    }
  }

  lemma PlannedPlace(v: Env, img: seq<byte>, pass: Pass, req: Request, keeps: seq<Pass>, rnd: Random)
    requires Drawn(rnd, |img|) && AddPlan(v, img, pass, req, keeps, rnd).Ok?
    ensures OpenVolume(v, img, pass).Some? && BaseDir(OpenVolume(v, img, pass).value.0, req).Ok? && KeepRanges(v, img, keeps).Some?
    ensures var base := BaseDir(OpenVolume(v, img, pass).value.0, req).value;
      var es := AddPlan(v, img, pass, req, keeps, rnd).value.dir.entries;
      |es| == |base.entries| + 1
      && Placed(Occupied(v, img, pass, base, keeps), |img|, req) == Some(es[|base.entries|].offset)
  {
    hide OpenVolume, BaseDir, KeepRanges, Placed, PlaceBlocks, Find, MakeBlob, RequiredBlocks, SlotLen, RangesOf, Drawn, RequestOk;
  }

  /** A place that reaches outside the container, whoever chose it, always ends in a refusal. */
  lemma OverreachRefused(v: Env, img: seq<byte>, pass: Pass, req: Request, keeps: seq<Pass>, rnd: Random)
    requires Exact(v.c.aead) && Drawn(rnd, |img|) && AddPlan(v, img, pass, req, keeps, rnd).Ok?
    requires var es := AddPlan(v, img, pass, req, keeps, rnd).value.dir.entries;
      |es| > 0 && es[|es| - 1].offset + SlotLen(es[|es| - 1].capacity) > |img|
    ensures Add(v, img, pass, req, keeps, rnd).Err?
  {
    hide AddPlan, Drawn, Mutate, SlotLen;
    if Add(v, img, pass, req, keeps, rnd).Ok? {
      MutateInside(v, img, AddPlan(v, img, pass, req, keeps, rnd).value, keeps, rnd);
    }
  }

  // ---------------------------------------------------------------------------
  // Runs
  // ---------------------------------------------------------------------------

  /** A new container is tidy, whatever the KDF cost. */
  lemma NewTidy(v: Env, size: nat, pass: Pass, rnd: Random)
    requires Exact(v.c.aead) && Drawn(rnd, size) && SPAN <= size < U64
    ensures CreateNew(v, size, pass, rnd).Ok? && |CreateNew(v, size, pass, rnd).value| == size
    ensures Tidy(v, CreateNew(v, size, pass, rnd).value, {pass})
  {
    hide RewriteResult, Drawn, Tidy;
    var plans := [Plan(pass, pass, Dir([], []), map[])];
    EmptyAccepted(v, size, pass, rnd);
    assert plans[0].pass == pass;
    RewriteTidy(v, size, None, plans, rnd, {pass});
  }

  lemma KeptLasting(v: Env, img: seq<byte>, p: Pass)
    requires OpenVolume(v, img, p).Some? && CostInRange(v)
    ensures Lasting(v, Plan(p, p, OpenVolume(v, img, p).value.0, map[]))
  {
    hide OpenVolume, NoPointers, AllTrusted, Readable;
    OpenedOk(v, img, p);
    OkReadable(v, OpenVolume(v, img, p).value.0);
  }

  /** An accepted command is one rewrite with a lasting directory for the changed volume. */
  lemma LastingTarget(v: Env, img: seq<byte>, cmd: Command, rnd: Random) returns (target: Plan)
    requires Exact(v.c.aead) && Drawn(rnd, |img|) && |img| <= MAX_OFFSET && CostInRange(v)
    requires Execute(v, img, cmd, rnd).Ok?
    ensures BlobsFit(target) && Lasting(v, target)
    ensures target.pass == match cmd case Create(p, _) => p case AddOne(p, _, _) => p case RemoveOne(p, _, _) => p case Rekey(_, q, _) => q
    ensures Execute(v, img, cmd, rnd) == Mutate(v, img, target, cmd.keeps, rnd)
  {
    hide OpenVolume, Mutate, Drawn, AddPlan, Find, NoPointers, AllTrusted, Readable, DirOk, BlobsFit, BaseDir, RequestOk, RequiredBlocks;
    match cmd
    case Create(p, _) =>
      target := Plan(p, p, Dir([], []), map[]);
      EmptyLasting(v, target);
    case AddOne(p, req, ks) =>
      target := AddPlan(v, img, p, req, ks, rnd).value;
      AddPlanParts(v, img, p, req, ks, rnd);
      OpenedOk(v, img, p);
      BaseOk(OpenVolume(v, img, p).value.0, req);
      MutateInside(v, img, target, ks, rnd);
      AddedReadable(v, BaseDir(OpenVolume(v, img, p).value.0, req).value, target.dir, req, |img|);
      FewEntries(v, img, p, req);
    case RemoveOne(p, name, _) =>
      var dir := OpenVolume(v, img, p).value.0;
      target := Plan(p, p, dir.(entries := RemoveAt(dir.entries, Find(dir.entries, name).value)), map[]);
      OpenedOk(v, img, p);
      RemovedOk(dir, Find(dir.entries, name).value);
      DirLasting(v, target);
    case Rekey(p, q, _) =>
      target := Plan(q, p, OpenVolume(v, img, p).value.0, map[]);
      OpenedOk(v, img, p);
      DirLasting(v, target);
  }

  lemma EmptyLasting(v: Env, plan: Plan)
    requires plan.dir == Dir([], []) && plan.blobs == map[]
    ensures Lasting(v, plan) && BlobsFit(plan)
  {
  }

  lemma DirLasting(v: Env, plan: Plan)
    requires DirOk(plan.dir) && CostInRange(v) && plan.blobs == map[]
    ensures Lasting(v, plan) && BlobsFit(plan)
  {
    hide NoPointers, AllTrusted, Readable;
    OkReadable(v, plan.dir);
  }

  lemma FewEntries(v: Env, img: seq<byte>, p: Pass, req: Request)
    requires OpenVolume(v, img, p).Some? && BaseDir(OpenVolume(v, img, p).value.0, req).Ok?
    ensures |BaseDir(OpenVolume(v, img, p).value.0, req).value.entries| <= MAX_VOLUME
  {
    hide OpenVolume, Find;
    OpenedOk(v, img, p);
    BaseOk(OpenVolume(v, img, p).value.0, req);
  }

  /** Each command takes a tidy container to a tidy one: an accepted one leaves its changed and kept volumes
      sound and apart, a refused one changes nothing. */
  lemma StepTidy(v: Env, img: seq<byte>, m: Model, cmd: Command, rnd: Random)
    requires Exact(v.c.aead) && Drawn(rnd, |img|) && |img| <= MAX_OFFSET && CostInRange(v)
    requires Tidy(v, img, m.Keys) && Given(cmd) <= m.Keys
    ensures Tidy(v, After(v, img, cmd, rnd), (if Execute(v, img, cmd, rnd).Ok? then Update(m, cmd) else m).Keys)
  {
    hide Execute, Drawn, CostInRange, Tidy, Lasting, BlobsFit, RewriteResult, KeepPlans, OpenVolume;
    if Execute(v, img, cmd, rnd).Ok? {
      var target := LastingTarget(v, img, cmd, rnd);
      var ps := KeepPlans(v, img, cmd.keeps).value;
      var plans := [target] + ps;
      KeepsFit(target, ps);
      forall j: nat | j < |ps|
        ensures Lasting(v, ps[j]) && ps[j].pass == cmd.keeps[j]
      {
        KeepPlanAt(v, img, cmd.keeps, j);
        KeptLasting(v, img, cmd.keeps[j]);
      }
      forall p | p in Update(m, cmd).Keys
        ensures exists j :: 0 <= j < |plans| && plans[j].pass == p
      {
        if p == target.pass {
          assert plans[0].pass == p;
        } else {
          var j: nat :| j < |cmd.keeps| && cmd.keeps[j] == p;
          assert plans[j + 1] == ps[j];
        }
      }
      forall j | 0 <= j < |plans|
        ensures Lasting(v, plans[j])
      {
        assert j > 0 ==> plans[j] == ps[j - 1];
      }
      RewriteTidy(v, |img|, Some(img), plans, rnd, Update(m, cmd).Keys);
    }
  }

  /** Every container a run reaches is tidy. */
  lemma {:induction false} RunTidy(v: Env, img: seq<byte>, m: Model, cmds: seq<Command>, draws: seq<Random>)
    requires Exact(v.c.aead) && |draws| == |cmds| && forall k :: 0 <= k < |draws| ==> Drawn(draws[k], |img|)
    requires |img| <= MAX_OFFSET && CostInRange(v) && Tidy(v, img, m.Keys)
    ensures var (now, model) := RunAll(v, img, m, cmds, draws);
      model.Some? ==> Tidy(v, now, model.value.Keys)
  {
    hide Execute, Drawn, CostInRange, Tidy;
    if |cmds| > 0 {
      var n := |cmds| - 1;
      RunTidy(v, img, m, cmds[..n], draws[..n]);
      var (now, model) := RunAll(v, img, m, cmds[..n], draws[..n]);
      if model.Some? && Given(cmds[n]) <= model.value.Keys {
        StepTidy(v, now, model.value, cmds[n], draws[n]);
      }
    }
  }

  /** One empty volume. */
  function NewModel(pass: Pass): Model
  {
    map[pass := map[]]
  }

  /** From a new container on: after every run the volumes hold what the model says, lie apart in the
      container, and all their ranges end in it. */
  lemma RunFromNew(v: Env, size: nat, pass: Pass, rnd: Random, cmds: seq<Command>, draws: seq<Random>)
    requires Exact(v.c.aead) && Drawn(rnd, size) && SPAN <= size <= MAX_OFFSET && CostInRange(v)
    requires |draws| == |cmds| && forall k :: 0 <= k < |draws| ==> Drawn(draws[k], size)
    ensures CreateNew(v, size, pass, rnd).Ok? && |CreateNew(v, size, pass, rnd).value| == size
    ensures var (now, model) := RunAll(v, CreateNew(v, size, pass, rnd).value, NewModel(pass), cmds, draws);
      model.Some? ==>
        && Matches(v, now, model.value) && Tidy(v, now, model.value.Keys)
        && forall p :: p in model.value ==> Inside(VolumeRanges(v, now, p), size)
  {
    hide CreateNew, Drawn, Tidy, Holds, RunAll, CostInRange, Inside;
    NewTidy(v, size, pass, rnd);
    var img := CreateNew(v, size, pass, rnd).value;
    NewHolds(v, size, pass, rnd);
    assert NewModel(pass).Keys == {pass};
    RunTidy(v, img, NewModel(pass), cmds, draws);
    RunRefines(v, img, NewModel(pass), cmds, draws);
    var (now, model) := RunAll(v, img, NewModel(pass), cmds, draws);
    if model.Some? {
      forall p | p in model.value
        ensures Inside(VolumeRanges(v, now, p), size)
      {
        TidyInside(v, now, model.value.Keys, p);
      }
    }
  }

  lemma TidyInside(v: Env, img: seq<byte>, ps: set<Pass>, p: Pass)
    requires Tidy(v, img, ps) && p in ps
    ensures Inside(VolumeRanges(v, img, p), |img|)
  {
    hide OpenVolume, VolumeRanges, Inside, Disjoint;
  }

  lemma NewHolds(v: Env, size: nat, pass: Pass, rnd: Random)
    requires Exact(v.c.aead) && Drawn(rnd, size) && SPAN <= size < U64
    ensures CreateNew(v, size, pass, rnd).Ok? && Holds(v, CreateNew(v, size, pass, rnd).value, pass, map[])
  {
    hide CreateNew, Drawn, OpenVolume, Lookup;
    CreateNewRefines(v, size, pass, rnd, []);
    forall name: Name
      ensures Lookup(v, CreateNew(v, size, pass, rnd).value, pass, name) == None
    {
      CreateNewRefines(v, size, pass, rnd, name);
    }
  }

  /** With a KDF cost the directory parser does not trust, adding to a new volume is accepted and makes the
      whole volume unreadable: every request with automatic placement that fits half the free space. */
  lemma AddUnreadable(v: Env, size: nat, pass: Pass, req: Request, rnd: Random, more: Random)
    requires Exact(v.c.aead) && Drawn(rnd, size) && Drawn(more, size) && !CostInRange(v)
    requires RequestOk(req) && req.offset.None? && CapacityFor(req) <= MAX_CAPACITY && |req.content| <= CapacityFor(req) - 8
    requires SPAN + 2 * SlotLen(CapacityFor(req)) <= size <= MAX_OFFSET
    ensures CreateNew(v, size, pass, rnd).Ok? && |CreateNew(v, size, pass, rnd).value| == size
    ensures var img := CreateNew(v, size, pass, rnd).value;
      && OpenVolume(v, img, pass).Some?
      && Add(v, img, pass, req, [], more).Ok?
      && OpenVolume(v, Add(v, img, pass, req, [], more).value, pass).None?
  {
    hide CreateNew, Drawn, Tidy, OpenVolume, Add, CapacityFor, RequestOk, SlotLen, Occupied, Fits, PlaceBlocks, Placed, RangesOf;
    NewTidy(v, size, pass, rnd);
    CreateNewRefines(v, size, pass, rnd, []);
    var img := CreateNew(v, size, pass, rnd).value;
    var (found, anchor) := OpenVolume(v, img, pass).value;
    assert {pass} + PassSet([]) == {pass};
    assert Find(found.entries, req.name) == None && BaseDir(found, req) == Ok(found);
    AddAcceptedIff(v, img, pass, req, [], more);
    AutomaticPlacement(v, img, pass, req, []);
    TidyParts(v, img, pass, []);
    EmptyOccupied(v, img, pass);
    HalfFree(anchor, size, SlotLen(CapacityFor(req)));
    var occupied := Occupied(v, img, pass, found, []);
    var o := Placed(occupied, size, req).value;
    NoMoreBlocks(occupied + [Range(o, o + SlotLen(CapacityFor(req)))], size);
    AddOpensIff(v, img, pass, req, [], more);
  }

  lemma EmptyOccupied(v: Env, img: seq<byte>, pass: Pass)
    requires OpenVolume(v, img, pass).Some? && OpenVolume(v, img, pass).value.0.entries == []
    requires Sound(v, img, pass)
    ensures var (found, anchor) := OpenVolume(v, img, pass).value;
      found == Dir([], []) && anchor + SPAN <= |img| && Occupied(v, img, pass, found, []) == [BlockRange(anchor)]
  {
    hide OpenVolume, AnchorOffset, Disjoint, Inside;
    OpenedAnchor(v, img, pass);
    AnchorInside(v, pass, |img|);
  }

  lemma NoMoreBlocks(rs: seq<Range>, size: nat)
    ensures PlaceBlocks(rs, size, [], RequiredBlocks(0 + 1) - 1).Some?
  {
  }

  /** One anchor leaves at least half of the rest on one of its sides. */
  lemma HalfFree(anchor: nat, size: nat, need: nat)
    requires SPAN + 2 * need <= size && anchor + SPAN <= size
    ensures Fits([BlockRange(anchor)], size, need, if anchor >= need then 0 else anchor + SPAN)
  {
  }
}
