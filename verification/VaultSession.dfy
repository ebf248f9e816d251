/** The volume commands of src/vault.c as methods, proved against the functions of VaultCommands. */
module VaultSession {
  import opened Common
  import opened Framing
  import opened Vault
  import opened VaultCommands
  import opened VaultDir
  import opened VaultImage
  import opened VaultRanges
  import opened VaultRewrite
  import opened VaultSeal
  import opened VaultSlot

  lemma {:induction false} KeepFails(v: Env, img: seq<byte>, keeps: seq<Pass>, k: nat)
    requires k < |keeps| && OpenVolume(v, img, keeps[k]).None?
    ensures KeepPlans(v, img, keeps).None? && KeepRanges(v, img, keeps).None?
    decreases |keeps|
  {
    hide OpenVolume;
    if k < |keeps| - 1 {
      KeepFails(v, img, keeps[..|keeps| - 1], k);
    }
  }

  /** Loads the volumes to keep. */
  method LoadKeeps(v: Env, img: seq<byte>, keeps: seq<Pass>) returns (r: Option<seq<Plan>>)
    requires Exact(v.c.aead)
    ensures r == KeepPlans(v, img, keeps)
  {
    hide OpenVolume;
    var plans: seq<Plan> := [];
    var k: nat := 0;
    while k < |keeps|
      invariant k <= |keeps| && KeepPlans(v, img, keeps[..k]) == Some(plans)
    {
      var found := OpenFor(v, img, keeps[k]);
      if found.None? {
        KeepFails(v, img, keeps, k);
        return None;
      }
      assert keeps[..k + 1][..k] == keeps[..k];
      plans := plans + [Plan(keeps[k], keeps[k], found.value.0, map[])];
      k := k + 1;
    }
    assert keeps[..k] == keeps;
    r := Some(plans);
  }

  /** vault_mutate. */
  method MutateVolume(v: Env, img: seq<byte>, target: Plan, keeps: seq<Pass>, rnd: Random) returns (r: Result<seq<byte>>)
    requires Exact(v.c.aead) && Drawn(rnd, |img|) && BlobsFit(target)
    ensures r == Mutate(v, img, target, keeps, rnd)
  {
    hide KeepPlans, Drawn, BlobsFit, RewriteResult;
    var plans := LoadKeeps(v, img, keeps);
    if plans.None? {
      return Err(ErrIntegrity);
    }
    KeepsFit(target, plans.value);
    r := Rewrite(v, |img|, Some(img), [target] + plans.value, rnd);
  }

  /** vault_volume_rm. */
  method RemoveSlot(v: Env, img: seq<byte>, pass: Pass, name: seq<byte>, keeps: seq<Pass>, rnd: Random)
    returns (r: Result<seq<byte>>)
    requires Exact(v.c.aead) && Drawn(rnd, |img|)
    ensures r == Remove(v, img, pass, name, keeps, rnd)
  {
    hide OpenVolume, Mutate, Drawn, Find;
    var found := OpenFor(v, img, pass);
    if found.None? {
      return Err(ErrIntegrity);
    }
    var d := new Directory(found.value.0);
    var ok := d.RemoveName(name);
    if !ok {
      return Err(ErrInput);
    }
    r := MutateVolume(v, img, Plan(pass, pass, Dir(d.entries, d.overflow), map[]), keeps, rnd);
  }

  /** vault_volume_passwd. */
  method Rekey(v: Env, img: seq<byte>, pass: Pass, newPass: Pass, keeps: seq<Pass>, rnd: Random) returns (r: Result<seq<byte>>)
    requires Exact(v.c.aead) && Drawn(rnd, |img|)
    ensures r == ChangePass(v, img, pass, newPass, keeps, rnd)
  {
    hide OpenVolume, Mutate, Drawn;
    var found := OpenFor(v, img, pass);
    if found.None? {
      return Err(ErrIntegrity);
    }
    r := MutateVolume(v, img, Plan(newPass, pass, found.value.0, map[]), keeps, rnd);
  }

  // ---------------------------------------------------------------------------
  // Placement
  // ---------------------------------------------------------------------------

  method Push(out: array<Range>, n: nat, r: Range)
    requires n < out.Length
    modifies out
    ensures out[..n + 1] == old(out[..n]) + [r]
  {
    out[n] := r;
    assert out[..n + 1] == out[..n] + [r];
  }

  method PushBlocks(offs: seq<nat>, out: array<Range>, n: nat)
    requires n + |offs| <= out.Length
    modifies out
    ensures out[..n + |offs|] == old(out[..n]) + BlockRanges(offs)
  {
    hide BlockRange;
    ghost var was := out[..n];
    var b: nat := 0;
    while b < |offs|
      invariant b <= |offs| && out[..n + b] == was + BlockRanges(offs)[..b]
    {
      Push(out, n + b, BlockRange(offs[b]));
      NextPart(was, BlockRanges(offs), b);
      b := b + 1;
    }
  }

  method PushSlots(es: seq<Entry>, out: array<Range>, n: nat)
    requires n + |es| <= out.Length
    modifies out
    ensures out[..n + |es|] == old(out[..n]) + SlotRanges(es)
  {
    hide SlotRange;
    ghost var was := out[..n];
    var i: nat := 0;
    while i < |es|
      invariant i <= |es| && out[..n + i] == was + SlotRanges(es)[..i]
    {
      Push(out, n + i, SlotRange(es[i]));
      NextPart(was, SlotRanges(es), i);
      i := i + 1;
    }
  }

  lemma NextPart(was: seq<Range>, rs: seq<Range>, i: nat)
    requires i < |rs|
    ensures was + rs[..i] + [rs[i]] == was + rs[..i + 1]
  {
  }

  /** vault_collect_ranges: anchor, overflow blocks, data slots. */
  method CollectRanges(anchor: nat, dir: Dir, out: array<Range>, n: nat) returns (m: nat)
    requires n + |RangesOf(anchor, dir)| <= out.Length
    modifies out
    ensures m == n + |RangesOf(anchor, dir)| && out[..m] == old(out[..n]) + RangesOf(anchor, dir)
  {
    hide BlockRange, BlockRanges, SlotRanges;
    Push(out, n, BlockRange(anchor));
    PushBlocks(dir.overflow, out, n + 1);
    PushSlots(dir.entries, out, n + 1 + |dir.overflow|);
    m := n + 1 + |dir.overflow| + |dir.entries|;
  }

  lemma RangesFew(v: Env, img: seq<byte>, pass: Pass)
    requires OpenVolume(v, img, pass).Some?
    ensures var (dir, anchor) := OpenVolume(v, img, pass).value;
      |RangesOf(anchor, dir)| <= MAX_VOLUME + MAX_BLOCKS && NonEmpty(RangesOf(anchor, dir))
  {
    hide OpenVolume, AllTrusted, NoPointers;
    OpenedOk(v, img, pass);
    var (dir, anchor) := OpenVolume(v, img, pass).value;
    RangesNonEmpty(anchor, dir);
  }

  /** Appends the ranges of the kept volumes. */
  method CollectKeeps(v: Env, img: seq<byte>, keeps: seq<Pass>, out: array<Range>, n: nat) returns (ok: bool, m: nat)
    requires Exact(v.c.aead) && n + |keeps| * (MAX_VOLUME + MAX_BLOCKS) <= out.Length && NonEmpty(out[..n])
    modifies out
    ensures ok <==> KeepRanges(v, img, keeps).Some?
    ensures ok ==> n <= m <= n + |keeps| * (MAX_VOLUME + MAX_BLOCKS)
    ensures ok ==> out[..m] == old(out[..n]) + KeepRanges(v, img, keeps).value && NonEmpty(out[..m])
  {
    hide OpenVolume, NonEmpty, RangesOf;
    m := n;
    ghost var was := out[..n];
    ghost var rs: seq<Range> := [];
    var k: nat := 0;
    while k < |keeps|
      invariant k <= |keeps| && n <= m <= n + k * (MAX_VOLUME + MAX_BLOCKS)
      invariant KeepRanges(v, img, keeps[..k]) == Some(rs) && out[..m] == was + rs && NonEmpty(out[..m])
    {
      var found := OpenFor(v, img, keeps[k]);
      if found.None? {
        KeepFails(v, img, keeps, k);
        return false, m;
      }
      RangesFew(v, img, keeps[k]);
      var (dir, anchor) := found.value;
      assert keeps[..k + 1][..k] == keeps[..k];
      NonEmptyMore(out[..m], RangesOf(anchor, dir));
      m := CollectRanges(anchor, dir, out, m);
      rs := rs + RangesOf(anchor, dir);
      k := k + 1;
    }
    assert keeps[..k] == keeps;
    ok := true;
  }

  lemma FirstFitPermuted(a: seq<Range>, b: seq<Range>, size: nat, need: nat)
    requires multiset(a) == multiset(b)
    ensures FirstFit(a, size, need) == FirstFit(b, size, need)
  {
    hide IsLeastFit, FirstFit, Stretched;
    FirstFitIs(a, size, need, FirstFit(a, size, need));
    LeastFitPermuted(a, b, size, need, FirstFit(a, size, need));
    FirstFitIs(b, size, need, FirstFit(a, size, need));
  }

  lemma {:induction false} PlaceBlocksPermuted(a: seq<Range>, b: seq<Range>, size: nat, overflow: seq<nat>, needed: nat)
    requires multiset(a) == multiset(b)
    ensures PlaceBlocks(a, size, overflow, needed) == PlaceBlocks(b, size, overflow, needed)
    decreases needed - |overflow|
  {
    hide FirstFit;
    FirstFitPermuted(a, b, size, SPAN);
    if |overflow| < needed && FirstFit(a, size, SPAN).Some? {
      var o := FirstFit(a, size, SPAN).value;
      PlaceBlocksPermuted(a + [Range(o, o + SPAN)], b + [Range(o, o + SPAN)], size, overflow + [o], needed);
    }
  }

  /** vault_find_free on the collected ranges; they end up in another order. */
  method FindRoom(ranges: array<Range>, n: nat, size: nat, need: nat) returns (answer: Option<nat>)
    requires n <= ranges.Length && NonEmpty(ranges[..n]) && need > 0
    modifies ranges
    ensures answer == FirstFit(old(ranges[..n]), size, need)
    ensures multiset(ranges[..n]) == multiset(old(ranges[..n])) && NonEmpty(ranges[..n])
  {
    hide IsLeastFit, FirstFit, Stretched;
    ghost var was := ranges[..n];
    answer := FindFree(ranges, n, size, need);
    FirstFitIs(was, size, need, answer);
    NonEmptyPermuted(was, ranges[..n]);
  }

  method Claim(ranges: array<Range>, n: nat, r: Range)
    requires n < ranges.Length && NonEmpty(ranges[..n]) && r.start < r.end
    modifies ranges
    ensures ranges[..n + 1] == old(ranges[..n]) + [r] && NonEmpty(ranges[..n + 1])
  {
    ranges[n] := r;
    assert ranges[..n + 1] == ranges[..n] + [r];
  }

  /** Places the missing overflow blocks. */
  method PlaceOverflow(ranges: array<Range>, n: nat, size: nat, overflow: seq<nat>, needed: nat) returns (r: Option<seq<nat>>)
    requires n + needed <= ranges.Length && NonEmpty(ranges[..n])
    modifies ranges
    ensures r == PlaceBlocks(old(ranges[..n]), size, overflow, needed)
  {
    hide FirstFit, NonEmpty;
    ghost var rs := ranges[..n];
    var m: nat, offs: seq<nat> := n, overflow;
    while |offs| < needed
      invariant n <= m && (|offs| < needed ==> m + (needed - |offs|) <= ranges.Length) && m <= ranges.Length && NonEmpty(ranges[..m])
      invariant PlaceBlocks(rs, size, overflow, needed) == PlaceBlocks(ranges[..m], size, offs, needed)
      decreases needed - |offs|
    {
      ghost var before := ranges[..m];
      SlotPositive(BLOCK);
      var o := FindRoom(ranges, m, size, SPAN);
      if o.None? {
        return None;
      }
      Claim(ranges, m, Range(o.value, o.value + SPAN));
      PlaceBlocksPermuted(before + [Range(o.value, o.value + SPAN)], ranges[..m + 1], size, offs + [o.value], needed);
      m := m + 1;
      offs := offs + [o.value];
    }
    r := Some(offs);
  }

  // ---------------------------------------------------------------------------
  // Adding
  // ---------------------------------------------------------------------------

  /** The directory to add to, without the entry a replacement drops. */
  method Base(dir: Dir, req: Request) returns (r: Result<Dir>)
    ensures r == BaseDir(dir, req)
  {
    hide Find;
    var d := new Directory(dir);
    var hit := d.FindName(req.name);
    if hit.Some? {
      if !req.replace {
        return Err(ErrInput);
      }
      var ok := d.RemoveName(req.name);
    }
    r := Ok(Dir(d.entries, d.overflow));
  }

  /** Collects what is occupied in the visible volumes. */
  method CollectAll(v: Env, img: seq<byte>, anchor: nat, dir: Dir, keeps: seq<Pass>)
    returns (ok: bool, ranges: array<Range>, n: nat)
    requires Exact(v.c.aead) && DirOk(dir)
    ensures fresh(ranges) && (ok <==> KeepRanges(v, img, keeps).Some?)
    ensures ok ==> n + MAX_BLOCKS < ranges.Length && NonEmpty(ranges[..n])
    ensures ok ==> ranges[..n] == RangesOf(anchor, dir) + KeepRanges(v, img, keeps).value
  {
    hide KeepRanges, RangesOf, NonEmpty, SlotLen, AllTrusted, NoPointers;
    ranges := new Range[(1 + |keeps|) * (MAX_VOLUME + MAX_BLOCKS) + MAX_BLOCKS + 1](_ => Range(0, 0));
    RangesNonEmpty(anchor, dir);
    n := CollectRanges(anchor, dir, ranges, 0);
    assert ranges[..n] == RangesOf(anchor, dir);
    ok, n := CollectKeeps(v, img, keeps, ranges, n);
  }

  /** Picks the new slot's offset and claims it. */
  method PickOffset(ranges: array<Range>, n: nat, size: nat, req: Request) returns (o: Option<nat>)
    requires n < ranges.Length && NonEmpty(ranges[..n])
    modifies ranges
    ensures o == Placed(old(ranges[..n]), size, req)
    ensures o.Some? ==> NonEmpty(ranges[..n + 1])
    ensures o.Some? ==>
      multiset(ranges[..n + 1]) == multiset(old(ranges[..n]) + [Range(o.value, o.value + SlotLen(CapacityFor(req)))])
  {
    hide FirstFit, NonEmpty, CapacityFor, SlotLen;
    SlotPositive(CapacityFor(req));
    o := req.offset;
    if o.None? {
      o := FindRoom(ranges, n, size, SlotLen(CapacityFor(req)));
    }
    if o.Some? {
      Claim(ranges, n, Range(o.value, o.value + SlotLen(CapacityFor(req))));
    }
  }

  /** The directory entry and the overflow blocks, among the claimed ranges rs in some order. */
  method Extend(ranges: array<Range>, n: nat, ghost rs: seq<Range>, size: nat, dir: Dir, e: Entry) returns (r: Option<Dir>)
    requires n + MAX_BLOCKS <= ranges.Length && NonEmpty(ranges[..n]) && multiset(ranges[..n]) == multiset(rs)
    requires |e.name| <= MAX_NAME
    modifies ranges
    ensures r == Extended(rs, size, dir, e)
  {
    hide PlaceBlocks, Find, RequiredBlocks, NonEmpty;
    var d := new Directory(dir);
    var added := d.AddEntry(e);
    if !added {
      return None;
    }
    FewBlocks(|d.entries|);
    var needed := RequiredBlocks(|d.entries|) - 1;
    PlaceBlocksPermuted(ranges[..n], rs, size, d.overflow, needed);
    var overflow := PlaceOverflow(ranges, n, size, d.overflow, needed);
    r := if overflow.None? then None else Some(Dir(d.entries, overflow.value));
  }

  /** Placement, directory entry and blob of an add whose volume is open. */
  method Finish(v: Env, img: seq<byte>, pass: Pass, dir: Dir, anchor: nat, req: Request, keeps: seq<Pass>, rnd: Random)
    returns (r: Result<Plan>)
    requires Exact(v.c.aead) && Drawn(rnd, |img|) && DirOk(dir) && |req.name| <= MAX_NAME
    requires CapacityFor(req) >= 8 && |req.content| <= CapacityFor(req) - 8
    ensures r == Planned(v, img, pass, dir, anchor, req, keeps, rnd)
  {
    hide Drawn, BlobsFit, KeepRanges, Placed, Extended, RangesOf, MakeBlob, SlotLen, CapacityFor, DirOk, NonEmpty;
    var ok, ranges, n := CollectAll(v, img, anchor, dir, keeps);
    if !ok {
      return Err(ErrIntegrity);
    }
    ghost var rs := ranges[..n];
    var offset := PickOffset(ranges, n, |img|, req);
    if offset.None? {
      return Err(ErrInput);
    }
    var capacity := CapacityFor(req);
    NoiseSize(rnd, |img|, capacity);
    var blob := MakeBlob(req.content, capacity, rnd.noise(capacity));
    ghost var claimed := rs + [Range(offset.value, offset.value + SlotLen(capacity))];
    var d := Extend(ranges, n + 1, claimed, |img|, dir, Entry(offset.value, capacity, v.log, 0, req.name));
    if d.None? {
      return Err(ErrInput);
    }
    r := Ok(Plan(pass, pass, d.value, map[|dir.entries| := blob]));
  }

  /** Plans the add: the checks, then the placement. */
  method PlanAdd(v: Env, img: seq<byte>, pass: Pass, req: Request, keeps: seq<Pass>, rnd: Random) returns (r: Result<Plan>)
    requires Exact(v.c.aead) && Drawn(rnd, |img|)
    ensures r == AddPlan(v, img, pass, req, keeps, rnd)
  {
    if !RequestOk(req) {
      return Err(ErrInput);
    }
    var found := OpenFor(v, img, pass);
    if found.None? {
      return Err(ErrIntegrity);
    }
    var base := Base(found.value.0, req);
    if base.Err? {
      return Err(base.error);
    }
    hide *;
    AddPlanIs(v, img, pass, req, keeps, rnd);
    OpenedOk(v, img, pass);
    BaseOk(found.value.0, req);
    if CapacityFor(req) > MAX_CAPACITY || |req.content| > CapacityFor(req) - 8 {
      return Err(ErrInput);
    }
    r := Finish(v, img, pass, base.value, found.value.1, req, keeps, rnd);
  }

  lemma FewBlocks(count: nat)
    ensures 1 <= RequiredBlocks(count) && (count <= MAX_VOLUME ==> RequiredBlocks(count) <= MAX_BLOCKS)
  {
    BlockSizes(count);
  }

  /** vault_volume_add_mem. */
  method AddSlot(v: Env, img: seq<byte>, pass: Pass, req: Request, keeps: seq<Pass>, rnd: Random) returns (r: Result<seq<byte>>)
    requires Exact(v.c.aead) && Drawn(rnd, |img|)
    ensures r == Add(v, img, pass, req, keeps, rnd)
  {
    hide AddPlan, Mutate, Drawn;
    var plan := PlanAdd(v, img, pass, req, keeps, rnd);
    if plan.Err? {
      return Err(plan.error);
    }
    r := MutateVolume(v, img, plan.value, keeps, rnd);
  }
}
