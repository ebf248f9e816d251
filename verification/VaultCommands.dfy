/** The volume commands of src/vault.c (create, add, replace, remove, change passphrase) as updates of a
    map from passphrases and names to contents. */
module VaultCommands {
  import opened Bytes
  import opened Common
  import opened Framing
  import opened Vault
  import opened VaultDir
  import opened VaultRanges
  import opened VaultRewrite
  import opened VaultSlot

  // ---------------------------------------------------------------------------
  // Directories that were opened
  // ---------------------------------------------------------------------------

  /** What every opened directory satisfies. */
  ghost predicate DirOk(dir: Dir)
  {
    && AllTrusted(dir.entries)
    && NoPointers(dir.entries)
    && |dir.entries| <= MAX_VOLUME
    && |dir.overflow| < MAX_BLOCKS
    && forall b :: 0 <= b < |dir.overflow| ==> dir.overflow[b] <= MAX_OFFSET
  }

  lemma {:induction false} AbsorbOk(es: seq<Entry>, dir: Dir)
    requires DirOk(dir) && AllTrusted(es) && Absorb(es, dir).Some?
    ensures var (d, next) := Absorb(es, dir).value;
      DirOk(d) && d.overflow == dir.overflow && (next.Some? ==> next.value <= MAX_OFFSET)
  {
    hide IsOverflow;
    if |es| > 0 {
      AbsorbOk(es[..|es| - 1], dir);
      assert Trusted(es[|es| - 1]);
    }
  }

  lemma {:induction false} FollowOk(read: nat -> Option<seq<Entry>>, b: nat, off: nat, dir: Dir)
    requires DirOk(dir) && b <= MAX_BLOCKS && Follow(read, b, off, dir).Some?
    requires forall o: nat :: read(o).Some? ==> AllTrusted(read(o).value)
    ensures DirOk(Follow(read, b, off, dir).value)
    decreases MAX_BLOCKS - b
  {
    hide Absorb, AllTrusted, NoPointers;
    var es := read(off).value;
    AbsorbOk(es, dir);
    var (d, next) := Absorb(es, dir).value;
    if next.Some? {
      FollowOk(read, b + 1, next.value, d.(overflow := d.overflow + [next.value]));
    }
  }

  lemma OpenedOk(v: Env, img: seq<byte>, pass: Pass)
    requires OpenVolume(v, img, pass).Some?
    ensures DirOk(OpenVolume(v, img, pass).value.0)
  {
    hide ParseBlock, ReadSlot, Follow, AllTrusted;
    forall off: nat | ReadBlock(v, img, pass, off).Some?
      ensures AllTrusted(ReadBlock(v, img, pass, off).value)
    {
      BlockParsedTrusted(ReadSlot(v, img, Place(pass, v.log as nat, off, BLOCK)).value);
    }
    EmptyDirOk();
    FollowOk(Reader(v, img, pass), 0, AnchorOffset(v, pass, |img|).value, Dir([], []));
  }

  lemma EmptyDirOk()
    ensures DirOk(Dir([], []))
  {
  }

  lemma BlockParsedTrusted(b: seq<byte>)
    requires |b| == BLOCK && ParseBlock(b).Some?
    ensures AllTrusted(ParseBlock(b).value)
  {
    hide AllTrusted, ParseEntries;
    var count := FromLittleEndian(b[2..4]);
    ParsedTrusted(b[HEADER..HEADER + count * ENTRY], count);
  }

  predicate CostInRange(v: Env)
  {
    14 <= v.log as nat <= 22
  }

  lemma OkReadable(v: Env, dir: Dir)
    requires DirOk(dir) && CostInRange(v)
    ensures Readable(dir, v.log)
  {
    hide AllTrusted, RequiredBlocks;
  }

  // ---------------------------------------------------------------------------
  // The commands
  // ---------------------------------------------------------------------------

  /** The volumes to keep, as they are. */
  function KeepPlans(v: Env, img: seq<byte>, keeps: seq<Pass>): (r: Option<seq<Plan>>)
    ensures r.Some? ==> |r.value| == |keeps|
    ensures r.Some? ==> forall k :: 0 <= k < |keeps| ==> r.value[k].blobs == map[]
  {
    if |keeps| == 0 then Some([])
    else match KeepPlans(v, img, keeps[..|keeps| - 1])
      case None => None
      case Some(ps) =>
        var k := keeps[|keeps| - 1];
        match OpenVolume(v, img, k)
        case None => None
        case Some((dir, _)) => Some(ps + [Plan(k, k, dir, map[])])
  }

  lemma KeepsFit(target: Plan, ps: seq<Plan>)
    requires BlobsFit(target) && forall k :: 0 <= k < |ps| ==> ps[k].blobs == map[]
    ensures AllBlobsFit([target] + ps)
  {
  }

  /** Rewrites the container with one changed volume and the kept ones. */
  ghost function Mutate(v: Env, img: seq<byte>, target: Plan, keeps: seq<Pass>, rnd: Random): Result<seq<byte>>
    requires Exact(v.c.aead) && Drawn(rnd, |img|) && BlobsFit(target)
  {
    match KeepPlans(v, img, keeps)
    case None => Err(ErrIntegrity)
    case Some(ps) =>
      KeepsFit(target, ps);
      RewriteResult(v, |img|, Some(img), [target] + ps, rnd)
  }

  /** vault_volume_rm. */
  ghost function Remove(v: Env, img: seq<byte>, pass: Pass, name: seq<byte>, keeps: seq<Pass>, rnd: Random): Result<seq<byte>>
    requires Exact(v.c.aead) && Drawn(rnd, |img|)
  {
    match OpenVolume(v, img, pass)
    case None => Err(ErrIntegrity)
    case Some((dir, _)) =>
      match Find(dir.entries, name)
      case None => Err(ErrInput)
      case Some(i) => Mutate(v, img, Plan(pass, pass, dir.(entries := RemoveAt(dir.entries, i)), map[]), keeps, rnd)
  }

  /** vault_volume_passwd. */
  ghost function ChangePass(v: Env, img: seq<byte>, pass: Pass, newPass: Pass, keeps: seq<Pass>, rnd: Random): Result<seq<byte>>
    requires Exact(v.c.aead) && Drawn(rnd, |img|)
  {
    match OpenVolume(v, img, pass)
    case None => Err(ErrIntegrity)
    case Some((dir, _)) => Mutate(v, img, Plan(newPass, pass, dir, map[]), keeps, rnd)
  }

  /** vault_volume_create in an existing container. */
  ghost function CreateIn(v: Env, img: seq<byte>, pass: Pass, keeps: seq<Pass>, rnd: Random): Result<seq<byte>>
    requires Exact(v.c.aead) && Drawn(rnd, |img|)
  {
    Mutate(v, img, Plan(pass, pass, Dir([], []), map[]), keeps, rnd)
  }

  /** vault_volume_create of a new container. */
  ghost function CreateNew(v: Env, size: nat, pass: Pass, rnd: Random): Result<seq<byte>>
    requires Exact(v.c.aead) && Drawn(rnd, size)
  {
    if size < SPAN then Err(ErrInput)
    else RewriteResult(v, size, None, [Plan(pass, pass, Dir([], []), map[])], rnd)
  }

  datatype Request = Request(name: seq<byte>, content: seq<byte>, offset: Option<nat>, capacity: Option<nat>, replace: bool)

  predicate RequestOk(req: Request)
  {
    && (req.capacity.Some? ==> MIN_CAPACITY <= req.capacity.value <= MAX_CAPACITY)
    && (req.offset.Some? ==> req.offset.value <= MAX_OFFSET)
    && |req.name| <= MAX_NAME
  }

  /** The capacity asked for, or an exact fit. */
  function CapacityFor(req: Request): nat
  {
    if req.capacity.Some? then req.capacity.value
    else if |req.content| + 8 < MIN_CAPACITY then MIN_CAPACITY
    else |req.content| + 8
  }

  /** The directory an entry is added to: without the entry it replaces. */
  function BaseDir(dir: Dir, req: Request): Result<Dir>
  {
    match Find(dir.entries, req.name)
    case None => Ok(dir)
    case Some(i) => if req.replace then Ok(dir.(entries := RemoveAt(dir.entries, i))) else Err(ErrInput)
  }

  function BlockRange(off: nat): Range
  {
    Range(off, off + SPAN)
  }

  function SlotRange(e: Entry): Range
  {
    Range(e.offset, e.offset + SlotLen(e.capacity))
  }

  function BlockRanges(offs: seq<nat>): (rs: seq<Range>)
    ensures |rs| == |offs|
  {
    seq(|offs|, b requires 0 <= b < |offs| => BlockRange(offs[b]))
  }

  function SlotRanges(es: seq<Entry>): (rs: seq<Range>)
    ensures |rs| == |es|
  {
    seq(|es|, i requires 0 <= i < |es| => SlotRange(es[i]))
  }

  /** vault_collect_ranges. */
  function RangesOf(anchor: nat, dir: Dir): (rs: seq<Range>)
    ensures |rs| == 1 + |dir.overflow| + |dir.entries|
  {
    [BlockRange(anchor)] + BlockRanges(dir.overflow) + SlotRanges(dir.entries)
  }

  lemma SlotPositive(capacity: nat)
    ensures SlotLen(capacity) > 0 && SPAN > 0
  {
  }

  lemma RangesNonEmpty(anchor: nat, dir: Dir)
    ensures NonEmpty(RangesOf(anchor, dir))
  {
    hide SlotLen;
    SlotPositive(BLOCK);
    forall i: nat | i < |dir.entries|
      ensures SlotLen(dir.entries[i].capacity) > 0
    {
      SlotPositive(dir.entries[i].capacity);
    }
  }

  lemma NonEmptyMore(a: seq<Range>, b: seq<Range>)
    requires NonEmpty(a) && NonEmpty(b)
    ensures NonEmpty(a + b)
  {
  }

  function KeepRanges(v: Env, img: seq<byte>, keeps: seq<Pass>): Option<seq<Range>>
  {
    if |keeps| == 0 then Some([])
    else match KeepRanges(v, img, keeps[..|keeps| - 1])
      case None => None
      case Some(rs) =>
        match OpenVolume(v, img, keeps[|keeps| - 1])
        case None => None
        case Some((dir, anchor)) => Some(rs + RangesOf(anchor, dir))
  }

  /** Places the overflow blocks that are still missing, first fit. */
  ghost function PlaceBlocks(rs: seq<Range>, size: nat, overflow: seq<nat>, needed: nat): Option<seq<nat>>
    decreases needed - |overflow|
  {
    if |overflow| >= needed then Some(overflow)
    else match FirstFit(rs, size, SPAN)
      case None => None
      case Some(o) => PlaceBlocks(rs + [Range(o, o + SPAN)], size, overflow + [o], needed)
  }

  /** Where the new slot goes. */
  ghost function Placed(rs: seq<Range>, size: nat, req: Request): Option<nat>
  {
    if req.offset.Some? then req.offset else FirstFit(rs, size, SlotLen(CapacityFor(req)))
  }

  /** The directory with one more entry and the overflow blocks it then needs. */
  ghost function Extended(rs: seq<Range>, size: nat, dir: Dir, e: Entry): Option<Dir>
  {
    if |dir.entries| >= MAX_VOLUME || Find(dir.entries, e.name).Some? then None
    else match PlaceBlocks(rs, size, dir.overflow, RequiredBlocks(|dir.entries| + 1) - 1)
      case None => None
      case Some(overflow) => Some(Dir(dir.entries + [e], overflow))
  }

  /** What an add does once its volume is open: placement, directory entry, blob. */
  ghost function Planned(v: Env, img: seq<byte>, pass: Pass, dir: Dir, anchor: nat, req: Request, keeps: seq<Pass>, rnd: Random)
    : (r: Result<Plan>)
    requires Drawn(rnd, |img|) && CapacityFor(req) >= 8 && |req.content| <= CapacityFor(req) - 8
    ensures r.Ok? ==> BlobsFit(r.value)
  {
    match KeepRanges(v, img, keeps)
    case None => Err(ErrIntegrity)
    case Some(others) =>
      var rs := RangesOf(anchor, dir) + others;
      match Placed(rs, |img|, req)
      case None => Err(ErrInput)
      case Some(offset) =>
        var capacity := CapacityFor(req);
        var claimed := rs + [Range(offset, offset + SlotLen(capacity))];
        match Extended(claimed, |img|, dir, Entry(offset, capacity, v.log, 0, req.name))
        case None => Err(ErrInput)
        case Some(d) =>
          Ok(Plan(pass, pass, d, map[|dir.entries| := MakeBlob(req.content, capacity, rnd.noise(capacity))]))
  }

  /** The directory and blob to seal for an add. */
  ghost function AddPlan(v: Env, img: seq<byte>, pass: Pass, req: Request, keeps: seq<Pass>, rnd: Random): (r: Result<Plan>)
    requires Drawn(rnd, |img|)
    ensures r.Ok? ==> BlobsFit(r.value)
  {
    if !RequestOk(req) then Err(ErrInput)
    else match OpenVolume(v, img, pass)
      case None => Err(ErrIntegrity)
      case Some((found, anchor)) =>
        match BaseDir(found, req)
        case Err(e) => Err(e)
        case Ok(dir) =>
          if CapacityFor(req) > MAX_CAPACITY || |req.content| > CapacityFor(req) - 8 then Err(ErrInput)
          else Planned(v, img, pass, dir, anchor, req, keeps, rnd)
  }

  /** vault_volume_add_mem. */
  ghost function Add(v: Env, img: seq<byte>, pass: Pass, req: Request, keeps: seq<Pass>, rnd: Random): Result<seq<byte>>
    requires Exact(v.c.aead) && Drawn(rnd, |img|)
  {
    match AddPlan(v, img, pass, req, keeps, rnd)
    case Err(e) => Err(e)
    case Ok(plan) => Mutate(v, img, plan, keeps, rnd)
  }

  // ---------------------------------------------------------------------------
  // What the commands mean
  // ---------------------------------------------------------------------------

  lemma {:induction false} KeepPlanAt(v: Env, img: seq<byte>, keeps: seq<Pass>, j: nat)
    requires j < |keeps| && KeepPlans(v, img, keeps).Some?
    ensures OpenVolume(v, img, keeps[j]).Some?
    ensures KeepPlans(v, img, keeps).value[j] == Plan(keeps[j], keeps[j], OpenVolume(v, img, keeps[j]).value.0, map[])
  {
    hide OpenVolume;
    if j < |keeps| - 1 {
      KeepPlanAt(v, img, keeps[..|keeps| - 1], j);
    }
  }

  /** Looking a name up depends on the entries and on what their slots open to, and nothing else. */
  lemma ExtractSame(v: Env, a: seq<byte>, p: Pass, b: seq<byte>, q: Pass, es: seq<Entry>, name: seq<byte>)
    requires forall i: nat :: i < |es| ==> ReadData(v, a, p, es[i]) == ReadData(v, b, q, es[i])
    ensures Extract(v, a, p, es, name) == Extract(v, b, q, es, name)
  {
    hide ReadData, Content;
  }

  /** A volume rewritten with the directory it opened to answers every lookup as before. */
  lemma VolumeKept(v: Env, img: seq<byte>, plans: seq<Plan>, rnd: Random, j: nat, name: seq<byte>)
    requires Exact(v.c.aead) && Drawn(rnd, |img|) && AllBlobsFit(plans) && |img| < U64 && CostInRange(v) && j < |plans|
    requires RewriteResult(v, |img|, Some(img), plans, rnd).Ok?
    requires plans[j].blobs == map[] && OpenVolume(v, img, plans[j].readPass).Some?
    requires plans[j].dir == OpenVolume(v, img, plans[j].readPass).value.0
    ensures var after := RewriteResult(v, |img|, Some(img), plans, rnd).value;
      && OpenVolume(v, after, plans[j].pass).Some?
      && OpenVolume(v, after, plans[j].pass).value.0.entries == plans[j].dir.entries
      && Lookup(v, after, plans[j].pass, name) == Lookup(v, img, plans[j].readPass, name)
  {
    hide RewriteResult, OpenVolume, ReadData, Extract, CostInRange, Readable, Drawn, AllBlobsFit, RequiredBlocks, AllTrusted, NoPointers;
    var plan := plans[j];
    var after := RewriteResult(v, |img|, Some(img), plans, rnd).value;
    OpenedOk(v, img, plan.readPass);
    OkReadable(v, plan.dir);
    RewriteOpens(v, |img|, Some(img), plans, rnd, j);
    PlanReads(v, |img|, Some(img), plans, rnd, j);
    ExtractSame(v, after, plan.pass, img, plan.readPass, plan.dir.entries, name);
  }

  /** A command that is accepted keeps the container's size and every volume it was told to keep. */
  lemma MutateKeeps(v: Env, img: seq<byte>, target: Plan, keeps: seq<Pass>, rnd: Random, k: Pass, name: seq<byte>)
    requires Exact(v.c.aead) && Drawn(rnd, |img|) && BlobsFit(target) && |img| < U64 && CostInRange(v)
    requires Mutate(v, img, target, keeps, rnd).Ok? && k in keeps
    ensures var after := Mutate(v, img, target, keeps, rnd).value;
      && |after| == |img|
      && OpenVolume(v, img, k).Some? && OpenVolume(v, after, k).Some?
      && OpenVolume(v, after, k).value.0.entries == OpenVolume(v, img, k).value.0.entries
      && Lookup(v, after, k, name) == Lookup(v, img, k, name)
  {
    hide OpenVolume, CostInRange, Drawn, BlobsFit, Lookup, RewriteResult, KeepPlans;
    var ps := KeepPlans(v, img, keeps).value;
    KeepsFit(target, ps);
    var j: nat :| j < |keeps| && keeps[j] == k;
    KeepPlanAt(v, img, keeps, j);
    VolumeKept(v, img, [target] + ps, rnd, j + 1, name);
  }

  /** The changed volume opens to its new directory exactly when that is readable, and its slots hold
      the old or new blobs. */
  lemma MutateTarget(v: Env, img: seq<byte>, target: Plan, keeps: seq<Pass>, rnd: Random)
    requires Exact(v.c.aead) && Drawn(rnd, |img|) && BlobsFit(target) && |img| < U64
    requires Mutate(v, img, target, keeps, rnd).Ok?
    requires NoPointers(target.dir.entries) && |target.dir.entries| <= MAX_VOLUME
    ensures var after := Mutate(v, img, target, keeps, rnd).value;
      && |after| == |img|
      && (OpenVolume(v, after, target.pass).Some? <==> Readable(target.dir, v.log))
      && (Readable(target.dir, v.log) ==> OpenVolume(v, after, target.pass).value.0.entries == target.dir.entries)
      && (forall i: nat :: i < |target.dir.entries| ==>
            && BlobFor(v, Some(img), target, i).Some?
            && ReadData(v, after, target.pass, target.dir.entries[i]) == BlobFor(v, Some(img), target, i))
  {
    hide RewriteResult, OpenVolume, ReadData, BlobFor, Readable, Drawn, BlobsFit, AllBlobsFit, NoPointers, RequiredBlocks, KeepPlans;
    var ps := KeepPlans(v, img, keeps).value;
    KeepsFit(target, ps);
    var plans := [target] + ps;
    RewriteOpens(v, |img|, Some(img), plans, rnd, 0);
    PlanReads(v, |img|, Some(img), plans, rnd, 0);
  }

  /** Creating a volume in a container gives an empty one, whatever the passphrase held before. */
  lemma CreateInRefines(v: Env, img: seq<byte>, pass: Pass, keeps: seq<Pass>, rnd: Random, name: seq<byte>)
    requires Exact(v.c.aead) && Drawn(rnd, |img|) && |img| < U64
    requires CreateIn(v, img, pass, keeps, rnd).Ok?
    ensures var after := CreateIn(v, img, pass, keeps, rnd).value;
      && OpenVolume(v, after, pass).Some?
      && OpenVolume(v, after, pass).value.0.entries == []
      && Lookup(v, after, pass, name) == None
  {
    hide OpenVolume, Mutate, Drawn;
    MutateTarget(v, img, Plan(pass, pass, Dir([], []), map[]), keeps, rnd);
  }

  /** A new container of sufficient size is always made, and holds one empty volume. */
  lemma CreateNewRefines(v: Env, size: nat, pass: Pass, rnd: Random, name: seq<byte>)
    requires Exact(v.c.aead) && Drawn(rnd, size) && size < U64
    ensures CreateNew(v, size, pass, rnd).Ok? <==> size >= SPAN
    ensures size >= SPAN ==>
      var after := CreateNew(v, size, pass, rnd).value;
      && |after| == size
      && OpenVolume(v, after, pass).Some?
      && OpenVolume(v, after, pass).value.0.entries == []
      && Lookup(v, after, pass, name) == None
  {
    hide OpenVolume, RewriteResult, Drawn;
    if size >= SPAN {
      var plans := [Plan(pass, pass, Dir([], []), map[])];
      EmptyAccepted(v, size, pass, rnd);
      RewriteOpens(v, size, None, plans, rnd, 0);
    }
  }

  lemma EmptyAccepted(v: Env, size: nat, pass: Pass, rnd: Random)
    requires Exact(v.c.aead) && Drawn(rnd, size) && size >= SPAN
    ensures RewriteResult(v, size, None, [Plan(pass, pass, Dir([], []), map[])], rnd).Ok?
  {
    hide BlockBytes, AnchorOffset, BlockOf;
    var plan := Plan(pass, pass, Dir([], []), map[]);
    AnchorInside(v, pass, size);
    var anchor := AnchorOffset(v, pass, size).value;
    assert DataPieces(v, size, None, plan, rnd, 0, 0) == Ok([]);
    BlocksFit(plan.dir, 0);
    assert BlockPieces(v, size, plan, anchor, rnd, 0, 0) == Ok([]);
    assert BlockPieces(v, size, plan, anchor, rnd, 0, 1).Ok?;
    assert [plan][..0] == [];
    assert AllPieces(v, size, None, [], rnd) == Ok([]);
    assert AllPieces(v, size, None, [plan], rnd).Ok?;
  }

  /** Changing the passphrase moves every name to the new passphrase with its content. */
  lemma ChangePassRefines(v: Env, img: seq<byte>, pass: Pass, newPass: Pass, keeps: seq<Pass>, rnd: Random, name: seq<byte>)
    requires Exact(v.c.aead) && Drawn(rnd, |img|) && |img| < U64 && CostInRange(v)
    requires ChangePass(v, img, pass, newPass, keeps, rnd).Ok?
    ensures var after := ChangePass(v, img, pass, newPass, keeps, rnd).value;
      && OpenVolume(v, img, pass).Some? && OpenVolume(v, after, newPass).Some?
      && OpenVolume(v, after, newPass).value.0.entries == OpenVolume(v, img, pass).value.0.entries
      && Lookup(v, after, newPass, name) == Lookup(v, img, pass, name)
  {
    hide OpenVolume, CostInRange, Drawn, Lookup, RewriteResult, KeepPlans;
    var target := Plan(newPass, pass, OpenVolume(v, img, pass).value.0, map[]);
    var ps := KeepPlans(v, img, keeps).value;
    KeepsFit(target, ps);
    VolumeKept(v, img, [target] + ps, rnd, 0, name);
  }

  // ---------------------------------------------------------------------------
  // Removing and adding
  // ---------------------------------------------------------------------------

  /** No two entries share a name; adding and removing keep this. */
  ghost predicate DistinctNames(es: seq<Entry>)
  {
    forall i, j :: 0 <= i < j < |es| ==> es[i].name != es[j].name
  }

  /** Taking an entry out moves the others but loses none. */
  lemma FindRemoved(es: seq<Entry>, i: nat, name: seq<byte>)
    requires i < |es| && es[i].name != name
    ensures Find(RemoveAt(es, i), name)
         == match Find(es, name)
            case None => None
            case Some(k) => Some(if k < i then k else k - 1)
    ensures Find(es, name).Some? ==> Find(es, name).value != i
  {
    hide Find, RemoveAt;
    var rest := RemoveAt(es, i);
    RemovedAt(es, i);
    if Find(es, name).Some? {
      var k := Find(es, name).value;
      FindIs(rest, name, if k < i then k else k - 1);
    }
  }

  /** Where the entries are after one was removed. */
  lemma RemovedAt(es: seq<Entry>, i: nat)
    requires i < |es|
    ensures |RemoveAt(es, i)| == |es| - 1
    ensures forall j: nat :: j < |es| - 1 ==> RemoveAt(es, i)[j] == es[if j < i then j else j + 1]
  {
  }

  lemma FindIs(es: seq<Entry>, name: seq<byte>, k: nat)
    requires k < |es| && es[k].name == name && forall j :: 0 <= j < k ==> es[j].name != name
    ensures Find(es, name) == Some(k)
  {
    hide Find;
  }

  lemma RemovedNames(es: seq<Entry>, i: nat)
    requires i < |es| && DistinctNames(es)
    ensures DistinctNames(RemoveAt(es, i)) && Find(RemoveAt(es, i), es[i].name).None?
  {
    hide Find;
    var rest := RemoveAt(es, i);
    assert forall k :: 0 <= k < |rest| ==> rest[k] == es[if k < i then k else k + 1];
  }

  lemma ExtractRemoved(v: Env, img: seq<byte>, pass: Pass, es: seq<Entry>, i: nat, name: seq<byte>)
    requires i < |es| && es[i].name != name
    ensures Extract(v, img, pass, RemoveAt(es, i), name) == Extract(v, img, pass, es, name)
  {
    hide Find, ReadData, Content;
    FindRemoved(es, i, name);
  }

  lemma RemovedOk(dir: Dir, i: nat)
    requires DirOk(dir) && i < |dir.entries|
    ensures DirOk(dir.(entries := RemoveAt(dir.entries, i)))
  {
    hide Trusted;
    var es, rest := dir.entries, RemoveAt(dir.entries, i);
    assert forall k :: 0 <= k < |rest| ==> rest[k] == es[if k < i then k else k + 1];
  }

  /** Removing deletes the name and leaves every other name's content. */
  lemma RemoveRefines(v: Env, img: seq<byte>, pass: Pass, name: seq<byte>, keeps: seq<Pass>, rnd: Random, other: seq<byte>)
    requires Exact(v.c.aead) && Drawn(rnd, |img|) && |img| < U64 && CostInRange(v)
    requires Remove(v, img, pass, name, keeps, rnd).Ok?
    ensures var after := Remove(v, img, pass, name, keeps, rnd).value;
      && OpenVolume(v, after, pass).Some?
      && (other != name ==> Lookup(v, after, pass, other) == Lookup(v, img, pass, other))
      && (DistinctNames(OpenVolume(v, img, pass).value.0.entries) ==>
            Lookup(v, after, pass, name) == None && DistinctNames(OpenVolume(v, after, pass).value.0.entries))
  {
    hide OpenVolume, Mutate, CostInRange, Drawn, Find, ReadData, Extract, DistinctNames, NoPointers, AllTrusted, Readable;
    var after := Remove(v, img, pass, name, keeps, rnd).value;
    var dir := OpenVolume(v, img, pass).value.0;
    var i := Find(dir.entries, name).value;
    var rest := RemoveAt(dir.entries, i);
    var target := Plan(pass, pass, dir.(entries := rest), map[]);
    OpenedOk(v, img, pass);
    RemovedOk(dir, i);
    OkReadable(v, target.dir);
    MutateTarget(v, img, target, keeps, rnd);
    ExtractSame(v, after, pass, img, pass, rest, other);
    if other != name {
      ExtractRemoved(v, img, pass, dir.entries, i, other);
    }
    if DistinctNames(dir.entries) {
      RemovedNames(dir.entries, i);
      NotFound(v, after, pass, rest, name);
    }
  }

  lemma NotFound(v: Env, img: seq<byte>, pass: Pass, es: seq<Entry>, name: seq<byte>)
    requires Find(es, name).None?
    ensures Extract(v, img, pass, es, name) == None
  {
    hide Find, ReadData, Content;
  }

  /** The slots of an accepted change lie in the container. */
  lemma MutateInside(v: Env, img: seq<byte>, target: Plan, keeps: seq<Pass>, rnd: Random)
    requires Exact(v.c.aead) && Drawn(rnd, |img|) && BlobsFit(target)
    requires Mutate(v, img, target, keeps, rnd).Ok?
    ensures forall i: nat :: i < |target.dir.entries| ==>
      target.dir.entries[i].offset + SlotLen(target.dir.entries[i].capacity) <= |img|
    ensures forall b: nat :: b + 1 < RequiredBlocks(|target.dir.entries|) && b < |target.dir.overflow| ==>
      target.dir.overflow[b] + SPAN <= |img|
  {
    hide RewriteResult, PlanPieces, Drawn, BlobsFit, AllBlobsFit, RequiredBlocks, KeepPlans, SlotLen;
    var ps := KeepPlans(v, img, keeps).value;
    KeepsFit(target, ps);
    var k := Accepted(v, |img|, Some(img), [target] + ps, rnd, 0);
    SomeBlocks(target.dir);
    NextInside(v, |img|, Some(img), target, rnd, k, 0);
    forall b: nat | b + 1 < RequiredBlocks(|target.dir.entries|) && b < |target.dir.overflow|
      ensures target.dir.overflow[b] + SPAN <= |img|
    {
      NextInside(v, |img|, Some(img), target, rnd, k, b);
    }
  }

  lemma SomeBlocks(dir: Dir)
    ensures RequiredBlocks(|dir.entries|) >= 1
  {
  }

  lemma BaseOk(found: Dir, req: Request)
    requires DirOk(found) && BaseDir(found, req).Ok?
    ensures DirOk(BaseDir(found, req).value)
    ensures DistinctNames(found.entries) ==> DistinctNames(BaseDir(found, req).value.entries)
  {
    hide DirOk, DistinctNames, Find;
    if Find(found.entries, req.name).Some? {
      RemovedOk(found, Find(found.entries, req.name).value);
      if DistinctNames(found.entries) {
        RemovedNames(found.entries, Find(found.entries, req.name).value);
      }
    }
  }

  lemma FindAdded(es: seq<Entry>, e: Entry, name: seq<byte>)
    ensures Find(es + [e], name)
         == if Find(es, name).Some? then Find(es, name) else if e.name == name then Some(|es|) else None
  {
    assert (es + [e])[..|es|] == es;
  }

  /** The parts of an add that was planned. */
  lemma AddPlanParts(v: Env, img: seq<byte>, pass: Pass, req: Request, keeps: seq<Pass>, rnd: Random)
    requires Drawn(rnd, |img|) && AddPlan(v, img, pass, req, keeps, rnd).Ok?
    ensures OpenVolume(v, img, pass).Some? && BaseDir(OpenVolume(v, img, pass).value.0, req).Ok? && RequestOk(req)
    ensures var plan := AddPlan(v, img, pass, req, keeps, rnd).value;
      var dir := BaseDir(OpenVolume(v, img, pass).value.0, req).value;
      var n := |dir.entries|;
      && plan.pass == plan.readPass == pass
      && n < MAX_VOLUME && |plan.dir.entries| == n + 1 && plan.dir.entries[..n] == dir.entries
      && Find(dir.entries, req.name).None?
      && plan.dir.entries[n] == Entry(plan.dir.entries[n].offset, CapacityFor(req), v.log, 0, req.name)
      && CapacityFor(req) <= MAX_CAPACITY && |req.content| <= CapacityFor(req) - 8
      && plan.blobs == map[n := MakeBlob(req.content, CapacityFor(req), rnd.noise(CapacityFor(req)))]
  {
    hide OpenVolume, BaseDir, KeepRanges, Placed, PlaceBlocks, Find, MakeBlob, Fits, RequiredBlocks, SlotLen;
  }

  lemma AddPlanIs(v: Env, img: seq<byte>, pass: Pass, req: Request, keeps: seq<Pass>, rnd: Random)
    requires Drawn(rnd, |img|) && RequestOk(req) && OpenVolume(v, img, pass).Some?
    requires BaseDir(OpenVolume(v, img, pass).value.0, req).Ok?
    ensures CapacityFor(req) >= 8
    ensures AddPlan(v, img, pass, req, keeps, rnd)
      == if CapacityFor(req) > MAX_CAPACITY || |req.content| > CapacityFor(req) - 8 then Err(ErrInput)
         else Planned(v, img, pass, BaseDir(OpenVolume(v, img, pass).value.0, req).value, OpenVolume(v, img, pass).value.1, req, keeps, rnd)
  {
    hide OpenVolume, BaseDir, Planned;
  }

  /** After an accepted add into a container of at most 2^48 bytes the volume opens exactly when the
      command's KDF cost is in the range the directory parser trusts. */
  lemma AddOpensIff(v: Env, img: seq<byte>, pass: Pass, req: Request, keeps: seq<Pass>, rnd: Random)
    requires Exact(v.c.aead) && Drawn(rnd, |img|) && |img| <= MAX_OFFSET
    requires Add(v, img, pass, req, keeps, rnd).Ok?
    ensures OpenVolume(v, Add(v, img, pass, req, keeps, rnd).value, pass).Some? <==> CostInRange(v)
    ensures CostInRange(v) ==>
      OpenVolume(v, Add(v, img, pass, req, keeps, rnd).value, pass).value.0.entries
      == AddPlan(v, img, pass, req, keeps, rnd).value.dir.entries
  {
    hide OpenVolume, Mutate, Drawn, BaseDir, AddPlan, RequestOk, ReadData, BlobFor, Readable, RequiredBlocks, Find, BlobsFit, NoPointers, DirOk;
    var plan := AddPlan(v, img, pass, req, keeps, rnd).value;
    AddPlanParts(v, img, pass, req, keeps, rnd);
    OpenedOk(v, img, pass);
    BaseOk(OpenVolume(v, img, pass).value.0, req);
    MutateInside(v, img, plan, keeps, rnd);
    AddedReadable(v, BaseDir(OpenVolume(v, img, pass).value.0, req).value, plan.dir, req, |img|);
    MutateTarget(v, img, plan, keeps, rnd);
  }

  lemma AddedReadable(v: Env, dir: Dir, after: Dir, req: Request, size: nat)
    requires DirOk(dir) && |dir.entries| < MAX_VOLUME && size <= MAX_OFFSET && RequestOk(req)
    requires |after.entries| == |dir.entries| + 1 && after.entries[..|dir.entries|] == dir.entries
    requires var e := after.entries[|dir.entries|];
      e == Entry(e.offset, CapacityFor(req), v.log, 0, req.name) && CapacityFor(req) <= MAX_CAPACITY
    requires forall i: nat :: i < |after.entries| ==> after.entries[i].offset + SlotLen(after.entries[i].capacity) <= size
    requires forall b: nat :: b + 1 < RequiredBlocks(|after.entries|) && b < |after.overflow| ==> after.overflow[b] + SPAN <= size
    ensures Readable(after, v.log) <==> CostInRange(v)
    ensures NoPointers(after.entries)
  {
    hide RequiredBlocks, SlotLen;
    var n := |dir.entries|;
    assert forall i: nat :: i < n ==> after.entries[i] == dir.entries[i];
    assert AllTrusted(dir.entries);
    assert Trusted(after.entries[n]) <==> CostInRange(v);
    forall i: nat | i < n
      ensures Trusted(after.entries[i]) && !IsOverflow(after.entries[i])
    {
      assert Trusted(dir.entries[i]) && !IsOverflow(dir.entries[i]);
    }
  }

  /** Adding, or replacing, binds the name to the content and leaves every other name's content. */
  lemma AddRefines(v: Env, img: seq<byte>, pass: Pass, req: Request, keeps: seq<Pass>, rnd: Random, other: seq<byte>)
    requires Exact(v.c.aead) && Drawn(rnd, |img|) && |img| <= MAX_OFFSET && CostInRange(v)
    requires Add(v, img, pass, req, keeps, rnd).Ok?
    ensures var after := Add(v, img, pass, req, keeps, rnd).value;
      && Lookup(v, after, pass, req.name) == Some(req.content)
      && (other != req.name ==> Lookup(v, after, pass, other) == Lookup(v, img, pass, other))
      && OpenVolume(v, after, pass).Some?
      && (DistinctNames(OpenVolume(v, img, pass).value.0.entries) ==>
            DistinctNames(OpenVolume(v, after, pass).value.0.entries))
  {
    hide OpenVolume, Mutate, Drawn, BaseDir, AddPlan, RequestOk, ReadData, BlobFor, Find, BlobsFit, NoPointers, DirOk,
         MakeBlob, Extract, DistinctNames, CapacityFor, CostInRange;
    var after := Add(v, img, pass, req, keeps, rnd).value;
    var plan := AddPlan(v, img, pass, req, keeps, rnd).value;
    AddPlanParts(v, img, pass, req, keeps, rnd);
    AddOpensIff(v, img, pass, req, keeps, rnd);
    OpenedOk(v, img, pass);
    var found := OpenVolume(v, img, pass).value.0;
    var dir := BaseDir(found, req).value;
    BaseOk(found, req);
    AddReads(v, img, pass, req, keeps, rnd);
    var n := |dir.entries|;
    var e := plan.dir.entries[n];
    assert plan.dir.entries == dir.entries + [e];
    ExtractAdded(v, after, pass, dir.entries, e, other);
    ExtractAdded(v, after, pass, dir.entries, e, req.name);
    ExtractSame(v, after, pass, img, pass, dir.entries, other);
    if other != req.name {
      ExtractBase(v, img, pass, found, req, other);
    }
    NamesAdded(dir.entries, e);
  }

  lemma NamesAdded(es: seq<Entry>, e: Entry)
    requires Find(es, e.name).None?
    ensures DistinctNames(es) ==> DistinctNames(es + [e])
  {
    hide Find;
  }

  lemma ExtractBase(v: Env, img: seq<byte>, pass: Pass, found: Dir, req: Request, other: seq<byte>)
    requires BaseDir(found, req).Ok? && other != req.name
    ensures Extract(v, img, pass, BaseDir(found, req).value.entries, other) == Extract(v, img, pass, found.entries, other)
  {
    hide Extract, Find;
    if Find(found.entries, req.name).Some? {
      ExtractRemoved(v, img, pass, found.entries, Find(found.entries, req.name).value, other);
    }
  }

  lemma ExtractAdded(v: Env, img: seq<byte>, pass: Pass, es: seq<Entry>, e: Entry, name: seq<byte>)
    requires Find(es, e.name).None?
    ensures name != e.name ==> Extract(v, img, pass, es + [e], name) == Extract(v, img, pass, es, name)
    ensures name == e.name ==>
      Extract(v, img, pass, es + [e], name)
      == match ReadData(v, img, pass, e) case None => None case Some(blob) => Content(blob)
  {
    hide Find, ReadData, Content;
    FindAdded(es, e, name);
  }

  /** What the slots of the changed volume hold after an add. */
  lemma AddReads(v: Env, img: seq<byte>, pass: Pass, req: Request, keeps: seq<Pass>, rnd: Random)
    requires Exact(v.c.aead) && Drawn(rnd, |img|) && |img| <= MAX_OFFSET
    requires Add(v, img, pass, req, keeps, rnd).Ok?
    ensures OpenVolume(v, img, pass).Some? && BaseDir(OpenVolume(v, img, pass).value.0, req).Ok?
    ensures var after := Add(v, img, pass, req, keeps, rnd).value;
      var plan := AddPlan(v, img, pass, req, keeps, rnd).value;
      var es := BaseDir(OpenVolume(v, img, pass).value.0, req).value.entries;
      && |plan.dir.entries| == |es| + 1
      && (forall i: nat :: i < |es| ==> ReadData(v, after, pass, es[i]) == ReadData(v, img, pass, es[i]))
      && match ReadData(v, after, pass, plan.dir.entries[|es|])
         case None => false
         case Some(blob) => Content(blob) == Some(req.content)
  {
    hide OpenVolume, Mutate, Drawn, BaseDir, AddPlan, RequestOk, ReadData, Find, BlobsFit, NoPointers, DirOk, Readable,
         MakeBlob, RequiredBlocks, CapacityFor, Content;
    var plan := AddPlan(v, img, pass, req, keeps, rnd).value;
    AddPlanParts(v, img, pass, req, keeps, rnd);
    OpenedOk(v, img, pass);
    BaseOk(OpenVolume(v, img, pass).value.0, req);
    MutateInside(v, img, plan, keeps, rnd);
    AddedReadable(v, BaseDir(OpenVolume(v, img, pass).value.0, req).value, plan.dir, req, |img|);
    MutateTarget(v, img, plan, keeps, rnd);
    var es := BaseDir(OpenVolume(v, img, pass).value.0, req).value.entries;
    NoiseSize(rnd, |img|, CapacityFor(req));
    BlobRoundTrip(req.content, CapacityFor(req), rnd.noise(CapacityFor(req)));
    forall i: nat | i < |es|
      ensures ReadData(v, Add(v, img, pass, req, keeps, rnd).value, pass, es[i]) == ReadData(v, img, pass, es[i])
    {
      assert plan.dir.entries[i] == plan.dir.entries[..|es|][i] == es[i];
    }
  }

  lemma NoiseSize(rnd: Random, size: nat, n: nat)
    requires Drawn(rnd, size)
    ensures |rnd.noise(n)| == n
  {
  }
}
