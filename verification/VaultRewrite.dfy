/** What the whole-container rewrite of src/vault.c keeps: every volume it was given opens to its
    directory, and every slot to its blob. */
module VaultRewrite {
  import opened Common
  import opened Framing
  import opened Vault
  import opened VaultDir
  import opened VaultRanges
  import opened VaultSlot

  lemma PlanPiecesOk(v: Env, size: nat, was: Option<seq<byte>>, plan: Plan, rnd: Random, k: nat)
    requires Exact(v.c.aead) && Drawn(rnd, size) && BlobsFit(plan)
    requires PlanPieces(v, size, was, plan, rnd, k).Ok?
    ensures PiecesOk(PlanPieces(v, size, was, plan, rnd, k).value, size)
  {
    hide DataPieces, BlockPieces, PieceOk, Drawn, BlobsFit, AnchorOffset;
    var count := |plan.dir.entries|;
    var anchor := AnchorOffset(v, plan.pass, size).value;
    DataPiecesOk(v, size, was, plan, rnd, k, count);
    var data := DataPieces(v, size, was, plan, rnd, k, count).value;
    BlockPiecesOk(v, size, plan, anchor, rnd, k + |data|, RequiredBlocks(count));
  }

  lemma {:induction false} AllPiecesOk(v: Env, size: nat, was: Option<seq<byte>>, plans: seq<Plan>, rnd: Random)
    requires Exact(v.c.aead) && Drawn(rnd, size) && AllBlobsFit(plans)
    requires AllPieces(v, size, was, plans, rnd).Ok?
    ensures PiecesOk(AllPieces(v, size, was, plans, rnd).value, size)
  {
    hide PlanPieces, PieceOk, Drawn, BlobsFit, AnchorOffset;
    if |plans| > 0 {
      AllPiecesOk(v, size, was, plans[..|plans| - 1], rnd);
      PlanPiecesOk(v, size, was, plans[|plans| - 1], rnd, |AllPieces(v, size, was, plans[..|plans| - 1], rnd).value|);
    }
  }

  /** vault_rewrite: the new container, or the reason it was left alone. */
  ghost function RewriteResult(v: Env, size: nat, was: Option<seq<byte>>, plans: seq<Plan>, rnd: Random): (r: Result<seq<byte>>)
    requires Exact(v.c.aead) && Drawn(rnd, size) && AllBlobsFit(plans)
    ensures r.Ok? ==> |r.value| == size
  {
    match AllPieces(v, size, was, plans, rnd)
    case Err(e) => Err(e)
    case Ok(ps) =>
      AllPiecesOk(v, size, was, plans, rnd);
      if Disjoint(PieceRanges(ps)) then Ok(PutAll(v, rnd.fill, ps)) else Err(ErrInput)
  }

  /** The j-th plan's pieces are among all pieces, from position k on. */
  lemma {:induction false} PlanIn(v: Env, size: nat, was: Option<seq<byte>>, plans: seq<Plan>, rnd: Random, j: nat)
    returns (k: nat)
    requires j < |plans| && AllPieces(v, size, was, plans, rnd).Ok?
    ensures PlanPieces(v, size, was, plans[j], rnd, k).Ok?
    ensures var all := AllPieces(v, size, was, plans, rnd).value;
      var mine := PlanPieces(v, size, was, plans[j], rnd, k).value;
      k + |mine| <= |all| && all[k..k + |mine|] == mine
    decreases |plans|
  {
    hide PlanPieces;
    var n := |plans| - 1;
    var front := AllPieces(v, size, was, plans[..n], rnd).value;
    if j == n {
      k := |front|;
    } else {
      k := PlanIn(v, size, was, plans[..n], rnd, j);
      var mine := PlanPieces(v, size, was, plans[j], rnd, k).value;
      var all := AllPieces(v, size, was, plans, rnd).value;
      assert all[k..k + |mine|] == front[k..k + |mine|];
    }
  }

  /** A sealed piece of any plan reads back. */
  lemma PlanPieceReads(v: Env, size: nat, was: Option<seq<byte>>, plans: seq<Plan>, rnd: Random, k: nat, mine: seq<Piece>, i: nat)
    requires Exact(v.c.aead) && Drawn(rnd, size) && AllBlobsFit(plans)
    requires RewriteResult(v, size, was, plans, rnd).Ok? && i < |mine|
    requires var all := AllPieces(v, size, was, plans, rnd).value;
      k + |mine| <= |all| && all[k..k + |mine|] == mine
    ensures ReadSlot(v, RewriteResult(v, size, was, plans, rnd).value, mine[i].place) == Some(mine[i].blob)
  {
    hide AllPieces, PieceOk, ReadSlot, PutAll, Disjoint, AllBlobsFit;
    AllPiecesOk(v, size, was, plans, rnd);
    var all := AllPieces(v, size, was, plans, rnd).value;
    assert all[k + i] == all[k..k + |mine|][i];
    PieceReads(v, rnd.fill, all, k + i);
  }

  /** The pieces of a plan that was accepted: its data slots, then its blocks. */
  lemma PlanParts(v: Env, size: nat, was: Option<seq<byte>>, plan: Plan, rnd: Random, k: nat)
    requires Exact(v.c.aead) && Drawn(rnd, size) && BlobsFit(plan)
    requires PlanPieces(v, size, was, plan, rnd, k).Ok?
    ensures AnchorOffset(v, plan.pass, size).Some?
    ensures RequiredBlocks(|plan.dir.entries|) - 1 <= |plan.dir.overflow|
    ensures var ps := PlanPieces(v, size, was, plan, rnd, k).value;
      var count := |plan.dir.entries|;
      var n := RequiredBlocks(count);
      && |ps| == count + n
      && (forall i: nat :: i < count ==>
            ps[i].place == DataPlace(plan.pass, plan.dir.entries[i]) && BlobFor(v, was, plan, i) == Some(ps[i].blob))
      && (forall b: nat :: b < n ==>
            && BlockFits(plan.dir, n, b)
            && var p := ps[count + b];
               var es := BlockOf(plan.dir, n, b, v.log);
            && p.place == Place(plan.pass, v.log as nat, BlockOffset(plan, AnchorOffset(v, plan.pass, size).value, b), BLOCK)
            && p.place.offset + SPAN <= size
            && Named(es) && |es| <= MAX_ENTRIES && p.blob == BlockBytes(es, rnd.pad(k + count + b)))
  {
    hide DataPieces, BlockPieces, Drawn, BlobsFit, AnchorOffset, BlockOf, BlockBytes, Named, RequiredBlocks, BlockFits, BlobFor;
    var count := |plan.dir.entries|;
    var anchor := AnchorOffset(v, plan.pass, size).value;
    DataPiecesOk(v, size, was, plan, rnd, k, count);
    var data := DataPieces(v, size, was, plan, rnd, k, count).value;
    BlockPiecesOk(v, size, plan, anchor, rnd, k + |data|, RequiredBlocks(count));
  }

  /** Where a plan's volume lies in the container: its data slots, then its directory blocks. */
  ghost function PlanSlots(v: Env, size: nat, plan: Plan): (rs: seq<Range>)
  {
    var count := |plan.dir.entries|;
    var n := RequiredBlocks(count);
    if size < SPAN || n - 1 > |plan.dir.overflow| then []
    else
      AnchorInside(v, plan.pass, size);
      var anchor := AnchorOffset(v, plan.pass, size).value;
      seq(count, i requires 0 <= i < count =>
        Range(plan.dir.entries[i].offset, plan.dir.entries[i].offset + SlotLen(plan.dir.entries[i].capacity)))
      + seq(n, b requires 0 <= b < n => Range(BlockOffset(plan, anchor, b), BlockOffset(plan, anchor, b) + SPAN))
  }

  ghost function AllSlots(v: Env, size: nat, plans: seq<Plan>): (rs: seq<Range>)
  {
    if |plans| == 0 then [] else AllSlots(v, size, plans[..|plans| - 1]) + PlanSlots(v, size, plans[|plans| - 1])
  }

  lemma PlanSlotsAre(v: Env, size: nat, was: Option<seq<byte>>, plan: Plan, rnd: Random, k: nat)
    requires Exact(v.c.aead) && Drawn(rnd, size) && BlobsFit(plan)
    requires PlanPieces(v, size, was, plan, rnd, k).Ok?
    ensures PieceRanges(PlanPieces(v, size, was, plan, rnd, k).value) == PlanSlots(v, size, plan)
  {
    hide PlanPieces, AnchorOffset, BlobFor, BlockOf, BlockFits, RequiredBlocks, Named, SlotLen, Drawn, BlockBytes, BlobsFit;
    PlanParts(v, size, was, plan, rnd, k);
    AnchorInside(v, plan.pass, size);
    var ps := PlanPieces(v, size, was, plan, rnd, k).value;
    var count := |plan.dir.entries|;
    forall i | count <= i < |ps|
      ensures PieceRange(ps[i]) == PlanSlots(v, size, plan)[i]
    {
      assert ps[count + (i - count)] == ps[i];
    }
  }

  lemma {:induction false} AllSlotsAre(v: Env, size: nat, was: Option<seq<byte>>, plans: seq<Plan>, rnd: Random)
    requires Exact(v.c.aead) && Drawn(rnd, size) && AllBlobsFit(plans)
    requires AllPieces(v, size, was, plans, rnd).Ok?
    ensures PieceRanges(AllPieces(v, size, was, plans, rnd).value) == AllSlots(v, size, plans)
  {
    hide PlanPieces, PlanSlots, Drawn, BlobsFit;
    if |plans| > 0 {
      var front := AllPieces(v, size, was, plans[..|plans| - 1], rnd).value;
      AllSlotsAre(v, size, was, plans[..|plans| - 1], rnd);
      PlanSlotsAre(v, size, was, plans[|plans| - 1], rnd, |front|);
      var last := PlanPieces(v, size, was, plans[|plans| - 1], rnd, |front|).value;
      assert PieceRanges(front + last) == PieceRanges(front) + PieceRanges(last);
    }
  }

  /** Once every piece can be sealed, the rewrite is accepted exactly when no two slots or blocks of
      its volumes meet; all of them lie in the container. */
  lemma SlotsApart(v: Env, size: nat, was: Option<seq<byte>>, plans: seq<Plan>, rnd: Random)
    requires Exact(v.c.aead) && Drawn(rnd, size) && AllBlobsFit(plans)
    requires AllPieces(v, size, was, plans, rnd).Ok?
    ensures RewriteResult(v, size, was, plans, rnd).Ok? <==> Disjoint(AllSlots(v, size, plans))
    ensures forall i :: 0 <= i < |AllSlots(v, size, plans)| ==> AllSlots(v, size, plans)[i].end <= size
  {
    hide AllPieces, AllSlots, PutAll, Disjoint, AllBlobsFit, Drawn, SlotLen;
    AllSlotsAre(v, size, was, plans, rnd);
    AllPiecesOk(v, size, was, plans, rnd);
    var ps := AllPieces(v, size, was, plans, rnd).value;
    forall i | 0 <= i < |ps|
      ensures AllSlots(v, size, plans)[i].end <= size
    {
      assert PieceOk(ps[i], size) && PieceRanges(ps)[i] == PieceRange(ps[i]);
    }
  }

  lemma StorableBlock(dir: Dir, b: nat, log: byte, size: nat)
    requires b < RequiredBlocks(|dir.entries|) && BlockFits(dir, RequiredBlocks(|dir.entries|), b)
    requires size < U64 && Named(BlockOf(dir, RequiredBlocks(|dir.entries|), b, log))
    requires forall i: nat :: i < |dir.entries| ==> dir.entries[i].offset + SlotLen(dir.entries[i].capacity) <= size
    requires b + 1 < RequiredBlocks(|dir.entries|) ==> dir.overflow[b] + SPAN <= size
    ensures AllStorable(BlockOf(dir, RequiredBlocks(|dir.entries|), b, log))
  {
    hide SlotLen, Named, RequiredBlocks;
    var n := RequiredBlocks(|dir.entries|);
    var es := BlockOf(dir, n, b, log);
    forall k | 0 <= k < |es|
      ensures Storable(es[k])
    {
      NamedAt(es, k);
      if k < DataIn(|dir.entries|, n, b) {
        var e := dir.entries[PER_INNER * b + k];
        assert es[k] == ClearOverflow(e);
        SlotLonger(e.capacity);
      } else {
        assert es[k] == Pointer(dir.overflow[b], log);
      }
    }
  }

  lemma NamedAt(es: seq<Entry>, k: nat)
    requires Named(es) && k < |es|
    ensures |es[k].name| <= MAX_NAME
  {
  }

  /** After an accepted rewrite every block of every plan parses back exactly when its entries are
      within the trusted bounds, and every data slot opens to its blob. */
  lemma PlanReads(v: Env, size: nat, was: Option<seq<byte>>, plans: seq<Plan>, rnd: Random, j: nat)
    requires Exact(v.c.aead) && Drawn(rnd, size) && AllBlobsFit(plans) && size < U64 && j < |plans|
    requires RewriteResult(v, size, was, plans, rnd).Ok?
    ensures AnchorOffset(v, plans[j].pass, size).Some?
    ensures RequiredBlocks(|plans[j].dir.entries|) - 1 <= |plans[j].dir.overflow|
    ensures var img := RewriteResult(v, size, was, plans, rnd).value;
      var plan := plans[j];
      var n := RequiredBlocks(|plan.dir.entries|);
      && (forall i: nat :: i < |plan.dir.entries| ==>
            BlobFor(v, was, plan, i).Some? && ReadData(v, img, plan.pass, plan.dir.entries[i]) == BlobFor(v, was, plan, i))
      && (forall b: nat :: b < n ==>
            && BlockFits(plan.dir, n, b)
            && var es := BlockOf(plan.dir, n, b, v.log);
               ReadBlock(v, img, plan.pass, BlockOffset(plan, AnchorOffset(v, plan.pass, size).value, b))
               == if AllTrusted(es) then Some(es) else None)
  {
    hide RewriteResult, PlanPieces, AnchorOffset, BlobFor, ReadSlot, BlockOf, BlockFits, RequiredBlocks, AllTrusted, Named,
         AllBlobsFit, SlotLen, Drawn, ParseBlock, BlockBytes, AllStorable;
    var img := RewriteResult(v, size, was, plans, rnd).value;
    var plan := plans[j];
    var k := Accepted(v, size, was, plans, rnd, j);
    var mine := PlanPieces(v, size, was, plan, rnd, k).value;
    var count, n := |plan.dir.entries|, RequiredBlocks(|plan.dir.entries|);
    PlanParts(v, size, was, plan, rnd, k);
    forall i: nat | i < count
      ensures BlobFor(v, was, plan, i).Some? && ReadData(v, img, plan.pass, plan.dir.entries[i]) == BlobFor(v, was, plan, i)
    {
      PlanPieceReads(v, size, was, plans, rnd, k, mine, i);
    }
    forall b: nat | b < n
      ensures BlockFits(plan.dir, n, b)
      ensures var es := BlockOf(plan.dir, n, b, v.log);
        ReadBlock(v, img, plan.pass, BlockOffset(plan, AnchorOffset(v, plan.pass, size).value, b))
        == if AllTrusted(es) then Some(es) else None
    {
      PlanPieceReads(v, size, was, plans, rnd, k, mine, count + b);
      NextInside(v, size, was, plan, rnd, k, b);
      StorableBlock(plan.dir, b, v.log, size);
      PadSize(rnd, size, k + count + b);
      BlockRoundTrip(BlockOf(plan.dir, n, b, v.log), rnd.pad(k + count + b));
    }
  }

  lemma PadSize(rnd: Random, size: nat, k: nat)
    requires Drawn(rnd, size)
    ensures |rnd.pad(k)| == BLOCK
  {
  }

  lemma Accepted(v: Env, size: nat, was: Option<seq<byte>>, plans: seq<Plan>, rnd: Random, j: nat) returns (k: nat)
    requires Exact(v.c.aead) && Drawn(rnd, size) && AllBlobsFit(plans) && j < |plans|
    requires RewriteResult(v, size, was, plans, rnd).Ok?
    ensures BlobsFit(plans[j]) && PlanPieces(v, size, was, plans[j], rnd, k).Ok?
    ensures AllPieces(v, size, was, plans, rnd).Ok?
    ensures var all := AllPieces(v, size, was, plans, rnd).value;
      var mine := PlanPieces(v, size, was, plans[j], rnd, k).value;
      k + |mine| <= |all| && all[k..k + |mine|] == mine
  {
    hide AllPieces, PlanPieces, BlobsFit, PutAll, Disjoint;
    k := PlanIn(v, size, was, plans, rnd, j);
  }

  /** The slots and blocks of an accepted plan lie in the container. */
  lemma NextInside(v: Env, size: nat, was: Option<seq<byte>>, plan: Plan, rnd: Random, k: nat, b: nat)
    requires Exact(v.c.aead) && Drawn(rnd, size) && BlobsFit(plan)
    requires PlanPieces(v, size, was, plan, rnd, k).Ok? && b < RequiredBlocks(|plan.dir.entries|)
    ensures forall i: nat :: i < |plan.dir.entries| ==>
      plan.dir.entries[i].offset + SlotLen(plan.dir.entries[i].capacity) <= size
    ensures b + 1 < RequiredBlocks(|plan.dir.entries|) ==>
      b < |plan.dir.overflow| && plan.dir.overflow[b] + SPAN <= size
  {
    hide PlanPieces, AnchorOffset, BlobFor, BlockOf, BlockFits, RequiredBlocks, AllTrusted, Named, SlotLen, Drawn, BlockBytes;
    PlanParts(v, size, was, plan, rnd, k);
    PlanPiecesOk(v, size, was, plan, rnd, k);
    var ps := PlanPieces(v, size, was, plan, rnd, k).value;
    forall i: nat | i < |plan.dir.entries|
      ensures plan.dir.entries[i].offset + SlotLen(plan.dir.entries[i].capacity) <= size
    {
      assert PieceOk(ps[i], size);
    }
    if b + 1 < RequiredBlocks(|plan.dir.entries|) {
      assert BlockFits(plan.dir, RequiredBlocks(|plan.dir.entries|), b + 1);
    }
  }

  /** An accepted rewrite makes each of its volumes open to its directory, under its passphrase,
      exactly when the directory is readable; otherwise the volume is lost. */
  lemma RewriteOpens(v: Env, size: nat, was: Option<seq<byte>>, plans: seq<Plan>, rnd: Random, j: nat)
    requires Exact(v.c.aead) && Drawn(rnd, size) && AllBlobsFit(plans) && size < U64 && j < |plans|
    requires RewriteResult(v, size, was, plans, rnd).Ok?
    requires NoPointers(plans[j].dir.entries) && |plans[j].dir.entries| <= MAX_VOLUME
    ensures var img := RewriteResult(v, size, was, plans, rnd).value;
      var dir := plans[j].dir;
      if Readable(dir, v.log) then
        && RequiredBlocks(|dir.entries|) - 1 <= |dir.overflow|
        && OpenVolume(v, img, plans[j].pass).Some?
        && OpenVolume(v, img, plans[j].pass).value.0 == Dir(dir.entries, dir.overflow[..RequiredBlocks(|dir.entries|) - 1])
      else OpenVolume(v, img, plans[j].pass).None?
  {
    hide RewriteResult, AnchorOffset, BlobFor, ReadBlock, ReadData, BlockOf, BlockFits, RequiredBlocks, AllTrusted,
         AllBlobsFit, Drawn, Readable, NoPointers, Follow;
    PlanReads(v, size, was, plans, rnd, j);
    var img := RewriteResult(v, size, was, plans, rnd).value;
    var anchor := AnchorOffset(v, plans[j].pass, size).value;
    assert Sealed(Reader(v, img, plans[j].pass), plans[j].dir, anchor, v.log);
    ChainRoundTrip(Reader(v, img, plans[j].pass), plans[j].dir, anchor, v.log);
  }
}
