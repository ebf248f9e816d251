/** The imperative whole-container rewrite of src/vault.c: an image buffer sealed slot by slot, a list
    of claimed ranges, and the overlap check before anything is kept. */
module VaultSeal {
  import opened Common
  import opened Framing
  import opened Vault
  import opened VaultDir
  import opened VaultImage
  import opened VaultRanges
  import opened VaultRewrite
  import opened VaultSlot

  /** The image and the claims after the pieces ps were sealed over `fill`. */
  ghost predicate Holding(v: Env, fill: seq<byte>, img: array<byte>, claims: seq<Range>, ps: seq<Piece>)
    reads img
  {
    Exact(v.c.aead) && PiecesOk(ps, |fill|) && img[..] == PutAll(v, fill, ps) && claims == PieceRanges(ps)
  }

  lemma OnePieceMore(v: Env, fill: seq<byte>, ps: seq<Piece>, p: Piece)
    requires Exact(v.c.aead) && PiecesOk(ps, |fill|) && PieceOk(p, |fill|)
    ensures PiecesOk(ps + [p], |fill|)
    ensures |PieceBytes(v, p)| == SlotLen(p.place.capacity)
    ensures PutAll(v, fill, ps + [p]) == Write(PutAll(v, fill, ps), p.place.offset, PieceBytes(v, p))
    ensures PieceRanges(ps + [p]) == PieceRanges(ps) + [PieceRange(p)]
  {
    hide PieceOk, SealSlot, Write, SlotLen;
    assert (ps + [p])[..|ps|] == ps;
    PieceFits(v, p, |fill|);
  }

  lemma PieceFits(v: Env, p: Piece, size: nat)
    requires Exact(v.c.aead) && PieceOk(p, size)
    ensures |PieceBytes(v, p)| == SlotLen(p.place.capacity) && p.place.offset + SlotLen(p.place.capacity) <= size
  {
    hide SealSlot, SlotLen;
    OpensSealed(v.c, p.place, p.salt, p.blob);
  }

  method SealPiece(v: Env, img: array<byte>, claims: seq<Range>, p: Piece, ghost fill: seq<byte>, ghost ps: seq<Piece>)
    returns (more: seq<Range>)
    requires Holding(v, fill, img, claims, ps) && PieceOk(p, |fill|)
    modifies img
    ensures Holding(v, fill, img, more, ps + [p])
  {
    hide PutAll, SealSlot, Write, SlotLen, PiecesOk;
    OnePieceMore(v, fill, ps, p);
    SealInto(v.c, p.place, p.salt, p.blob, img);
    more := claims + [PieceRange(p)];
  }

  lemma {:induction false} DataFails(v: Env, size: nat, was: Option<seq<byte>>, plan: Plan, rnd: Random, k: nat, n: nat, m: nat)
    requires n <= m <= |plan.dir.entries| && DataPieces(v, size, was, plan, rnd, k, n).Err?
    ensures DataPieces(v, size, was, plan, rnd, k, m) == DataPieces(v, size, was, plan, rnd, k, n)
    decreases m
  {
    hide BlobFor, SlotLen;
    if n < m {
      DataFails(v, size, was, plan, rnd, k, n, m - 1);
    }
  }

  /** The blob to seal for an entry: given, or read from the old container. */
  method FetchBlob(v: Env, was: Option<seq<byte>>, plan: Plan, i: nat) returns (blob: Option<seq<byte>>)
    requires Exact(v.c.aead) && i < |plan.dir.entries|
    ensures blob == BlobFor(v, was, plan, i)
  {
    hide OpenSlot, SlotLen;
    if i in plan.blobs {
      return Some(plan.blobs[i]);
    }
    if was.None? {
      return None;
    }
    var at := DataPlace(plan.readPass, plan.dir.entries[i]);
    if at.offset + SlotLen(at.capacity) > |was.value| {
      return None;
    }
    blob := Open(v.c, at, was.value[at.offset..at.offset + SlotLen(at.capacity)]);
  }

  lemma DataPieceOk(v: Env, size: nat, was: Option<seq<byte>>, plan: Plan, rnd: Random, k: nat, i: nat)
    requires Exact(v.c.aead) && Drawn(rnd, size) && BlobsFit(plan) && i < |plan.dir.entries|
    requires plan.dir.entries[i].offset + SlotLen(plan.dir.entries[i].capacity) <= size
    requires BlobFor(v, was, plan, i).Some?
    ensures PieceOk(Piece(DataPlace(plan.pass, plan.dir.entries[i]), rnd.salt(k + i), BlobFor(v, was, plan, i).value), size)
  {
    hide BlobFor, SlotLen;
    BlobLength(v, was, plan, i);
  }

  /** Seals a plan's data slots. */
  method SealData(v: Env, size: nat, was: Option<seq<byte>>, plan: Plan, rnd: Random, img: array<byte>,
      claims: seq<Range>, ghost ps: seq<Piece>) returns (err: Option<Error>, more: seq<Range>, ghost all: seq<Piece>)
    requires Drawn(rnd, size) && BlobsFit(plan) && Holding(v, rnd.fill, img, claims, ps)
    modifies img
    ensures match DataPieces(v, size, was, plan, rnd, |ps|, |plan.dir.entries|)
      case Err(e) => err == Some(e)
      case Ok(data) => err.None? && all == ps + data && Holding(v, rnd.fill, img, more, all)
  {
    hide Holding, BlobFor, SlotLen, PieceOk, BlobsFit, Drawn;
    err, more, all := None, claims, ps;
    FillSize(rnd, size);
    HoldingExact(v, rnd.fill, img, claims, ps);
    ghost var data: seq<Piece> := [];
    var i: nat := 0;
    while i < |plan.dir.entries|
      invariant i <= |plan.dir.entries| && err.None?
      invariant DataPieces(v, size, was, plan, rnd, |ps|, i) == Ok(data) && |data| == i
      invariant all == ps + data && Holding(v, rnd.fill, img, more, all) && |claims| == |ps| && |more| == |claims| + i
    {
      var e := plan.dir.entries[i];
      if e.offset + SlotLen(e.capacity) > size {
        DataFails(v, size, was, plan, rnd, |ps|, i + 1, |plan.dir.entries|);
        err := Some(ErrInput);
        return;
      }
      HoldingExact(v, rnd.fill, img, more, all);
      var blob := FetchBlob(v, was, plan, i);
      if blob.None? {
        DataFails(v, size, was, plan, rnd, |ps|, i + 1, |plan.dir.entries|);
        err := Some(ErrIntegrity);
        return;
      }
      var p := Piece(DataPlace(plan.pass, e), rnd.salt(|more|), blob.value);
      DataPieceOk(v, size, was, plan, rnd, |ps|, i);
      more := SealPiece(v, img, more, p, rnd.fill, all);
      data := data + [p];
      all := all + [p];
      i := i + 1;
      HoldingExact(v, rnd.fill, img, more, all);
    }
  }

  lemma FillSize(rnd: Random, size: nat)
    requires Drawn(rnd, size)
    ensures |rnd.fill| == size
  {
  }

  lemma HoldingExact(v: Env, fill: seq<byte>, img: array<byte>, claims: seq<Range>, ps: seq<Piece>)
    requires Holding(v, fill, img, claims, ps)
    ensures Exact(v.c.aead) && |claims| == |ps|
  {
    hide PutAll, PiecesOk;
  }

  lemma {:induction false} BlocksFail(v: Env, size: nat, plan: Plan, anchor: nat, rnd: Random, k: nat, n: nat, m: nat)
    requires n <= m <= RequiredBlocks(|plan.dir.entries|)
    requires RequiredBlocks(|plan.dir.entries|) - 1 <= |plan.dir.overflow|
    requires BlockPieces(v, size, plan, anchor, rnd, k, n).Err?
    ensures BlockPieces(v, size, plan, anchor, rnd, k, m) == BlockPieces(v, size, plan, anchor, rnd, k, n)
    decreases m
  {
    hide BlockOf, BlockBytes, Named, RequiredBlocks, BlockFits;
    if n < m {
      BlocksFail(v, size, plan, anchor, rnd, k, n, m - 1);
    }
  }

  lemma BlockPieceOk(v: Env, size: nat, plan: Plan, off: nat, rnd: Random, k: nat, block: seq<byte>)
    requires Drawn(rnd, size) && |block| == BLOCK && off + SPAN <= size
    ensures PieceOk(Piece(Place(plan.pass, v.log as nat, off, BLOCK), rnd.salt(k), block), size)
  {
  }

  /** Builds one block of the chain: its data entries, then the pointer to the next block. */
  method BuildBlock(v: Env, dir: Dir, n: nat, b: nat) returns (es: seq<Entry>)
    requires BlockFits(dir, n, b)
    ensures es == BlockOf(dir, n, b, v.log)
  {
    var start := PER_INNER * b;
    var count := DataIn(|dir.entries|, n, b);
    es := [];
    while |es| < count
      invariant |es| <= count
      invariant es == VaultDir.Cleared(dir.entries[start..start + |es|])
    {
      es := es + [ClearOverflow(dir.entries[start + |es|])];
    }
    if b < n - 1 {
      es := es + [Pointer(dir.overflow[b], v.log)];
    }
  }

  /** Seals a plan's directory chain. */
  method SealChain(v: Env, size: nat, plan: Plan, anchor: nat, rnd: Random, img: array<byte>,
      claims: seq<Range>, ghost ps: seq<Piece>) returns (err: Option<Error>, more: seq<Range>, ghost all: seq<Piece>)
    requires Drawn(rnd, size) && Holding(v, rnd.fill, img, claims, ps)
    requires RequiredBlocks(|plan.dir.entries|) - 1 <= |plan.dir.overflow|
    modifies img
    ensures match BlockPieces(v, size, plan, anchor, rnd, |ps|, RequiredBlocks(|plan.dir.entries|))
      case Err(e) => err == Some(e)
      case Ok(blocks) => err.None? && all == ps + blocks && Holding(v, rnd.fill, img, more, all)
  {
    hide Holding, SlotLen, PieceOk, Drawn, BlockOf, BlockBytes, Named, BlockFits, RequiredBlocks;
    err, more, all := None, claims, ps;
    FillSize(rnd, size);
    HoldingExact(v, rnd.fill, img, claims, ps);
    var n := RequiredBlocks(|plan.dir.entries|);
    ghost var blocks: seq<Piece> := [];
    var b: nat := 0;
    while b < n
      invariant b <= n && err.None?
      invariant BlockPieces(v, size, plan, anchor, rnd, |ps|, b) == Ok(blocks) && |blocks| == b
      invariant all == ps + blocks && Holding(v, rnd.fill, img, more, all) && |claims| == |ps| && |more| == |claims| + b
    {
      BlocksFit(plan.dir, b);
      var off := BlockOffset(plan, anchor, b);
      if off + SPAN > size {
        BlocksFail(v, size, plan, anchor, rnd, |ps|, b + 1, n);
        err := Some(ErrInput);
        return;
      }
      var es := BuildBlock(v, plan.dir, n, b);
      PadSize(rnd, size, |more|);
      var block := SerializeBlock(es, rnd.pad(|more|));
      if block.None? {
        BlocksFail(v, size, plan, anchor, rnd, |ps|, b + 1, n);
        err := Some(ErrCrypto);
        return;
      }
      var p := Piece(Place(plan.pass, v.log as nat, off, BLOCK), rnd.salt(|more|), block.value);
      BlockPieceOk(v, size, plan, off, rnd, |more|, block.value);
      more := SealPiece(v, img, more, p, rnd.fill, all);
      blocks := blocks + [p];
      all := all + [p];
      b := b + 1;
      HoldingExact(v, rnd.fill, img, more, all);
    }
  }

  /** Everything one plan puts into the image. */
  method SealPlan(v: Env, size: nat, was: Option<seq<byte>>, plan: Plan, rnd: Random, img: array<byte>,
      claims: seq<Range>, ghost ps: seq<Piece>) returns (err: Option<Error>, more: seq<Range>, ghost all: seq<Piece>)
    requires Drawn(rnd, size) && BlobsFit(plan) && Holding(v, rnd.fill, img, claims, ps)
    modifies img
    ensures match PlanPieces(v, size, was, plan, rnd, |ps|)
      case Err(e) => err == Some(e)
      case Ok(mine) => err.None? && all == ps + mine && Holding(v, rnd.fill, img, more, all)
  {
    hide Holding, DataPieces, BlockPieces, Drawn, BlobsFit, AnchorOffset, RequiredBlocks;
    err, more, all := None, claims, ps;
    var anchor := AnchorOffset(v, plan.pass, size);
    if anchor.None? {
      err := Some(ErrInput);
      return;
    }
    err, more, all := SealData(v, size, was, plan, rnd, img, claims, ps);
    if err.Some? {
      return;
    }
    if RequiredBlocks(|plan.dir.entries|) - 1 > |plan.dir.overflow| {
      err := Some(ErrInput);
      return;
    }
    err, more, all := SealChain(v, size, plan, anchor.value, rnd, img, more, all);
  }

  lemma {:induction false} PlansFail(v: Env, size: nat, was: Option<seq<byte>>, plans: seq<Plan>, rnd: Random, j: nat)
    requires j <= |plans| && AllPieces(v, size, was, plans[..j], rnd).Err?
    ensures AllPieces(v, size, was, plans, rnd) == AllPieces(v, size, was, plans[..j], rnd)
    decreases |plans|
  {
    hide PlanPieces;
    if j < |plans| {
      assert plans[..|plans| - 1][..j] == plans[..j];
      PlansFail(v, size, was, plans[..|plans| - 1], rnd, j);
    } else {
      assert plans[..j] == plans;
    }
  }

  /** vault_rewrite: seal every plan into a random image; keep it only if no two slots overlap. */
  method Rewrite(v: Env, size: nat, was: Option<seq<byte>>, plans: seq<Plan>, rnd: Random) returns (r: Result<seq<byte>>)
    requires Exact(v.c.aead) && Drawn(rnd, size) && AllBlobsFit(plans)
    ensures r == RewriteResult(v, size, was, plans, rnd)
  {
    hide PlanPieces, Drawn, BlobsFit, Disjoint, PutAll, PiecesOk;
    FillSize(rnd, size);
    var img := new byte[size](i requires 0 <= i < |rnd.fill| => rnd.fill[i]);
    assert img[..] == rnd.fill;
    var claims: seq<Range> := [];
    ghost var ps: seq<Piece> := [];
    NothingSealed(v, rnd.fill, img);
    var j: nat := 0;
    while j < |plans|
      invariant j <= |plans| && Holding(v, rnd.fill, img, claims, ps)
      invariant AllPieces(v, size, was, plans[..j], rnd) == Ok(ps)
      modifies img
    {
      var err, more;
      ghost var all;
      assert plans[..j + 1][..j] == plans[..j];
      err, more, all := SealPlan(v, size, was, plans[j], rnd, img, claims, ps);
      if err.Some? {
        PlansFail(v, size, was, plans, rnd, j + 1);
        return Err(err.value);
      }
      claims, ps := more, all;
      j := j + 1;
    }
    assert plans[..j] == plans;
    var overlap := RangesOverlap(claims);
    r := if overlap then Err(ErrInput) else Ok(img[..]);
  }

  lemma NothingSealed(v: Env, fill: seq<byte>, img: array<byte>)
    requires Exact(v.c.aead) && img[..] == fill
    ensures Holding(v, fill, img, [], [])
  {
    assert PutAll(v, fill, []) == fill;
  }
}
