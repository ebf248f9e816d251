/** Volumes in a vault container (src/vault.c): opening a volume, the whole-container rewrite, and what
    a rewrite preserves. Containers are byte strings; randomness is a parameter. */
module Vault {
  import opened Bytes
  import opened Common
  import opened Framing
  import opened VaultDir
  import opened VaultRanges
  import opened VaultSlot

  /** The container's key derivations, and the KDF cost of the command as its base-2 logarithm (it
      prices the anchor and new slots). */
  datatype Env = Env(c: Crypto, log: byte)

  datatype Error = ErrInput | ErrIntegrity | ErrCrypto
  datatype Result<T> = Ok(value: T) | Err(error: Error)

  // ---------------------------------------------------------------------------
  // Anchors
  // ---------------------------------------------------------------------------

  const SPAN: nat := SlotLen(BLOCK)

  /** (x * m) >> 64 */
  function Reduce(x: nat, m: nat): nat
  {
    x * m / U64
  }

  /** vault_anchor_offset. */
  function AnchorOffset(v: Env, pass: Pass, size: nat): Option<nat>
  {
    if size < SPAN then None else Some(Reduce(v.c.anchorBits(pass, size) % U64, size - SPAN + 1))
  }

  function CeilDiv(a: nat, b: nat): nat
    requires b > 0
  {
    (a + b - 1) / b
  }

  lemma CeilDivIs(a: nat, b: nat, q: nat)
    requires b > 0
    ensures q >= CeilDiv(a, b) <==> q * b >= a
  {
    var c := CeilDiv(a, b);
    assert c * b <= a + b - 1 < c * b + b;
    if q >= c {
      assert q * b >= c * b;
    } else {
      assert q * b <= (c - 1) * b == c * b - b;
    }
  }

  /** Which draws give which offset: one interval of draws for each. */
  lemma ReduceInterval(x: nat, m: nat, o: nat)
    requires m > 0
    ensures Reduce(x, m) == o <==> CeilDiv(o * U64, m) <= x < CeilDiv((o + 1) * U64, m)
  {
    CeilDivIs(o * U64, m, x);
    CeilDivIs((o + 1) * U64, m, x);
  }

  lemma DivIs(v: nat, m: nat, q: nat, r: nat)
    requires m > 0 && v == q * m + r && r < m
    ensures v / m == q
  {
    var p := v / m;
    assert p * m <= v < p * m + m;
    TimesOrdered(p + 1, q, m);
    TimesOrdered(q + 1, p, m);
    TimesOrdered(p, q, m);
    TimesOrdered(q, p, m);
  }

  lemma DivMod(x: nat, m: nat)
    requires m > 0
    ensures x == x / m * m + x % m && x % m < m
  {
  }

  lemma DivSum(x: nat, y: nat, m: nat)
    requires m > 0
    ensures x / m + y / m <= (x + y) / m <= x / m + y / m + 1
  {
    DivMod(x, m);
    DivMod(y, m);
    var (p, q, r) := (x / m, y / m, x % m + y % m);
    AddTimes(p, q, m);
    TimesOrdered(p + q, 0, m);
    if r < m {
      DivIs(x + y, m, p + q, r);
    } else {
      DivIs(x + y, m, p + q + 1, r - m);
    }
  }

  lemma AddTimes(p: nat, q: nat, m: nat)
    ensures (p + q) * m == p * m + q * m
  {
  }

  /** The reduction is as even as it can be: every offset gets the integer part of 2^64 / m draws, or
      one more. */
  lemma ReduceEven(m: nat, o: nat)
    requires 0 < m <= U64
    ensures U64 / m <= CeilDiv((o + 1) * U64, m) - CeilDiv(o * U64, m) <= U64 / m + 1
  {
    DivSum(o * U64 + m - 1, U64, m);
    assert (o + 1) * U64 == o * U64 + U64;
  }

  lemma QuotientBelow(x: nat, m: nat, u: nat)
    requires x < u && m > 0
    ensures x * m / u < m
  {
    TimesOrdered(x + 1, u, m);
    TimesOrdered(x, 0, m);
    DivMod(x * m, u);
    var q := x * m / u;
    TimesOrdered(m, q, u);
    assert m * u == u * m;
  }

  lemma ReduceBelow(x: nat, m: nat)
    requires x < U64 && m > 0
    ensures Reduce(x, m) < m
  {
    QuotientBelow(x, m, U64);
  }

  /** An anchor lies in the container. */
  lemma AnchorInside(v: Env, pass: Pass, size: nat)
    ensures AnchorOffset(v, pass, size).Some? <==> size >= SPAN
    ensures AnchorOffset(v, pass, size).Some? ==> AnchorOffset(v, pass, size).value + SPAN <= size
  {
    hide Reduce;
    if size >= SPAN {
      ReduceBelow(v.c.anchorBits(pass, size) % U64, size - SPAN + 1);
    }
  }

  // ---------------------------------------------------------------------------
  // Reading
  // ---------------------------------------------------------------------------

  function ReadSlot(v: Env, img: seq<byte>, at: Place): Option<seq<byte>>
  {
    if at.offset + SlotLen(at.capacity) > |img| then None
    else OpenSlot(v.c, at, img[at.offset..at.offset + SlotLen(at.capacity)])
  }

  /** A directory block at `off`, opened and parsed. */
  function ReadBlock(v: Env, img: seq<byte>, pass: Pass, off: nat): Option<seq<Entry>>
  {
    match ReadSlot(v, img, Place(pass, v.log as nat, off, BLOCK))
    case None => None
    case Some(b) => if |b| == BLOCK then ParseBlock(b) else None
  }

  function Reader(v: Env, img: seq<byte>, pass: Pass): nat -> Option<seq<Entry>>
  {
    (off: nat) => ReadBlock(v, img, pass, off)
  }

  /** vault_open_volume. */
  function OpenVolume(v: Env, img: seq<byte>, pass: Pass): Option<(Dir, nat)>
  {
    match AnchorOffset(v, pass, |img|)
    case None => None
    case Some(a) =>
      match Follow(Reader(v, img, pass), 0, a, Dir([], []))
      case None => None
      case Some(dir) => Some((dir, a))
  }

  function DataPlace(pass: Pass, e: Entry): Place
  {
    Place(pass, e.logN as nat, e.offset, e.capacity)
  }

  function ReadData(v: Env, img: seq<byte>, pass: Pass, e: Entry): Option<seq<byte>>
  {
    ReadSlot(v, img, DataPlace(pass, e))
  }

  /** The first entry with the name. */
  function Find(es: seq<Entry>, name: seq<byte>): (i: Option<nat>)
    ensures i.Some? ==> i.value < |es| && es[i.value].name == name
    ensures i.Some? ==> forall k :: 0 <= k < i.value ==> es[k].name != name
    ensures i.None? ==> forall k :: 0 <= k < |es| ==> es[k].name != name
  {
    if |es| == 0 then None
    else match Find(es[..|es| - 1], name)
      case Some(k) => Some(k)
      case None => if es[|es| - 1].name == name then Some(|es| - 1) else None
  }

  /** The content of a data slot's blob: a length prefix, the content, random padding. */
  function Content(blob: seq<byte>): Option<seq<byte>>
  {
    if |blob| < 8 || FromLittleEndian(blob[..8]) > |blob| - 8 then None
    else Some(blob[8..8 + FromLittleEndian(blob[..8])])
  }

  /** vault_make_data_blob. */
  function MakeBlob(content: seq<byte>, capacity: nat, noise: seq<byte>): (b: seq<byte>)
    requires capacity >= 8 && |content| <= capacity - 8 && |noise| == capacity
    ensures |b| == capacity
  {
    LittleEndian(|content|, 8) + content + noise[8 + |content|..]
  }

  lemma BlobRoundTrip(content: seq<byte>, capacity: nat, noise: seq<byte>)
    requires capacity >= 8 && |content| <= capacity - 8 && |noise| == capacity && |content| < U64
    ensures Content(MakeBlob(content, capacity, noise)) == Some(content)
  {
    hide LittleEndian, FromLittleEndian;
    ReadsBackLittle64(|content|);
    var b := MakeBlob(content, capacity, noise);
    assert b[..8] == LittleEndian(|content|, 8) && b[8..8 + |content|] == content;
  }

  /** vault_volume_extract: what a passphrase and a name give. */
  function Lookup(v: Env, img: seq<byte>, pass: Pass, name: seq<byte>): Option<seq<byte>>
  {
    match OpenVolume(v, img, pass)
    case None => None
    case Some((dir, _)) => Extract(v, img, pass, dir.entries, name)
  }

  function Extract(v: Env, img: seq<byte>, pass: Pass, es: seq<Entry>, name: seq<byte>): Option<seq<byte>>
  {
    match Find(es, name)
    case None => None
    case Some(i) =>
      match ReadData(v, img, pass, es[i])
      case None => None
      case Some(blob) => Content(blob)
  }

  // ---------------------------------------------------------------------------
  // The rewrite
  // ---------------------------------------------------------------------------

  /** A volume to seal: its passphrase, the one its old slots open under (another one only when the
      passphrase changes), the directory, and the blobs of entries that are new. */
  datatype Plan = Plan(pass: Pass, readPass: Pass, dir: Dir, blobs: map<nat, seq<byte>>)

  /** The random bytes of one command: the filler image, the salt and padding of the k-th seal, and the
      padding of a new data blob of a given size. */
  datatype Random = Random(fill: seq<byte>, salt: nat -> seq<byte>, pad: nat -> seq<byte>, noise: nat -> seq<byte>)

  ghost predicate Drawn(rnd: Random, size: nat)
  {
    && |rnd.fill| == size
    && (forall k: nat :: |rnd.salt(k)| == SALT)
    && (forall k: nat :: |rnd.pad(k)| == BLOCK)
    && (forall k: nat :: |rnd.noise(k)| == k)
  }

  /** A sealed slot to be written into the image. */
  datatype Piece = Piece(place: Place, salt: seq<byte>, blob: seq<byte>)

  function PieceRange(p: Piece): Range
  {
    Range(p.place.offset, p.place.offset + SlotLen(p.place.capacity))
  }

  function PieceRanges(ps: seq<Piece>): (rs: seq<Range>)
    ensures |rs| == |ps|
  {
    seq(|ps|, i requires 0 <= i < |ps| => PieceRange(ps[i]))
  }

  ghost predicate PieceOk(p: Piece, size: nat)
  {
    |p.salt| == SALT && |p.blob| == p.place.capacity && p.place.offset + SlotLen(p.place.capacity) <= size
  }

  ghost predicate PiecesOk(ps: seq<Piece>, size: nat)
  {
    forall k :: 0 <= k < |ps| ==> PieceOk(ps[k], size)
  }

  function PieceBytes(v: Env, p: Piece): seq<byte>
  {
    SealSlot(v.c, p.place, p.salt, p.blob)
  }

  /** The image after the pieces were written over it in order. */
  ghost function PutAll(v: Env, img: seq<byte>, ps: seq<Piece>): (r: seq<byte>)
    requires Exact(v.c.aead) && PiecesOk(ps, |img|)
    ensures |r| == |img|
  {
    if |ps| == 0 then img
    else
      var p := ps[|ps| - 1];
      OpensSealed(v.c, p.place, p.salt, p.blob);
      Write(PutAll(v, img, ps[..|ps| - 1]), p.place.offset, PieceBytes(v, p))
  }

  lemma WriteElsewhere(img: seq<byte>, offset: nat, b: seq<byte>, lo: nat, hi: nat)
    requires offset + |b| <= |img| && lo <= hi <= |img| && (hi <= offset || offset + |b| <= lo)
    ensures Write(img, offset, b)[lo..hi] == img[lo..hi]
  {
  }

  lemma WriteHere(img: seq<byte>, offset: nat, b: seq<byte>)
    requires offset + |b| <= |img|
    ensures Write(img, offset, b)[offset..offset + |b|] == b
  {
  }

  /** Disjoint pieces all read back from the image. */
  lemma {:induction false} PieceReads(v: Env, img: seq<byte>, ps: seq<Piece>, k: nat)
    requires Exact(v.c.aead) && PiecesOk(ps, |img|) && Disjoint(PieceRanges(ps)) && k < |ps|
    ensures ReadSlot(v, PutAll(v, img, ps), ps[k].place) == Some(ps[k].blob)
    decreases |ps|
  {
    hide Write, SealSlot, OpenSlot;
    var n := |ps| - 1;
    var p, last := ps[k], ps[n];
    OpensSealed(v.c, p.place, p.salt, p.blob);
    OpensSealed(v.c, last.place, last.salt, last.blob);
    var front := PutAll(v, img, ps[..n]);
    if k == n {
      WriteHere(front, last.place.offset, PieceBytes(v, last));
    } else {
      DisjointFront(ps);
      PieceReads(v, img, ps[..n], k);
      assert !Meet(PieceRanges(ps)[k], PieceRanges(ps)[n]);
      SlotLonger(p.place.capacity);
      SlotLonger(last.place.capacity);
      WriteElsewhere(front, last.place.offset, PieceBytes(v, last),
        p.place.offset, p.place.offset + SlotLen(p.place.capacity));
    }
  }

  lemma SlotLonger(capacity: nat)
    ensures SlotLen(capacity) > capacity + TAG
  {
  }

  lemma DisjointFront(ps: seq<Piece>)
    requires |ps| > 0 && Disjoint(PieceRanges(ps))
    ensures Disjoint(PieceRanges(ps[..|ps| - 1]))
  {
    var n := |ps| - 1;
    forall i, j | 0 <= i < j < n
      ensures !Meet(PieceRanges(ps[..n])[i], PieceRanges(ps[..n])[j])
    {
      assert !Meet(PieceRanges(ps)[i], PieceRanges(ps)[j]);
    }
  }

  /** The blob an entry is sealed with: its new one, or what its old slot holds. */
  function BlobFor(v: Env, was: Option<seq<byte>>, plan: Plan, i: nat): Option<seq<byte>>
    requires i < |plan.dir.entries|
  {
    if i in plan.blobs then Some(plan.blobs[i])
    else if was.None? then None
    else ReadData(v, was.value, plan.readPass, plan.dir.entries[i])
  }

  /** The pieces of the first n data entries; k seals were done before them. */
  function DataPieces(v: Env, size: nat, was: Option<seq<byte>>, plan: Plan, rnd: Random, k: nat, n: nat): Result<seq<Piece>>
    requires n <= |plan.dir.entries|
  {
    if n == 0 then Ok([])
    else match DataPieces(v, size, was, plan, rnd, k, n - 1)
      case Err(e) => Err(e)
      case Ok(ps) =>
        var e := plan.dir.entries[n - 1];
        if e.offset + SlotLen(e.capacity) > size then Err(ErrInput)
        else match BlobFor(v, was, plan, n - 1)
          case None => Err(ErrIntegrity)
          case Some(blob) => Ok(ps + [Piece(DataPlace(plan.pass, e), rnd.salt(k + n - 1), blob)])
  }

  function BlockOffset(plan: Plan, anchor: nat, b: nat): nat
    requires b > 0 ==> b - 1 < |plan.dir.overflow|
  {
    if b == 0 then anchor else plan.dir.overflow[b - 1]
  }

  /** The pieces of the first n directory blocks; k seals were done before them. */
  function BlockPieces(v: Env, size: nat, plan: Plan, anchor: nat, rnd: Random, k: nat, n: nat): Result<seq<Piece>>
    requires n <= RequiredBlocks(|plan.dir.entries|) && RequiredBlocks(|plan.dir.entries|) - 1 <= |plan.dir.overflow|
  {
    if n == 0 then Ok([])
    else match BlockPieces(v, size, plan, anchor, rnd, k, n - 1)
      case Err(e) => Err(e)
      case Ok(ps) =>
        BlocksFit(plan.dir, n - 1);
        var off := BlockOffset(plan, anchor, n - 1);
        var es := BlockOf(plan.dir, RequiredBlocks(|plan.dir.entries|), n - 1, v.log);
        if off + SPAN > size then Err(ErrInput)
        else if !Named(es) || |es| > MAX_ENTRIES || |rnd.pad(k + n - 1)| != BLOCK then Err(ErrCrypto)
        else
          var block := BlockBytes(es, rnd.pad(k + n - 1));
          Ok(ps + [Piece(Place(plan.pass, v.log as nat, off, BLOCK), rnd.salt(k + n - 1), block)])
  }

  /** Everything one plan puts into the image. */
  function PlanPieces(v: Env, size: nat, was: Option<seq<byte>>, plan: Plan, rnd: Random, k: nat): Result<seq<Piece>>
  {
    match AnchorOffset(v, plan.pass, size)
    case None => Err(ErrInput)
    case Some(anchor) =>
      var count := |plan.dir.entries|;
      match DataPieces(v, size, was, plan, rnd, k, count)
      case Err(e) => Err(e)
      case Ok(data) =>
        if RequiredBlocks(count) - 1 > |plan.dir.overflow| then Err(ErrInput)
        else match BlockPieces(v, size, plan, anchor, rnd, k + |data|, RequiredBlocks(count))
          case Err(e) => Err(e)
          case Ok(blocks) => Ok(data + blocks)
  }

  function AllPieces(v: Env, size: nat, was: Option<seq<byte>>, plans: seq<Plan>, rnd: Random): Result<seq<Piece>>
  {
    if |plans| == 0 then Ok([])
    else match AllPieces(v, size, was, plans[..|plans| - 1], rnd)
      case Err(e) => Err(e)
      case Ok(ps) =>
        match PlanPieces(v, size, was, plans[|plans| - 1], rnd, |ps|)
        case Err(e) => Err(e)
        case Ok(more) => Ok(ps + more)
  }

  ghost predicate BlobsFit(plan: Plan)
  {
    forall i :: i in plan.blobs && i < |plan.dir.entries| ==> |plan.blobs[i]| == plan.dir.entries[i].capacity
  }

  ghost predicate AllBlobsFit(plans: seq<Plan>)
  {
    forall j :: 0 <= j < |plans| ==> BlobsFit(plans[j])
  }

  lemma {:induction false} DataPiecesOk(v: Env, size: nat, was: Option<seq<byte>>, plan: Plan, rnd: Random, k: nat, n: nat)
    requires Exact(v.c.aead) && Drawn(rnd, size) && BlobsFit(plan) && n <= |plan.dir.entries|
    requires DataPieces(v, size, was, plan, rnd, k, n).Ok?
    ensures var ps := DataPieces(v, size, was, plan, rnd, k, n).value;
      && |ps| == n
      && PiecesOk(ps, size)
      && forall i :: 0 <= i < n ==>
           ps[i].place == DataPlace(plan.pass, plan.dir.entries[i]) && BlobFor(v, was, plan, i) == Some(ps[i].blob)
    decreases n
  {
    hide OpenSlot, SlotLen;
    if n > 0 {
      DataPiecesOk(v, size, was, plan, rnd, k, n - 1);
      BlobLength(v, was, plan, n - 1);
    }
  }

  lemma BlobLength(v: Env, was: Option<seq<byte>>, plan: Plan, i: nat)
    requires Exact(v.c.aead) && BlobsFit(plan) && i < |plan.dir.entries| && BlobFor(v, was, plan, i).Some?
    ensures |BlobFor(v, was, plan, i).value| == plan.dir.entries[i].capacity
  {
    hide OpenSlot, SlotLen;
    if i !in plan.blobs {
      var at := DataPlace(plan.readPass, plan.dir.entries[i]);
      OnlySealedOpens(v.c, at, was.value[at.offset..at.offset + SlotLen(at.capacity)]);
    }
  }

  lemma {:induction false} BlockPiecesOk(v: Env, size: nat, plan: Plan, anchor: nat, rnd: Random, k: nat, n: nat)
    requires Drawn(rnd, size)
    requires n <= RequiredBlocks(|plan.dir.entries|) && RequiredBlocks(|plan.dir.entries|) - 1 <= |plan.dir.overflow|
    requires BlockPieces(v, size, plan, anchor, rnd, k, n).Ok?
    ensures var ps := BlockPieces(v, size, plan, anchor, rnd, k, n).value;
      && |ps| == n
      && PiecesOk(ps, size)
      && forall b :: 0 <= b < n ==>
           && BlockFits(plan.dir, RequiredBlocks(|plan.dir.entries|), b)
           && ps[b].place == Place(plan.pass, v.log as nat, BlockOffset(plan, anchor, b), BLOCK)
           && var es := BlockOf(plan.dir, RequiredBlocks(|plan.dir.entries|), b, v.log);
              Named(es) && |es| <= MAX_ENTRIES && ps[b].blob == BlockBytes(es, rnd.pad(k + b))
    decreases n
  {
    hide BlockBytes, BlockOf, Named, RequiredBlocks, SlotLen;
    if n > 0 {
      BlockPiecesOk(v, size, plan, anchor, rnd, k, n - 1);
      BlocksFit(plan.dir, n - 1);
    }
  }
}
