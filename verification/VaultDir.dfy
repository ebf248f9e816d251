/** The volume directory of src/vault.c: fixed-size blocks of entries, chained through overflow
    pointers when one block is not enough. */
module VaultDir {
  import opened Bytes
  import opened Common

  const BLOCK: nat := 4096
  const HEADER: nat := 8
  const ENTRY: nat := 88
  const MAX_NAME: nat := 64
  const MAX_ENTRIES: nat := 46
  const PER_INNER: nat := 45
  const MAX_BLOCKS: nat := 4
  const MAX_VOLUME: nat := 181
  const MIN_CAPACITY: nat := 9
  const MAX_CAPACITY: nat := 0x1_0000_0000_0000
  const MAX_OFFSET: nat := 0x1_0000_0000_0000

  datatype Entry = Entry(offset: nat, capacity: nat, logN: byte, flags: byte, name: seq<byte>)

  /** A volume: its data entries, and the offsets of the blocks after the anchor. */
  datatype Dir = Dir(entries: seq<Entry>, overflow: seq<nat>)

  // ---------------------------------------------------------------------------
  // One block
  // ---------------------------------------------------------------------------

  function EntryBytes(e: Entry): (b: seq<byte>)
    requires |e.name| <= MAX_NAME
    ensures |b| == ENTRY
  {
    LittleEndian(e.offset, 8) + LittleEndian(e.capacity, 8) + [e.logN, e.flags] + LittleEndian(|e.name|, 2)
    + e.name + Zeros(MAX_NAME - |e.name|) + Zeros(4)
  }

  predicate Named(es: seq<Entry>)
  {
    forall k :: 0 <= k < |es| ==> |es[k].name| <= MAX_NAME
  }

  function EntriesBytes(es: seq<Entry>): (b: seq<byte>)
    requires Named(es)
    ensures |b| == |es| * ENTRY
  {
    if |es| == 0 then [] else EntriesBytes(es[..|es| - 1]) + EntryBytes(es[|es| - 1])
  }

  /** The block: version, count, reserved, entries; what follows them is random padding. */
  function BlockBytes(es: seq<Entry>, noise: seq<byte>): (b: seq<byte>)
    requires Named(es) && |es| <= MAX_ENTRIES && |noise| == BLOCK
    ensures |b| == BLOCK
  {
    LittleEndian(1, 2) + LittleEndian(|es|, 2) + Zeros(4) + EntriesBytes(es) + noise[HEADER + |es| * ENTRY..]
  }

  function EntryFrom(b: seq<byte>): Entry
    requires |b| == ENTRY
  {
    var n := FromLittleEndian(b[18..20]);
    Entry(FromLittleEndian(b[..8]), FromLittleEndian(b[8..16]), b[16], b[17], if n <= MAX_NAME then b[20..20 + n] else [])
  }

  /** Every field is bounded before the directory is trusted. */
  predicate Trusted(e: Entry)
  {
    && |e.name| <= MAX_NAME
    && MIN_CAPACITY <= e.capacity <= MAX_CAPACITY
    && e.offset <= MAX_OFFSET
    && 14 <= e.logN as nat <= 22
  }

  function ParseEntry(b: seq<byte>): Option<Entry>
    requires |b| == ENTRY
  {
    if FromLittleEndian(b[18..20]) <= MAX_NAME && Trusted(EntryFrom(b)) then Some(EntryFrom(b)) else None
  }

  function ParseEntries(b: seq<byte>, n: nat): (r: Option<seq<Entry>>)
    requires |b| == n * ENTRY
    ensures r.Some? ==> |r.value| == n
  {
    if n == 0 then Some([])
    else match ParseEntries(b[..(n - 1) * ENTRY], n - 1)
      case None => None
      case Some(es) =>
        match ParseEntry(b[(n - 1) * ENTRY..])
        case None => None
        case Some(e) => Some(es + [e])
  }

  /** vault_dir_parse. */
  function ParseBlock(b: seq<byte>): Option<seq<Entry>>
    requires |b| == BLOCK
  {
    var count := FromLittleEndian(b[2..4]);
    if FromLittleEndian(b[..2]) != 1 || count > MAX_ENTRIES then None
    else ParseEntries(b[HEADER..HEADER + count * ENTRY], count)
  }

  predicate Storable(e: Entry)
  {
    e.offset < U64 && e.capacity < U64 && |e.name| <= MAX_NAME
  }

  predicate AllStorable(es: seq<Entry>)
  {
    forall k :: 0 <= k < |es| ==> Storable(es[k])
  }

  predicate AllTrusted(es: seq<Entry>)
  {
    forall k :: 0 <= k < |es| ==> Trusted(es[k])
  }

  lemma EntryLayout(e: Entry)
    requires |e.name| <= MAX_NAME
    ensures var b := EntryBytes(e);
      && b[..8] == LittleEndian(e.offset, 8) && b[8..16] == LittleEndian(e.capacity, 8)
      && b[16] == e.logN && b[17] == e.flags && b[18..20] == LittleEndian(|e.name|, 2)
      && b[20..20 + |e.name|] == e.name
  {
    hide LittleEndian;
  }

  /** An entry reads back as itself exactly when its fields are within the trusted bounds. */
  lemma EntryRoundTrip(e: Entry)
    requires Storable(e)
    ensures ParseEntry(EntryBytes(e)) == if Trusted(e) then Some(e) else None
  {
    hide LittleEndian, FromLittleEndian, EntryBytes, Trusted;
    EntryLayout(e);
    ReadsBackLittle64(e.offset);
    ReadsBackLittle64(e.capacity);
    ReadsBackLittle16(|e.name|);
  }

  lemma {:induction false} EntriesRoundTrip(es: seq<Entry>)
    requires AllStorable(es) && Named(es)
    ensures ParseEntries(EntriesBytes(es), |es|) == if AllTrusted(es) then Some(es) else None
  {
    hide EntryBytes, ParseEntry, Trusted;
    if |es| > 0 {
      var n := |es| - 1;
      EntriesRoundTrip(es[..n]);
      EntryRoundTrip(es[n]);
      var b := EntriesBytes(es);
      assert b[..n * ENTRY] == EntriesBytes(es[..n]) && b[n * ENTRY..] == EntryBytes(es[n]);
      assert es == es[..n] + [es[n]];
    }
  }

  /** A block parses back to its entries exactly when every entry is within the trusted bounds: one
      entry out of bounds makes the whole block unreadable. */
  lemma BlockRoundTrip(es: seq<Entry>, noise: seq<byte>)
    requires |es| <= MAX_ENTRIES && |noise| == BLOCK && AllStorable(es) && Named(es)
    ensures ParseBlock(BlockBytes(es, noise)) == if AllTrusted(es) then Some(es) else None
  {
    hide LittleEndian, FromLittleEndian, EntriesBytes, ParseEntries, Trusted;
    EntriesRoundTrip(es);
    ReadsBackLittle16(1);
    ReadsBackLittle16(|es|);
    var b := BlockBytes(es, noise);
    assert b[..2] == LittleEndian(1, 2) && b[2..4] == LittleEndian(|es|, 2);
    assert b[HEADER..HEADER + |es| * ENTRY] == EntriesBytes(es);
  }

  lemma {:induction false} ParsedTrusted(b: seq<byte>, n: nat)
    requires |b| == n * ENTRY && ParseEntries(b, n).Some?
    ensures AllTrusted(ParseEntries(b, n).value)
    decreases n
  {
    hide ParseEntry, Trusted;
    if n > 0 {
      ParsedTrusted(b[..(n - 1) * ENTRY], n - 1);
      ParsedEntryTrusted(b[(n - 1) * ENTRY..]);
    }
  }

  lemma ParsedEntryTrusted(b: seq<byte>)
    requires |b| == ENTRY && ParseEntry(b).Some?
    ensures Trusted(ParseEntry(b).value)
  {
  }

  // ---------------------------------------------------------------------------
  // The chain of blocks
  // ---------------------------------------------------------------------------

  /** flags & VAULT_ENTRY_FLAG_OVERFLOW */
  predicate IsOverflow(e: Entry)
  {
    e.flags % 2 == 1
  }

  function ClearOverflow(e: Entry): Entry
  {
    e.(flags := e.flags - e.flags % 2)
  }

  function Cleared(es: seq<Entry>): (r: seq<Entry>)
    ensures |r| == |es|
  {
    seq(|es|, i requires 0 <= i < |es| => ClearOverflow(es[i]))
  }

  /** vault_required_blocks. */
  function RequiredBlocks(count: nat): nat
  {
    if count <= MAX_ENTRIES then 1 else 1 + (count - MAX_ENTRIES + PER_INNER - 1) / PER_INNER
  }

  /** Number of data entries in block b of a chain of `blocks`. */
  function DataIn(count: nat, blocks: nat, b: nat): int
  {
    if b < blocks - 1 then PER_INNER else count - PER_INNER * b
  }

  /** The required number of blocks is enough and no more: the last one holds at most 46 entries, and
      at least 2 when it is not the only one. */
  lemma BlockSizes(count: nat)
    ensures var n := RequiredBlocks(count);
      && 0 <= DataIn(count, n, n - 1) <= MAX_ENTRIES
      && (n > 1 ==> DataIn(count, n, n - 1) >= 2)
      && (n <= MAX_BLOCKS <==> count <= MAX_VOLUME)
      && PER_INNER * (n - 1) <= count
  {
  }

  function Pointer(next: nat, anchorLog: byte): Entry
  {
    Entry(next, BLOCK, anchorLog, 1, [])
  }

  /** Block b is one of the chain's, and the directory has what goes into it. */
  predicate BlockFits(dir: Dir, n: nat, b: nat)
  {
    && b < n
    && 0 <= DataIn(|dir.entries|, n, b)
    && PER_INNER * b + DataIn(|dir.entries|, n, b) <= |dir.entries|
    && (b < n - 1 ==> b < |dir.overflow|)
  }

  /** Block b as the rewrite seals it. */
  function BlockOf(dir: Dir, blocks: nat, b: nat, anchorLog: byte): (es: seq<Entry>)
    requires BlockFits(dir, blocks, b)
    ensures |es| == DataIn(|dir.entries|, blocks, b) + if b < blocks - 1 then 1 else 0
  {
    var n := DataIn(|dir.entries|, blocks, b);
    var start := PER_INNER * b;
    Cleared(dir.entries[start..start + n])
    + if b < blocks - 1 then [Pointer(dir.overflow[b], anchorLog)] else []
  }

  /** One block's entries into the flattened directory: data entries are appended, at most one
      pointer names the next block. */
  function Absorb(es: seq<Entry>, dir: Dir): Option<(Dir, Option<nat>)>
  {
    if |es| == 0 then Some((dir, None))
    else match Absorb(es[..|es| - 1], dir)
      case None => None
      case Some((d, next)) =>
        var e := es[|es| - 1];
        if IsOverflow(e) then (if next.Some? then None else Some((d, Some(e.offset))))
        else if |d.entries| >= MAX_VOLUME then None
        else Some((d.(entries := d.entries + [e]), next))
  }

  /** Follows the chain from block b at `off`; `read` gives a block's parsed entries. */
  function Follow(read: nat -> Option<seq<Entry>>, b: nat, off: nat, dir: Dir): Option<Dir>
    requires b <= MAX_BLOCKS
    decreases MAX_BLOCKS - b
  {
    if b == MAX_BLOCKS then None
    else match read(off)
      case None => None
      case Some(es) =>
        match Absorb(es, dir)
        case None => None
        case Some((d, next)) =>
          if next.None? then Some(d)
          else if |d.overflow| >= MAX_BLOCKS - 1 then None
          else Follow(read, b + 1, next.value, d.(overflow := d.overflow + [next.value]))
  }

  ghost predicate NoPointers(es: seq<Entry>)
  {
    forall k :: 0 <= k < |es| ==> !IsOverflow(es[k])
  }

  lemma {:induction false} AbsorbData(es: seq<Entry>, dir: Dir)
    requires NoPointers(es) && |dir.entries| + |es| <= MAX_VOLUME
    ensures Absorb(es, dir) == Some((dir.(entries := dir.entries + es), None))
  {
    hide IsOverflow;
    if |es| == 0 {
      assert dir.entries + es == dir.entries;
    } else {
      AbsorbData(es[..|es| - 1], dir);
      assert dir.entries + es == dir.entries + es[..|es| - 1] + [es[|es| - 1]];
    }
  }

  lemma AbsorbBlock(es: seq<Entry>, p: Entry, dir: Dir)
    requires NoPointers(es) && IsOverflow(p) && |dir.entries| + |es| <= MAX_VOLUME
    ensures Absorb(es + [p], dir) == Some((dir.(entries := dir.entries + es), Some(p.offset)))
  {
    AbsorbData(es, dir);
    assert (es + [p])[..|es|] == es;
  }

  /** The requirements of BlockOf hold for every required block. */
  lemma BlocksFit(dir: Dir, b: nat)
    requires b < RequiredBlocks(|dir.entries|) && RequiredBlocks(|dir.entries|) - 1 <= |dir.overflow|
    ensures BlockFits(dir, RequiredBlocks(|dir.entries|), b)
    ensures |BlockOf(dir, RequiredBlocks(|dir.entries|), b, 0)| <= MAX_ENTRIES
  {
    var n := RequiredBlocks(|dir.entries|);
    BlockSizes(|dir.entries|);
    if b < n - 1 {
      assert PER_INNER * b + PER_INNER <= PER_INNER * (n - 1);
    }
  }

  lemma ClearIsSame(es: seq<Entry>)
    requires NoPointers(es)
    ensures Cleared(es) == es
  {
    forall i | 0 <= i < |es|
      ensures ClearOverflow(es[i]) == es[i]
    {
      assert !IsOverflow(es[i]);
    }
  }

  /** What a directory must satisfy to be readable: the bounds the parser checks, on the entries and,
      when it needs more than one block, on the pointers. */
  predicate Readable(dir: Dir, log: byte)
  {
    var n := RequiredBlocks(|dir.entries|);
    && AllTrusted(dir.entries)
    && (n > 1 ==> 14 <= log as nat <= 22)
    && forall b :: 0 <= b < n - 1 && b < |dir.overflow| ==> dir.overflow[b] <= MAX_OFFSET
  }

  lemma BlockTrusted(dir: Dir, b: nat, log: byte)
    requires b < RequiredBlocks(|dir.entries|) && RequiredBlocks(|dir.entries|) - 1 <= |dir.overflow|
    ensures BlockFits(dir, RequiredBlocks(|dir.entries|), b)
    ensures var n := RequiredBlocks(|dir.entries|);
      var es := BlockOf(dir, n, b, log);
      var count := DataIn(|dir.entries|, n, b);
      AllTrusted(es) <==>
        && AllTrusted(dir.entries[PER_INNER * b..PER_INNER * b + count])
        && (b < n - 1 ==> 14 <= log as nat <= 22 && dir.overflow[b] <= MAX_OFFSET)
  {
    BlocksFit(dir, b);
    var n := RequiredBlocks(|dir.entries|);
    var es := BlockOf(dir, n, b, log);
    var count := DataIn(|dir.entries|, n, b);
    var data := dir.entries[PER_INNER * b..PER_INNER * b + count];
    assert forall i :: 0 <= i < count ==> es[i] == ClearOverflow(data[i]);
    assert forall i :: 0 <= i < count ==> (Trusted(es[i]) <==> Trusted(data[i]));
    if b < n - 1 {
      assert es[count] == Pointer(dir.overflow[b], log);
    }
    if AllTrusted(es) {
      forall i | 0 <= i < count
        ensures Trusted(data[i])
      {
        assert Trusted(es[i]);
      }
    }
  }

  /** Which block holds an entry. */
  lemma EntryInBlock(dir: Dir, i: nat) returns (b: nat)
    requires i < |dir.entries|
    ensures b < RequiredBlocks(|dir.entries|)
    ensures var n := RequiredBlocks(|dir.entries|);
      PER_INNER * b <= i < PER_INNER * b + DataIn(|dir.entries|, n, b)
  {
    var n := RequiredBlocks(|dir.entries|);
    BlockSizes(|dir.entries|);
    b := if i / PER_INNER < n - 1 then i / PER_INNER else n - 1;
  }

  /** Readable directories are those all of whose blocks are within the trusted bounds. */
  lemma ReadableBlocks(dir: Dir, log: byte)
    requires RequiredBlocks(|dir.entries|) - 1 <= |dir.overflow|
    ensures forall b: nat :: b < RequiredBlocks(|dir.entries|) ==> BlockFits(dir, RequiredBlocks(|dir.entries|), b)
    ensures Readable(dir, log) <==>
      forall b: nat :: b < RequiredBlocks(|dir.entries|) ==> AllTrusted(BlockOf(dir, RequiredBlocks(|dir.entries|), b, log))
  {
    hide BlockOf, Trusted, RequiredBlocks;
    var n := RequiredBlocks(|dir.entries|);
    forall b: nat | b < n
      ensures BlockFits(dir, n, b)
    {
      BlocksFit(dir, b);
    }
    if Readable(dir, log) {
      forall b: nat | b < n
        ensures AllTrusted(BlockOf(dir, n, b, log))
      {
        BlockTrusted(dir, b, log);
      }
    }
    if forall b: nat :: b < n ==> AllTrusted(BlockOf(dir, n, b, log)) {
      forall i: nat | i < |dir.entries|
        ensures Trusted(dir.entries[i])
      {
        var b := EntryInBlock(dir, i);
        BlockTrusted(dir, b, log);
        assert dir.entries[i] == dir.entries[PER_INNER * b..PER_INNER * b + DataIn(|dir.entries|, n, b)][i - PER_INNER * b];
      }
      forall b: nat | b + 1 < n
        ensures 14 <= log as nat <= 22 && dir.overflow[b] <= MAX_OFFSET
      {
        assert AllTrusted(BlockOf(dir, n, b, log));
        BlockTrusted(dir, b, log);
      }
      if n > 1 {
        assert AllTrusted(BlockOf(dir, n, 0, log));
        BlockTrusted(dir, 0, log);
      }
    }
  }

  /** Every block of the chain is where the directory says, and parses exactly when it is trusted. */
  ghost predicate Sealed(read: nat -> Option<seq<Entry>>, dir: Dir, anchor: nat, log: byte)
  {
    var n := RequiredBlocks(|dir.entries|);
    && |dir.entries| <= MAX_VOLUME
    && n - 1 <= |dir.overflow|
    && forall b: nat :: b < n ==>
      && BlockFits(dir, n, b)
      && read(if b == 0 then anchor else dir.overflow[b - 1])
         == if AllTrusted(BlockOf(dir, n, b, log)) then Some(BlockOf(dir, n, b, log)) else None
  }

  ghost predicate TrustedFrom(dir: Dir, log: byte, b: nat)
  {
    var n := RequiredBlocks(|dir.entries|);
    forall c: nat :: b <= c < n && BlockFits(dir, n, c) ==> AllTrusted(BlockOf(dir, n, c, log))
  }

  lemma TrustedStep(dir: Dir, log: byte, b: nat)
    requires b < RequiredBlocks(|dir.entries|) && BlockFits(dir, RequiredBlocks(|dir.entries|), b)
    ensures TrustedFrom(dir, log, b) <==>
      AllTrusted(BlockOf(dir, RequiredBlocks(|dir.entries|), b, log)) && TrustedFrom(dir, log, b + 1)
  {
    hide AllTrusted, BlockOf, RequiredBlocks;
  }

  lemma {:induction false} FollowFrom(read: nat -> Option<seq<Entry>>, dir: Dir, anchor: nat, log: byte, b: nat)
    requires Sealed(read, dir, anchor, log) && NoPointers(dir.entries)
    requires b < RequiredBlocks(|dir.entries|)
    ensures Follow(read, b, if b == 0 then anchor else dir.overflow[b - 1], Dir(dir.entries[..PER_INNER * b], dir.overflow[..b]))
         == if TrustedFrom(dir, log, b) then Some(Dir(dir.entries, dir.overflow[..RequiredBlocks(|dir.entries|) - 1]))
            else None
    decreases RequiredBlocks(|dir.entries|) - b
  {
    hide Absorb, NoPointers, IsOverflow, Cleared, AllTrusted, TrustedFrom;
    var n := RequiredBlocks(|dir.entries|);
    BlockSizes(|dir.entries|);
    assert BlockFits(dir, n, b);
    TrustedStep(dir, log, b);
    AbsorbNext(dir, b, log);
    if b == n - 1 {
      TrustedEnd(dir, log);
    } else {
      FollowFrom(read, dir, anchor, log, b + 1);
      assert dir.overflow[..b] + [dir.overflow[b]] == dir.overflow[..b + 1];
    }
  }

  lemma TrustedEnd(dir: Dir, log: byte)
    ensures TrustedFrom(dir, log, RequiredBlocks(|dir.entries|))
  {
  }

  /** Absorbing block b onto the entries of the blocks before it. */
  lemma AbsorbNext(dir: Dir, b: nat, log: byte)
    requires |dir.entries| <= MAX_VOLUME && NoPointers(dir.entries) && b < RequiredBlocks(|dir.entries|)
    requires RequiredBlocks(|dir.entries|) - 1 <= |dir.overflow| && BlockFits(dir, RequiredBlocks(|dir.entries|), b)
    ensures var n := RequiredBlocks(|dir.entries|);
      var soFar := Dir(dir.entries[..PER_INNER * b], dir.overflow[..b]);
      Absorb(BlockOf(dir, n, b, log), soFar)
      == if b == n - 1 then Some((Dir(dir.entries, dir.overflow[..b]), None))
         else Some((Dir(dir.entries[..PER_INNER * (b + 1)], dir.overflow[..b]), Some(dir.overflow[b])))
  {
    hide Absorb, NoPointers, IsOverflow, Cleared;
    var n := RequiredBlocks(|dir.entries|);
    var soFar := Dir(dir.entries[..PER_INNER * b], dir.overflow[..b]);
    var size := DataIn(|dir.entries|, n, b);
    var data := dir.entries[PER_INNER * b..PER_INNER * b + size];
    NoPointersPart(dir.entries, PER_INNER * b, size);
    ClearIsSame(data);
    assert soFar.entries + data == dir.entries[..PER_INNER * b + size];
    if b == n - 1 {
      AbsorbData(data, soFar);
      assert dir.entries[..|dir.entries|] == dir.entries;
      assert BlockOf(dir, n, b, log) == data;
    } else {
      AbsorbBlock(data, Pointer(dir.overflow[b], log), soFar);
    }
  }

  lemma NoPointersPart(es: seq<Entry>, start: nat, n: nat)
    requires NoPointers(es) && start + n <= |es|
    ensures NoPointers(es[start..start + n])
  {
  }

  /** Following the chain of a sealed directory gives the same entries in the same order, for every
      directory of up to 181 data entries whose fields are within the trusted bounds; any other
      directory cannot be opened again. */
  lemma ChainRoundTrip(read: nat -> Option<seq<Entry>>, dir: Dir, anchor: nat, log: byte)
    requires Sealed(read, dir, anchor, log) && NoPointers(dir.entries)
    ensures Follow(read, 0, anchor, Dir([], []))
         == if Readable(dir, log) then Some(Dir(dir.entries, dir.overflow[..RequiredBlocks(|dir.entries|) - 1])) else None
  {
    hide Sealed, NoPointers, Readable, AllTrusted, BlockOf;
    BlockSizes(|dir.entries|);
    SealedFits(read, dir, anchor, log);
    ReadableBlocks(dir, log);
    FollowFrom(read, dir, anchor, log, 0);
    assert dir.entries[..0] == [] && dir.overflow[..0] == [];
  }

  /** Sealing clears the pointer flag of data entries, so none of them is ever followed: whatever their flags
      say, what is read back are the data entries, cleared. */
  lemma ChainClears(read: nat -> Option<seq<Entry>>, dir: Dir, anchor: nat, log: byte)
    requires Sealed(read, dir, anchor, log)
    ensures NoPointers(Cleared(dir.entries)) && forall i :: 0 <= i < |dir.entries| ==>
      var (e, c) := (dir.entries[i], Cleared(dir.entries)[i]); c == e.(flags := c.flags) && c.flags / 2 == e.flags / 2
    ensures Follow(read, 0, anchor, Dir([], []))
         == if Readable(dir, log) then Some(Dir(Cleared(dir.entries), dir.overflow[..RequiredBlocks(|dir.entries|) - 1])) else None
  {
    hide NoPointers, BlockOf, AllTrusted, RequiredBlocks, Follow, BlockFits;
    var clear := dir.(entries := Cleared(dir.entries));
    ClearTwice(dir.entries);
    var n := RequiredBlocks(|dir.entries|);
    forall b: nat | b < n
      ensures BlockFits(clear, n, b) && BlockFits(dir, n, b) && BlockOf(clear, n, b, log) == BlockOf(dir, n, b, log)
    {
      BlockCleared(dir, n, b, log);
    }
    ChainRoundTrip(read, clear, anchor, log);
    ClearedTrusted(dir.entries);
  }

  lemma BlockCleared(dir: Dir, n: nat, b: nat, log: byte)
    requires BlockFits(dir, n, b)
    ensures var clear := dir.(entries := Cleared(dir.entries));
      BlockFits(clear, n, b) && BlockOf(clear, n, b, log) == BlockOf(dir, n, b, log)
  {
    hide ClearOverflow;
    var (start, size) := (PER_INNER * b, DataIn(|dir.entries|, n, b));
    var part := dir.entries[start..start + size];
    ClearTwice(part);
    assert Cleared(dir.entries)[start..start + size] == Cleared(part);
  }

  lemma ClearTwice(es: seq<Entry>)
    ensures NoPointers(Cleared(es)) && Cleared(Cleared(es)) == Cleared(es)
  {
    forall i | 0 <= i < |es|
      ensures !IsOverflow(Cleared(es)[i])
    {
      assert Cleared(es)[i].flags == es[i].flags - es[i].flags % 2;
    }
    ClearIsSame(Cleared(es));
  }

  lemma ClearedTrusted(es: seq<Entry>)
    ensures AllTrusted(Cleared(es)) <==> AllTrusted(es)
  {
    forall i | 0 <= i < |es|
      ensures Trusted(Cleared(es)[i]) <==> Trusted(es[i])
    {
    }
  }

  lemma SealedFits(read: nat -> Option<seq<Entry>>, dir: Dir, anchor: nat, log: byte)
    requires Sealed(read, dir, anchor, log)
    ensures RequiredBlocks(|dir.entries|) - 1 <= |dir.overflow|
  {
  }
}
