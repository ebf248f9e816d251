/** What a volume of src/vault.c opens to, whatever bytes the container holds: which directory blocks are
    taken for one, and which chains of them for a directory. */
module VaultOpening {
  import opened Bytes
  import opened Common
  import opened Vault
  import opened VaultCommands
  import opened VaultDir
  import opened VaultSlot

  // ---------------------------------------------------------------------------
  // One block
  // ---------------------------------------------------------------------------

  /** The bytes of b that the parser reads are those of this entry; the rest of the name field and the
      reserved bytes are not read. */
  predicate Spells(b: seq<byte>, e: Entry)
  {
    && |b| == ENTRY && |e.name| <= MAX_NAME
    && LittleEndian(e.offset, 8) + LittleEndian(e.capacity, 8) + [e.logN, e.flags] + LittleEndian(|e.name|, 2) + e.name <= b
  }

  /** An entry is read exactly if the bytes spell it and its fields are within the trusted bounds. */
  lemma EntryReadsIff(b: seq<byte>, e: Entry)
    requires |b| == ENTRY
    ensures ParseEntry(b) == Some(e) <==> Spells(b, e) && Trusted(e)
  {
    hide LittleEndian, FromLittleEndian, Spells;
    if Spells(b, e) && Trusted(e) {
      SpelledFields(b, e);
    }
    if ParseEntry(b) == Some(e) {
      ReadSpells(b);
    }
  }

  lemma ReadSpells(b: seq<byte>)
    requires |b| == ENTRY && ParseEntry(b).Some?
    ensures Spells(b, ParseEntry(b).value)
  {
    hide LittleEndian, FromLittleEndian, Trusted;
    var n := FromLittleEndian(b[18..20]);
    WritesBackLittle(b[..8]);
    WritesBackLittle(b[8..16]);
    WritesBackLittle(b[18..20]);
    assert b[..8] + b[8..16] == b[..16];
    assert b[..16] + [b[16], b[17]] == b[..18];
    assert b[..18] + b[18..20] == b[..20];
    assert b[..20] + b[20..20 + n] == b[..20 + n];
  }

  lemma SpelledFields(b: seq<byte>, e: Entry)
    requires Spells(b, e) && Trusted(e)
    ensures FromLittleEndian(b[..8]) == e.offset && FromLittleEndian(b[8..16]) == e.capacity
    ensures FromLittleEndian(b[18..20]) == |e.name| && b[16] == e.logN && b[17] == e.flags && b[20..20 + |e.name|] == e.name
  {
    hide LittleEndian, FromLittleEndian;
    var t := LittleEndian(e.offset, 8) + LittleEndian(e.capacity, 8) + [e.logN, e.flags] + LittleEndian(|e.name|, 2) + e.name;
    assert |t| == 20 + |e.name| && t == b[..|t|];
    assert b[..8] == t[..8] && b[8..16] == t[8..16] && b[18..20] == t[18..20] && b[20..20 + |e.name|] == t[20..];
    assert t[..8] == LittleEndian(e.offset, 8) && t[8..16] == LittleEndian(e.capacity, 8);
    assert t[18..20] == LittleEndian(|e.name|, 2) && t[20..] == e.name;
    ReadsBackLittle64(e.offset);
    ReadsBackLittle64(e.capacity);
    ReadsBackLittle16(|e.name|);
  }

  function EntryAt(b: seq<byte>, k: nat): (r: seq<byte>)
    requires (k + 1) * ENTRY <= |b|
    ensures |r| == ENTRY
  {
    b[k * ENTRY..(k + 1) * ENTRY]
  }

  lemma {:induction false} EntriesReadIff(b: seq<byte>, n: nat, es: seq<Entry>)
    requires |b| == n * ENTRY
    ensures ParseEntries(b, n) == Some(es) <==>
      |es| == n && forall k: nat :: k < n ==> Spells(EntryAt(b, k), es[k]) && Trusted(es[k])
    decreases n
  {
    hide ParseEntry, Spells, Trusted;
    if n > 0 {
      var (front, last) := (b[..(n - 1) * ENTRY], b[(n - 1) * ENTRY..]);
      assert EntryAt(b, n - 1) == last;
      forall k: nat | k < n - 1
        ensures EntryAt(b, k) == EntryAt(front, k)
      {
      }
      if |es| == n {
        EntriesReadIff(front, n - 1, es[..n - 1]);
        EntryReadsIff(last, es[n - 1]);
        assert es == es[..n - 1] + [es[n - 1]];
      }
    }
  }

  /** A block is read as these entries exactly if it is of version 1, counts them, at most 46, and holds
      each of them, within the trusted bounds, at its place. */
  lemma BlockReadsIff(b: seq<byte>, es: seq<Entry>)
    requires |b| == BLOCK
    ensures ParseBlock(b) == Some(es) <==>
      && |es| <= MAX_ENTRIES && LittleEndian(1, 2) + LittleEndian(|es|, 2) <= b
      && forall k: nat :: k < |es| ==> Spells(EntryAt(b[HEADER..], k), es[k]) && Trusted(es[k])
  {
    hide LittleEndian, FromLittleEndian, ParseEntries, Spells, Trusted;
    HeaderSpells(b, |es|);
    var count := FromLittleEndian(b[2..4]);
    if count == |es| <= MAX_ENTRIES {
      var body := b[HEADER..HEADER + count * ENTRY];
      assert body == b[HEADER..][..count * ENTRY];
      EntriesReadIff(body, count, es);
      forall k: nat | k < |es|
        ensures EntryAt(body, k) == EntryAt(b[HEADER..], k)
      {
        EntryInside(b[HEADER..], count, k);
      }
    }
  }

  lemma EntryInside(b: seq<byte>, n: nat, k: nat)
    requires k < n && n * ENTRY <= |b|
    ensures EntryAt(b[..n * ENTRY], k) == EntryAt(b, k)
  {
    assert (k + 1) * ENTRY <= n * ENTRY;
  }

  lemma HeaderSpells(b: seq<byte>, n: nat)
    requires |b| == BLOCK
    ensures n <= MAX_ENTRIES ==>
      (LittleEndian(1, 2) + LittleEndian(n, 2) <= b <==> FromLittleEndian(b[..2]) == 1 && FromLittleEndian(b[2..4]) == n)
  {
    hide LittleEndian, FromLittleEndian;
    if n <= MAX_ENTRIES {
      ReadsBackLittle16(1);
      ReadsBackLittle16(n);
      WritesBackLittle(b[..2]);
      WritesBackLittle(b[2..4]);
      var (one, count) := (LittleEndian(1, 2), LittleEndian(n, 2));
      assert |one| == |count| == 2;
      PrefixOfTwo(one, count, b);
    }
  }

  lemma PrefixOfTwo(x: seq<byte>, y: seq<byte>, b: seq<byte>)
    requires |x| == |y| == 2 && |b| >= 4
    ensures x + y <= b <==> x == b[..2] && y == b[2..4]
  {
    assert x + y == b[..4] <==> x + y <= b;
    assert (x + y)[..2] == x && (x + y)[2..] == y;
    assert b[..4] == b[..2] + b[2..4];
    assert b[..4][..2] == b[..2] && b[..4][2..] == b[2..4];
  }

  // ---------------------------------------------------------------------------
  // The chain
  // ---------------------------------------------------------------------------

  /** The data entries of a block, in order. */
  function Data(es: seq<Entry>): (r: seq<Entry>)
  {
    if |es| == 0 then [] else Data(es[..|es| - 1]) + if IsOverflow(es[|es| - 1]) then [] else [es[|es| - 1]]
  }

  /** The blocks it points to, in order. */
  function Pointers(es: seq<Entry>): (r: seq<nat>)
  {
    if |es| == 0 then [] else Pointers(es[..|es| - 1]) + if IsOverflow(es[|es| - 1]) then [es[|es| - 1].offset] else []
  }

  /** A block is absorbed exactly if it has at most one pointer and there is room for its data entries. */
  lemma {:induction false} AbsorbIff(es: seq<Entry>, dir: Dir)
    requires |dir.entries| <= MAX_VOLUME
    ensures Absorb(es, dir)
         == if |Pointers(es)| > 1 || |dir.entries| + |Data(es)| > MAX_VOLUME then None
            else Some((dir.(entries := dir.entries + Data(es)), if Pointers(es) == [] then None else Some(Pointers(es)[0])))
  {
    hide IsOverflow;
    if |es| == 0 {
      assert dir.entries + [] == dir.entries;
    } else {
      AbsorbIff(es[..|es| - 1], dir);
      var e := es[|es| - 1];
      assert dir.entries + (Data(es[..|es| - 1]) + [e]) == dir.entries + Data(es[..|es| - 1]) + [e];
      assert Data(es[..|es| - 1]) + [] == Data(es[..|es| - 1]) && Pointers(es[..|es| - 1]) + [] == Pointers(es[..|es| - 1]);
    }
  }

  /** Every block can be read, points to the next one and the last one to none. */
  predicate Chain(read: nat -> Option<seq<Entry>>, offs: seq<nat>)
  {
    forall i: nat :: i < |offs| ==> Links(read, offs, i)
  }

  predicate Links(read: nat -> Option<seq<Entry>>, offs: seq<nat>, i: nat)
    requires i < |offs|
  {
    read(offs[i]).Some? && Pointers(read(offs[i]).value) == if i + 1 < |offs| then [offs[i + 1]] else []
  }

  /** All their data entries. */
  function Flat(read: nat -> Option<seq<Entry>>, offs: seq<nat>): (r: seq<Entry>)
    requires Chain(read, offs)
  {
    if |offs| == 0 then []
    else
      ChainTail(read, offs);
      Data(read(offs[0]).value) + Flat(read, offs[1..])
  }

  lemma ChainTail(read: nat -> Option<seq<Entry>>, offs: seq<nat>)
    requires |offs| > 0
    ensures Chain(read, offs) <==> Links(read, offs, 0) && Chain(read, offs[1..])
  {
    hide Pointers;
    var rest := offs[1..];
    forall i: nat | i < |rest|
      ensures Links(read, rest, i) <==> Links(read, offs, i + 1)
    {
    }
    if Links(read, offs, 0) && Chain(read, rest) {
      forall i: nat | i < |offs|
        ensures Links(read, offs, i)
      {
        assert i > 0 ==> Links(read, rest, i - 1);
      }
    }
  }

  /** What following a chain from `off` has gathered, given what was gathered before. */
  ghost predicate Gathers(read: nat -> Option<seq<Entry>>, b: nat, off: nat, dir: Dir, offs: seq<nat>, d: Dir)
  {
    && 1 <= |offs| <= MAX_BLOCKS - b && offs[0] == off && Chain(read, offs)
    && |dir.entries| + |Flat(read, offs)| <= MAX_VOLUME
    && d == Dir(dir.entries + Flat(read, offs), dir.overflow + offs[1..])
  }

  /** Following ends with a directory only along a chain of blocks that gathers it. */
  lemma {:induction false} FollowGathers(read: nat -> Option<seq<Entry>>, b: nat, off: nat, dir: Dir) returns (offs: seq<nat>)
    requires b <= MAX_BLOCKS && |dir.overflow| == b && |dir.entries| <= MAX_VOLUME && Follow(read, b, off, dir).Some?
    ensures Gathers(read, b, off, dir, offs, Follow(read, b, off, dir).value)
    decreases MAX_BLOCKS - b
  {
    hide Absorb, Data, Pointers, Chain;
    var es := read(off).value;
    AbsorbIff(es, dir);
    if Pointers(es) == [] {
      offs := [off];
      ChainEnd(read, off);
    } else {
      var next := Pointers(es)[0];
      var more := Dir(dir.entries + Data(es), dir.overflow + [next]);
      var rest := FollowGathers(read, b + 1, next, more);
      offs := [off] + rest;
      assert offs[1..] == rest;
      ChainTail(read, offs);
      assert dir.entries + (Data(es) + Flat(read, rest)) == dir.entries + Data(es) + Flat(read, rest);
      assert dir.overflow + rest == dir.overflow + [next] + rest[1..];
    }
  }

  lemma ChainEnd(read: nat -> Option<seq<Entry>>, off: nat)
    requires read(off).Some? && Pointers(read(off).value) == []
    ensures Chain(read, [off]) && Flat(read, [off]) == Data(read(off).value)
  {
    hide Data, Pointers;
    assert [off][1..] == [];
    ChainTail(read, [off]);
  }

  /** Along every such chain it does. */
  lemma {:induction false} GathersFollow(read: nat -> Option<seq<Entry>>, b: nat, off: nat, dir: Dir, offs: seq<nat>, d: Dir)
    requires |dir.overflow| == b && Gathers(read, b, off, dir, offs, d)
    ensures b < MAX_BLOCKS && Follow(read, b, off, dir) == Some(d)
    decreases MAX_BLOCKS - b
  {
    hide Absorb, Data, Pointers, Chain;
    ChainTail(read, offs);
    var es := read(off).value;
    AbsorbIff(es, dir);
    var rest := offs[1..];
    if rest == [] {
      ChainEnd(read, off);
      assert offs == [off] && dir.overflow + [] == dir.overflow;
    } else {
      assert rest[..1] == [rest[0]];
      var more := Dir(dir.entries + Data(es), dir.overflow + [rest[0]]);
      assert dir.entries + (Data(es) + Flat(read, rest)) == more.entries + Flat(read, rest);
      assert dir.overflow + rest == more.overflow + rest[1..];
      GathersFollow(read, b + 1, rest[0], more, rest, d);
    }
  }

  /** A volume opens to a directory at an anchor exactly if there is a chain of one to four readable blocks
      from the passphrase's anchor, each pointing to the next and to no other, whose data entries, 181 at
      most, are the directory's. */
  lemma OpensIff(v: Env, img: seq<byte>, pass: Pass, dir: Dir, anchor: nat)
    ensures OpenVolume(v, img, pass) == Some((dir, anchor)) <==>
      && AnchorOffset(v, pass, |img|) == Some(anchor) && |dir.overflow| < MAX_BLOCKS && |dir.entries| <= MAX_VOLUME
      && Chain(Reader(v, img, pass), [anchor] + dir.overflow)
      && dir.entries == Flat(Reader(v, img, pass), [anchor] + dir.overflow)
  {
    hide Follow, AnchorOffset, Chain, Flat;
    var read := Reader(v, img, pass);
    var none := Dir([], []);
    var offs := [anchor] + dir.overflow;
    assert offs[1..] == dir.overflow;
    if Follow(read, 0, anchor, none) == Some(dir) {
      var found := FollowGathers(read, 0, anchor, none);
      assert found == [anchor] + found[1..] && none.overflow + found[1..] == found[1..];
      assert none.entries + Flat(read, found) == Flat(read, found);
    }
    if Chain(read, offs) && |offs| <= MAX_BLOCKS && dir.entries == Flat(read, offs) && |dir.entries| <= MAX_VOLUME {
      assert none.entries + Flat(read, offs) == Flat(read, offs) && none.overflow + offs[1..] == offs[1..];
      assert Gathers(read, 0, anchor, none, offs, dir);
      GathersFollow(read, 0, anchor, none, offs, dir);
    }
  }

  /** However its bytes came about, the slots of an opened volume hold a length, and neither they nor its
      blocks end beyond what 64 bits can say: the sums of offsets and lengths never wrap. */
  lemma OpenedFits(v: Env, img: seq<byte>, pass: Pass)
    requires OpenVolume(v, img, pass).Some?
    ensures var dir := OpenVolume(v, img, pass).value.0;
      && (forall i :: 0 <= i < |dir.entries| ==>
            dir.entries[i].capacity > 8 && dir.entries[i].offset + SlotLen(dir.entries[i].capacity) < U64)
      && (forall b :: 0 <= b < |dir.overflow| ==> dir.overflow[b] + SPAN < U64)
  {
    hide OpenVolume;
    OpenedOk(v, img, pass);
    var dir := OpenVolume(v, img, pass).value.0;
    forall i | 0 <= i < |dir.entries|
      ensures dir.entries[i].capacity > 8 && dir.entries[i].offset + SlotLen(dir.entries[i].capacity) < U64
    {
      assert Trusted(dir.entries[i]);
    }
  }
}
