/** The loops of src/vault.c that read: directory blocks, the directory list, opening a volume, each
    proved against its function. */
module VaultImage {
  import opened Bytes
  import opened Common
  import opened Framing
  import opened Vault
  import opened VaultCommands
  import opened VaultDir
  import opened VaultSlot

  // ---------------------------------------------------------------------------
  // Directory blocks
  // ---------------------------------------------------------------------------

  /** vault_dir_serialize: entries laid over a block of random bytes. */
  method SerializeBlock(es: seq<Entry>, noise: seq<byte>) returns (b: Option<seq<byte>>)
    requires |noise| == BLOCK
    ensures b == if |es| <= MAX_ENTRIES && Named(es) then Some(BlockBytes(es, noise)) else None
  {
    hide EntryBytes, LittleEndian;
    if |es| > MAX_ENTRIES {
      return None;
    }
    var packed: seq<byte> := [];
    var i: nat := 0;
    while i < |es|
      invariant i <= |es| && Named(es[..i]) && packed == EntriesBytes(es[..i])
    {
      if |es[i].name| > MAX_NAME {
        return None;
      }
      assert es[..i + 1][..i] == es[..i];
      packed := packed + EntryBytes(es[i]);
      i := i + 1;
    }
    assert es[..|es|] == es;
    b := Some(LittleEndian(1, 2) + LittleEndian(|es|, 2) + Zeros(4) + packed + noise[HEADER + |packed|..]);
  }

  lemma {:induction false} ParseFails(b: seq<byte>, i: nat, n: nat)
    requires i <= n && |b| == n * ENTRY && ParseEntries(b[..i * ENTRY], i).None?
    ensures ParseEntries(b, n).None?
    decreases n
  {
    hide ParseEntry;
    if i < n {
      assert b[..(n - 1) * ENTRY][..i * ENTRY] == b[..i * ENTRY];
      ParseFails(b[..(n - 1) * ENTRY], i, n - 1);
    } else {
      assert b[..n * ENTRY] == b;
    }
  }

  /** vault_dir_parse: every entry is checked, the first bad one refuses the block. */
  method ParseBytes(b: seq<byte>) returns (r: Option<seq<Entry>>)
    requires |b| == BLOCK
    ensures r == ParseBlock(b)
  {
    hide ParseEntry, FromLittleEndian;
    var count := FromLittleEndian(b[2..4]);
    if FromLittleEndian(b[..2]) != 1 || count > MAX_ENTRIES {
      return None;
    }
    var p := b[HEADER..HEADER + count * ENTRY];
    var es: seq<Entry> := [];
    var i: nat := 0;
    while i < count
      invariant i <= count && ParseEntries(p[..i * ENTRY], i) == Some(es)
    {
      assert p[..(i + 1) * ENTRY][..i * ENTRY] == p[..i * ENTRY];
      assert p[..(i + 1) * ENTRY][i * ENTRY..] == p[i * ENTRY..(i + 1) * ENTRY];
      var e := ParseEntry(p[i * ENTRY..(i + 1) * ENTRY]);
      if e.None? {
        ParseFails(p, i + 1, count);
        return None;
      }
      es := es + [e.value];
      i := i + 1;
    }
    assert p[..count * ENTRY] == p;
    r := Some(es);
  }

  // ---------------------------------------------------------------------------
  // The directory as a list
  // ---------------------------------------------------------------------------

  class Directory {
    var entries: seq<Entry>
    var overflow: seq<nat>

    ghost function Value(): Dir
      reads this
    {
      Dir(entries, overflow)
    }

    constructor (dir: Dir)
      ensures Value() == dir
    {
      entries, overflow := dir.entries, dir.overflow;
    }

    /** vault_dir_find. */
    method FindName(name: seq<byte>) returns (i: Option<nat>)
      ensures i == Find(entries, name)
    {
      hide Find;
      var k: nat := 0;
      while k < |entries|
        invariant k <= |entries| && forall j :: 0 <= j < k ==> entries[j].name != name
      {
        if entries[k].name == name {
          FindIs(entries, name, k);
          return Some(k);
        }
        k := k + 1;
      }
      i := None;
    }

    /** vault_dir_remove: the entries behind move down one place. */
    method RemoveName(name: seq<byte>) returns (ok: bool)
      modifies this
      ensures ok == Find(old(entries), name).Some? && overflow == old(overflow)
      ensures entries == if ok then RemoveAt(old(entries), Find(old(entries), name).value) else old(entries)
    {
      hide Find;
      var hit := FindName(name);
      if hit.None? {
        return false;
      }
      ghost var was := entries;
      var i := hit.value;
      while i + 1 < |entries|
        invariant hit.value <= i < |entries| == |was| && overflow == old(overflow)
        invariant forall j :: 0 <= j < hit.value ==> entries[j] == was[j]
        invariant forall j :: hit.value <= j < i ==> entries[j] == was[j + 1]
        invariant forall j :: i < j < |was| ==> entries[j] == was[j]
      {
        entries := entries[i := entries[i + 1]];
        i := i + 1;
      }
      entries := entries[..|entries| - 1];
      assert entries == RemoveAt(was, hit.value);
      ok := true;
    }

    /** vault_dir_add: a full directory or a duplicate name is refused. */
    method AddEntry(e: Entry) returns (ok: bool)
      modifies this
      ensures ok <==> |old(entries)| < MAX_VOLUME && |e.name| <= MAX_NAME && Find(old(entries), e.name).None?
      ensures entries == (if ok then old(entries) + [e] else old(entries)) && overflow == old(overflow)
    {
      if |entries| >= MAX_VOLUME || |e.name| > MAX_NAME {
        return false;
      }
      var hit := FindName(e.name);
      if hit.Some? {
        return false;
      }
      entries := entries + [e];
      ok := true;
    }
  }

  // ---------------------------------------------------------------------------
  // Opening a volume
  // ---------------------------------------------------------------------------

  lemma {:induction false} AbsorbFails(es: seq<Entry>, i: nat, dir: Dir)
    requires i <= |es| && Absorb(es[..i], dir).None?
    ensures Absorb(es, dir).None?
    decreases |es|
  {
    hide IsOverflow;
    if i < |es| {
      assert es[..|es| - 1][..i] == es[..i];
      AbsorbFails(es[..|es| - 1], i, dir);
    } else {
      assert es[..i] == es;
    }
  }

  /** One block's entries into the directory. */
  method AbsorbInto(es: seq<Entry>, dir: Dir) returns (r: Option<(Dir, Option<nat>)>)
    ensures r == Absorb(es, dir)
  {
    hide IsOverflow;
    var d, next := dir, None;
    var i: nat := 0;
    while i < |es|
      invariant i <= |es| && Absorb(es[..i], dir) == Some((d, next))
    {
      assert es[..i + 1][..i] == es[..i];
      if IsOverflow(es[i]) {
        if next.Some? {
          AbsorbFails(es, i + 1, dir);
          return None;
        }
        next := Some(es[i].offset);
      } else {
        if |d.entries| >= MAX_VOLUME {
          AbsorbFails(es, i + 1, dir);
          return None;
        }
        d := d.(entries := d.entries + [es[i]]);
      }
      i := i + 1;
    }
    assert es[..|es|] == es;
    r := Some((d, next));
  }

  method ReadOne(v: Env, img: seq<byte>, pass: Pass, off: nat) returns (r: Option<seq<Entry>>)
    requires Exact(v.c.aead)
    ensures r == ReadBlock(v, img, pass, off)
  {
    hide ParseBlock, OpenSlot, SlotLen;
    var at := Place(pass, v.log as nat, off, BLOCK);
    if off + SPAN > |img| {
      return None;
    }
    var slot := img[off..off + SPAN];
    var block := Open(v.c, at, slot);
    if block.None? {
      return None;
    }
    OnlySealedOpens(v.c, at, slot);
    r := ParseBytes(block.value);
  }

  /** vault_open_volume: from the anchor along the chain. */
  method OpenFor(v: Env, img: seq<byte>, pass: Pass) returns (r: Option<(Dir, nat)>)
    requires Exact(v.c.aead)
    ensures r == OpenVolume(v, img, pass)
  {
    hide ReadBlock, Absorb, AnchorOffset;
    var anchor := AnchorOffset(v, pass, |img|);
    if anchor.None? {
      return None;
    }
    var dir, off := Dir([], []), anchor.value;
    var b: nat := 0;
    while b < MAX_BLOCKS
      invariant b <= MAX_BLOCKS
      invariant Follow(Reader(v, img, pass), 0, anchor.value, Dir([], [])) == Follow(Reader(v, img, pass), b, off, dir)
    {
      var es := ReadOne(v, img, pass, off);
      if es.None? {
        return None;
      }
      var taken := AbsorbInto(es.value, dir);
      if taken.None? {
        return None;
      }
      var (d, next) := taken.value;
      if next.None? {
        return Some((d, anchor.value));
      }
      if |d.overflow| >= MAX_BLOCKS - 1 {
        return None;
      }
      dir := d.(overflow := d.overflow + [next.value]);
      off := next.value;
      b := b + 1;
    }
    r := None;
  }
}
