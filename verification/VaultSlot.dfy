/** A slot of a vault container (src/vault.c): a nonce salt, then a blob of exactly the slot's capacity
    as a framed AEAD stream bound to the slot's coordinates. */
module VaultSlot {
  import opened Bytes
  import opened Common
  import opened Framing

  const SALT: nat := 16

  type Pass = seq<byte>

  /** The key derivations: passphrase, KDF cost, offset, capacity and nonce salt give the frame key;
      passphrase and container size give the 64 bits the anchor offset is reduced from. The cost
      factors, the KDF choice and the optional keyfile are fixed per container and are part of
      the functions. */
  datatype Crypto = Crypto(
    aead: Aead,
    frameKey: (Pass, nat, nat, nat, seq<byte>) -> Key,
    anchorBits: (Pass, nat) -> nat)

  /** vault_slot_len. */
  function SlotLen(capacity: nat): nat
  {
    SALT + SealedLen(capacity)
  }

  /** store_coords. */
  function Coords(offset: nat, capacity: nat): seq<byte>
  {
    LittleEndian(offset, 8) + LittleEndian(capacity, 8)
  }

  /** Where a slot is and under what it is sealed. */
  datatype Place = Place(pass: Pass, cost: nat, offset: nat, capacity: nat)

  function KeyOf(c: Crypto, at: Place, salt: seq<byte>): Key
  {
    c.frameKey(at.pass, at.cost, at.offset, at.capacity, salt)
  }

  /** vault_v2_seal. */
  function SealSlot(c: Crypto, at: Place, salt: seq<byte>, blob: seq<byte>): seq<byte>
  {
    salt + SealFrom(c.aead, KeyOf(c, at, salt), Coords(at.offset, at.capacity), 0, blob)
  }

  /** vault_v2_open. */
  function OpenSlot(c: Crypto, at: Place, slot: seq<byte>): Option<seq<byte>>
    requires |slot| == SlotLen(at.capacity)
  {
    var (blob, status) := OpenFrom(c.aead, KeyOf(c, at, slot[..SALT]), Coords(at.offset, at.capacity), 0, slot[SALT..]);
    if status == Done then Some(blob) else None
  }

  /** A sealed slot has the slot's length and opens to its blob. */
  lemma OpensSealed(c: Crypto, at: Place, salt: seq<byte>, blob: seq<byte>)
    requires Exact(c.aead) && |salt| == SALT && |blob| == at.capacity
    ensures |SealSlot(c, at, salt, blob)| == SlotLen(at.capacity)
    ensures OpenSlot(c, at, SealSlot(c, at, salt, blob)) == Some(blob)
  {
    hide Coords, SealFrom, OpenFrom;
    var key, aad := KeyOf(c, at, salt), Coords(at.offset, at.capacity);
    SealedLength(c.aead, key, aad, 0, blob);
    OpensToStream(c.aead, key, aad, 0, blob);
    var slot := SealSlot(c, at, salt, blob);
    assert slot[..SALT] == salt && slot[SALT..] == SealFrom(c.aead, key, aad, 0, blob);
  }

  /** Nothing else opens: an opened slot is the sealing, at these coordinates and under its own salt,
      of the blob it opens to, and the blob fills the capacity. */
  lemma OnlySealedOpens(c: Crypto, at: Place, slot: seq<byte>)
    requires Exact(c.aead) && |slot| == SlotLen(at.capacity) && OpenSlot(c, at, slot).Some?
    ensures slot == SealSlot(c, at, slot[..SALT], OpenSlot(c, at, slot).value)
    ensures |OpenSlot(c, at, slot).value| == at.capacity
  {
    hide Coords, SealFrom, OpenFrom;
    var key, aad := KeyOf(c, at, slot[..SALT]), Coords(at.offset, at.capacity);
    AcceptsOnlyWritten(c.aead, key, aad, 0, slot[SALT..]);
    SealedLength(c.aead, key, aad, 0, OpenSlot(c, at, slot).value);
    assert slot == slot[..SALT] + slot[SALT..];
  }

  // ---------------------------------------------------------------------------
  // Bytes in the image
  // ---------------------------------------------------------------------------

  /** The image with `b` written at `offset`. */
  function Write(img: seq<byte>, offset: nat, b: seq<byte>): (r: seq<byte>)
    requires offset + |b| <= |img|
    ensures |r| == |img|
  {
    img[..offset] + b + img[offset + |b|..]
  }

  method CopyInto(img: array<byte>, offset: nat, b: seq<byte>)
    requires offset + |b| <= img.Length
    modifies img
    ensures img[..] == Write(old(img[..]), offset, b)
  {
    forall i | 0 <= i < |b| {
      img[offset + i] := b[i];
    }
  }

  lemma WriteMore(img: seq<byte>, offset: nat, a: seq<byte>, b: seq<byte>)
    requires offset + |a| + |b| <= |img|
    ensures Write(Write(img, offset, a), offset + |a|, b) == Write(img, offset, a + b)
  {
  }

  lemma SealNext(a: Aead, key: Key, aad: seq<byte>, ctr: nat, p: seq<byte>)
    requires Exact(a)
    ensures |p| < FRAME ==> SealFrom(a, key, aad, ctr, p) == SealFrame(a, key, aad, ctr, p)
    ensures |p| >= FRAME ==>
      SealFrom(a, key, aad, ctr, p) == SealFrame(a, key, aad, ctr, p[..FRAME]) + SealFrom(a, key, aad, ctr + 1, p[FRAME..])
    ensures |SealFrame(a, key, aad, ctr, p)| == |p| + TAG
  {
    hide Nonce;
  }

  /** The sealing loop: salt, then one frame after the other at the write position. */
  method SealInto(c: Crypto, at: Place, salt: seq<byte>, blob: seq<byte>, img: array<byte>)
    requires Exact(c.aead) && |salt| == SALT && |blob| == at.capacity
    requires at.offset + SlotLen(at.capacity) <= img.Length
    modifies img
    ensures |SealSlot(c, at, salt, blob)| == SlotLen(at.capacity)
    ensures img[..] == Write(old(img[..]), at.offset, SealSlot(c, at, salt, blob))
  {
    hide SealFrom, SealFrame, Nonce, Coords, Write, OpenSlot;
    OpensSealed(c, at, salt, blob);
    var key, aad := KeyOf(c, at, salt), Coords(at.offset, at.capacity);
    ghost var slot := SealSlot(c, at, salt, blob);
    ghost var was := img[..];
    CopyInto(img, at.offset, salt);
    var nframes := at.capacity / FRAME + 1;
    var rem := at.capacity % FRAME;
    var ctr: nat, ptOff: nat, w: nat := 0, 0, SALT;
    while ctr < nframes
      invariant ctr <= nframes && w <= |slot| == SlotLen(at.capacity)
      invariant ctr < nframes ==>
          && ptOff == ctr * FRAME <= |blob|
          && slot == slot[..w] + SealFrom(c.aead, key, aad, ctr, blob[ptOff..])
      invariant ctr == nframes ==> w == |slot|
      invariant img[..] == Write(was, at.offset, slot[..w])
    {
      var last := ctr == nframes - 1;
      var want := if last then rem else FRAME;
      SealNext(c.aead, key, aad, ctr, blob[ptOff..]);
      SealNext(c.aead, key, aad, ctr, blob[ptOff..ptOff + want]);
      FrameAt(c.aead, key, aad, ctr, blob[ptOff..ptOff + want], last);
      var f := c.aead.seal(key, Nonce(ctr, last), Bound(aad, ctr), blob[ptOff..ptOff + want]);
      Halves(blob, ptOff, want);
      FrameSplits(slot, w, f, if last then [] else SealFrom(c.aead, key, aad, ctr + 1, blob[ptOff + want..]),
        SealFrom(c.aead, key, aad, ctr, blob[ptOff..]));
      WriteMore(was, at.offset, slot[..w], f);
      CopyInto(img, at.offset + w, f);
      w := w + |f|;
      ptOff := ptOff + want;
      ctr := ctr + 1;
    }
    assert slot[..w] == slot;
  }

  lemma Halves(blob: seq<byte>, off: nat, n: nat)
    requires off + n <= |blob|
    ensures blob[off..][..n] == blob[off..off + n] && blob[off..][n..] == blob[off + n..]
    ensures off + n == |blob| ==> blob[off..] == blob[off..off + n]
  {
  }

  lemma FrameAt(a: Aead, key: Key, aad: seq<byte>, ctr: nat, p: seq<byte>, last: bool)
    requires last == (|p| < FRAME)
    ensures SealFrame(a, key, aad, ctr, p) == a.seal(key, Nonce(ctr, last), Bound(aad, ctr), p)
  {
  }

  lemma FrameSplits(slot: seq<byte>, w: nat, f: seq<byte>, rest: seq<byte>, tail: seq<byte>)
    requires w <= |slot| && slot == slot[..w] + tail && tail == f + rest
    ensures w + |f| <= |slot| && slot[..w + |f|] == slot[..w] + f && slot == slot[..w + |f|] + rest
  {
  }

  lemma OpenLast(a: Aead, key: Key, aad: seq<byte>, ctr: nat, c: seq<byte>)
    requires TAG <= |c| < FRAME + TAG
    ensures OpenFrom(a, key, aad, ctr, c)
         == match a.open(key, Nonce(ctr, true), Bound(aad, ctr), c)
            case None => ([], Forged)
            case Some(p) => (p, Done)
  {
    hide Nonce;
    assert c[..|c|] == c;
  }

  lemma OpenNext(a: Aead, key: Key, aad: seq<byte>, ctr: nat, c: seq<byte>)
    requires |c| >= FRAME + TAG
    ensures OpenFrom(a, key, aad, ctr, c)
         == match a.open(key, Nonce(ctr, false), Bound(aad, ctr), c[..FRAME + TAG])
            case None => ([], Forged)
            case Some(p) =>
              var (rest, status) := OpenFrom(a, key, aad, ctr + 1, c[FRAME + TAG..]);
              (p + rest, status)
  {
    hide Nonce;
  }

  /** The opening loop, whose frame sizes come from the capacity. */
  method Open(c: Crypto, at: Place, slot: seq<byte>) returns (r: Option<seq<byte>>)
    requires |slot| == SlotLen(at.capacity)
    ensures r == OpenSlot(c, at, slot)
  {
    hide OpenFrom, Nonce, Coords;
    var key, aad := KeyOf(c, at, slot[..SALT]), Coords(at.offset, at.capacity);
    var nframes := at.capacity / FRAME + 1;
    var rem := at.capacity % FRAME;
    var ctr: nat, rd: nat := 0, SALT;
    var out: seq<byte> := [];
    while ctr < nframes
      invariant ctr <= nframes && rd <= |slot|
      invariant ctr < nframes ==>
          && |slot| - rd == SealedLen(at.capacity - ctr * FRAME) && ctr * FRAME <= at.capacity
          && var (all, status) := OpenFrom(c.aead, key, aad, 0, slot[SALT..]);
             var (rest, restStatus) := OpenFrom(c.aead, key, aad, ctr, slot[rd..]);
             all == out + rest && status == restStatus
      invariant ctr == nframes ==> OpenFrom(c.aead, key, aad, 0, slot[SALT..]) == (out, Done)
    {
      var last := ctr == nframes - 1;
      var want := if last then rem else FRAME;
      assert last <==> at.capacity - ctr * FRAME < FRAME;
      var f := slot[rd..rd + want + TAG];
      if last {
        assert f == slot[rd..];
        OpenLast(c.aead, key, aad, ctr, f);
      } else {
        OpenNext(c.aead, key, aad, ctr, slot[rd..]);
        assert slot[rd..][..FRAME + TAG] == f && slot[rd..][FRAME + TAG..] == slot[rd + FRAME + TAG..];
      }
      var p := c.aead.open(key, Nonce(ctr, last), Bound(aad, ctr), f);
      if p.None? {
        return None;
      }
      out := out + p.value;
      rd := rd + want + TAG;
      ctr := ctr + 1;
    }
    r := Some(out);
  }
}
