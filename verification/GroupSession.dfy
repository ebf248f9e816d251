/** The mutable sender and receiver of src/group.c, proved against the functions of module Group, and
    the receiver's packed form at rest. */
module GroupSession {
  import opened Bytes
  import opened Common
  import opened Group

  // ---------------------------------------------------------------------------
  // Distribution messages and the packed receiver
  // ---------------------------------------------------------------------------

  const BASE: nat := KEY_SIZE + 4 + PK_SIZE + 4
  const ENTRY_SIZE: nat := 4 + KEY_SIZE

  /** chain key || u32 index || signature public key */
  function Distribution(s: Sender): seq<byte>
  {
    s.ck + BigEndian(s.index, 4) + s.pk
  }

  function Install(skdm: seq<byte>): (State, seq<byte>)
    requires |skdm| == KEY_SIZE + 4 + PK_SIZE
  {
    (State(skdm[..KEY_SIZE], FromBigEndian(skdm[KEY_SIZE..KEY_SIZE + 4]), []), skdm[KEY_SIZE + 4..])
  }

  /** A receiver installed from a sender's distribution stands at the start of that sender's chain. */
  lemma InstalledAtStart(c: Suite, s: Sender)
    requires |s.ck| == KEY_SIZE && s.index < U32 && |s.pk| == PK_SIZE
    ensures var o := Origin(c, s.ck, s.index);
      && Install(Distribution(s)) == (StateOf(o, {}, o.start), s.pk)
      && Reached(o, {}, o.start)
      && SenderAt(o, s.pk, s.sk, o.start) == s
  {
    hide BigEndian, FromBigEndian;
    ReadsBackU32(s.index);
    var d := Distribution(s);
    assert d[..KEY_SIZE] == s.ck && d[KEY_SIZE..KEY_SIZE + 4] == BigEndian(s.index, 4);
    assert d[KEY_SIZE + 4..] == s.pk;
  }

  function EntryBytes(e: Entry): seq<byte>
  {
    BigEndian(e.index, 4) + e.mk
  }

  function EntriesBytes(es: seq<Entry>): seq<byte>
  {
    if |es| == 0 then [] else EntriesBytes(es[..|es| - 1]) + EntryBytes(es[|es| - 1])
  }

  function Pack(st: State, pk: seq<byte>): seq<byte>
  {
    st.ck + BigEndian(st.index, 4) + pk + BigEndian(|st.stash|, 4) + EntriesBytes(st.stash)
  }

  function EntryFrom(b: seq<byte>): Entry
    requires |b| == ENTRY_SIZE
  {
    Entry(FromBigEndian(b[..4]), b[4..])
  }

  function EntriesFrom(b: seq<byte>, n: nat): (es: seq<Entry>)
    requires |b| == n * ENTRY_SIZE
    ensures |es| == n
  {
    if n == 0 then []
    else EntriesFrom(b[..(n - 1) * ENTRY_SIZE], n - 1) + [EntryFrom(b[(n - 1) * ENTRY_SIZE..])]
  }

  function Unpack(b: seq<byte>): Option<(State, seq<byte>)>
  {
    if |b| < BASE then None
    else
      var n := FromBigEndian(b[BASE - 4..BASE]);
      if n > MAX_SKIP || |b| != BASE + n * ENTRY_SIZE then None
      else
        var st := State(b[..KEY_SIZE], FromBigEndian(b[KEY_SIZE..KEY_SIZE + 4]), EntriesFrom(b[BASE..], n));
        Some((st, b[KEY_SIZE + 4..BASE - 4]))
  }

  ghost predicate SizedEntries(es: seq<Entry>)
  {
    forall k :: 0 <= k < |es| ==> es[k].index < U32 && |es[k].mk| == KEY_SIZE
  }

  ghost predicate Sized(st: State, pk: seq<byte>)
  {
    |st.ck| == KEY_SIZE && st.index < U32 && |pk| == PK_SIZE && SizedEntries(st.stash)
  }

  lemma EntryRoundTrip(e: Entry)
    requires e.index < U32 && |e.mk| == KEY_SIZE
    ensures |EntryBytes(e)| == ENTRY_SIZE && EntryFrom(EntryBytes(e)) == e
  {
    hide BigEndian, FromBigEndian;
    ReadsBackU32(e.index);
    assert EntryBytes(e)[..4] == BigEndian(e.index, 4) && EntryBytes(e)[4..] == e.mk;
  }

  lemma {:induction false} EntriesRoundTrip(es: seq<Entry>)
    requires SizedEntries(es)
    ensures |EntriesBytes(es)| == |es| * ENTRY_SIZE && EntriesFrom(EntriesBytes(es), |es|) == es
  {
    hide EntryBytes, EntryFrom;
    if |es| > 0 {
      var n := |es| - 1;
      EntriesRoundTrip(es[..n]);
      EntryRoundTrip(es[n]);
      var b := EntriesBytes(es);
      assert b[..n * ENTRY_SIZE] == EntriesBytes(es[..n]) && b[n * ENTRY_SIZE..] == EntryBytes(es[n]);
      assert es == es[..n] + [es[n]];
    }
  }

  /** Packing a receiver with at most MAX_SKIP stashed keys and unpacking it gives it back. */
  lemma PackRoundTrip(st: State, pk: seq<byte>)
    requires Sized(st, pk)
    ensures Unpack(Pack(st, pk)) == if |st.stash| <= MAX_SKIP then Some((st, pk)) else None
  {
    hide BigEndian, FromBigEndian, EntriesFrom, EntriesBytes;
    EntriesRoundTrip(st.stash);
    ReadsBackU32(st.index);
    var b := Pack(st, pk);
    var n := |st.stash|;
    assert b[..KEY_SIZE] == st.ck && b[KEY_SIZE..KEY_SIZE + 4] == BigEndian(st.index, 4);
    assert b[KEY_SIZE + 4..BASE - 4] == pk && b[BASE - 4..BASE] == BigEndian(n, 4);
    assert b[BASE..] == EntriesBytes(st.stash);
    if n < U32 {
      ReadsBackU32(n);
    } else {
      WritesBackU32(b[BASE - 4..BASE]);
    }
  }

  lemma {:induction false} EntriesWritten(b: seq<byte>, n: nat)
    requires |b| == n * ENTRY_SIZE
    ensures EntriesBytes(EntriesFrom(b, n)) == b && SizedEntries(EntriesFrom(b, n))
    decreases n
  {
    hide BigEndian, FromBigEndian;
    if n > 0 {
      var (front, last) := (b[..(n - 1) * ENTRY_SIZE], b[(n - 1) * ENTRY_SIZE..]);
      EntriesWritten(front, n - 1);
      WritesBackU32(last[..4]);
      assert last == last[..4] + last[4..] && b == front + last;
      var es := EntriesFrom(b, n);
      assert es[..n - 1] == EntriesFrom(front, n - 1) && es[n - 1] == EntryFrom(last);
    }
  }

  /** Nothing but a packed receiver unpacks. */
  lemma UnpackOnlyPacked(b: seq<byte>)
    requires Unpack(b).Some?
    ensures var (st, pk) := Unpack(b).value;
      Pack(st, pk) == b && Sized(st, pk) && |st.stash| <= MAX_SKIP
  {
    hide BigEndian, FromBigEndian, EntriesFrom, EntriesBytes;
    var n := FromBigEndian(b[BASE - 4..BASE]);
    EntriesWritten(b[BASE..], n);
    WritesBackU32(b[KEY_SIZE..KEY_SIZE + 4]);
    WritesBackU32(b[BASE - 4..BASE]);
    assert b == b[..KEY_SIZE] + b[KEY_SIZE..KEY_SIZE + 4] + b[KEY_SIZE + 4..BASE - 4] + b[BASE - 4..BASE] + b[BASE..];
  }

  // ---------------------------------------------------------------------------
  // The sender
  // ---------------------------------------------------------------------------

  class SenderSession {
    var ck: Key
    var index: nat
    const pk: seq<byte>
    const sk: seq<byte>

    ghost function Value(): Sender
      reads this
    {
      Sender(ck, index, pk, sk)
    }

    constructor (ck0: Key, pk0: seq<byte>, sk0: seq<byte>)
      ensures Value() == Sender(ck0, 0, pk0, sk0)
    {
      ck, index, pk, sk := ck0, 0, pk0, sk0;
    }

    /** group_encrypt: the frame under the current key, then one step of the chain. */
    method EncryptMessage(c: Suite, text: seq<byte>) returns (r: Result<seq<byte>>)
      modifies this
      ensures match Group.Encrypt(c, old(Value()), text)
        case Ok((frame, s)) => r == Ok(frame) && Value() == s
        case Err(e) => r == Err(e) && Value() == old(Value())
    {
      if |text| > MAX_TEXT {
        return Err(ErrInput);
      }
      var mk := c.messageKey(ck);
      var idx := BigEndian(index, 4);
      var ct := c.seal(mk, index, text);
      var sig := c.sign(sk, idx + ct);
      r := Ok(idx + BigEndian(|sig|, 2) + sig + ct);
      index := (index + 1) % U32;
      ck := c.nextKey(ck);
    }
  }

  // ---------------------------------------------------------------------------
  // The receiver
  // ---------------------------------------------------------------------------

  class ReceiverSession {
    var ck: Key
    var index: nat
    var pk: seq<byte>
    const skipped: array<Entry>
    var nSkipped: nat

    ghost predicate Valid()
      reads this
    {
      skipped.Length == MAX_SKIP && nSkipped <= MAX_SKIP
    }

    ghost function Value(): State
      requires Valid()
      reads this, skipped
    {
      State(ck, index, skipped[..nSkipped])
    }

    /** group_receiver_init. */
    constructor (skdm: seq<byte>)
      requires |skdm| == KEY_SIZE + 4 + PK_SIZE
      ensures Valid() && (Value(), pk) == Install(skdm) && fresh(skipped)
    {
      ck := skdm[..KEY_SIZE];
      index := FromBigEndian(skdm[KEY_SIZE..KEY_SIZE + 4]);
      pk := skdm[KEY_SIZE + 4..];
      skipped := new Entry[MAX_SKIP](_ => Entry(0, []));
      nSkipped := 0;
    }

    /** The working copy. */
    constructor Copy(src: ReceiverSession)
      requires src.Valid()
      ensures Valid() && Value() == src.Value() && pk == src.pk && fresh(skipped)
    {
      ck, index, pk, nSkipped := src.ck, src.index, src.pk, src.nSkipped;
      skipped := new Entry[MAX_SKIP](i requires 0 <= i < MAX_SKIP && src.skipped.Length == MAX_SKIP reads src.skipped => src.skipped[i]);
    }

    /** Commits a working copy. */
    method Commit(src: ReceiverSession)
      requires Valid() && src.Valid() && src != this && src.skipped != skipped
      modifies this, skipped
      ensures Valid() && Value() == src.Value() && pk == src.pk
    {
      forall i | 0 <= i < MAX_SKIP {
        skipped[i] := src.skipped[i];
      }
      ck, index, pk, nSkipped := src.ck, src.index, src.pk, src.nSkipped;
    }

    method SkippedFind(i: nat) returns (k: Option<nat>)
      requires Valid()
      ensures k == Find(Value().stash, i)
    {
      hide Find;
      var n: nat := 0;
      while n < nSkipped
        invariant n <= nSkipped && forall j :: 0 <= j < n ==> skipped[j].index != i
      {
        if skipped[n].index == i {
          return Some(n);
        }
        n := n + 1;
      }
      k := None;
    }

    /** Closes the gap left by entry i. */
    method SkippedRemove(i: nat)
      requires Valid() && i < nSkipped
      modifies this`nSkipped, skipped
      ensures Valid() && Value() == old(Value()).(stash := RemoveAt(old(Value()).stash, i))
    {
      hide RemoveAt;
      ghost var es := skipped[..nSkipped];
      var k := i;
      while k + 1 < nSkipped
        invariant i <= k < nSkipped == |es| <= skipped.Length
        invariant forall j :: 0 <= j < i ==> skipped[j] == es[j]
        invariant forall j :: i <= j < k ==> skipped[j] == es[j + 1]
        invariant forall j :: k <= j < |es| ==> skipped[j] == es[j]
      {
        skipped[k] := skipped[k + 1];
        k := k + 1;
      }
      nSkipped := nSkipped - 1;
      RemoveAtIs(skipped[..nSkipped], es, i);
    }

    /** The skipping loop. */
    method SkipTo(c: Suite, until: nat)
      requires Valid() && index <= until && nSkipped + (until - index) <= MAX_SKIP
      modifies this`ck, this`index, this`nSkipped, skipped
      ensures Valid() && Value() == Skip(c, old(Value()), until - old(index))
    {
      ghost var st := Value();
      while index < until
        invariant st.index <= index <= until && nSkipped == |st.stash| + (index - st.index) && Valid()
        invariant Value() == Skip(c, st, index - st.index)
      {
        var mks := c.messageKey(ck);
        ghost var before := skipped[..nSkipped];
        skipped[nSkipped] := Entry(index, mks);
        nSkipped := nSkipped + 1;
        index := index + 1;
        ck := c.nextKey(ck);
        assert skipped[..nSkipped] == before + [Entry(index - 1, mks)];
      }
    }

    /** Finds the message key and, on a working copy, the state to commit. */
    method LocateKey(c: Suite, i: nat) returns (r: Result<Key>)
      requires Valid()
      modifies this`ck, this`index, this`nSkipped, skipped
      ensures Valid()
      ensures match Locate(c, old(Value()), i)
        case Ok((mk, st)) => r == Ok(mk) && Value() == st
        case Err(e) => r == Err(e) && Value() == old(Value())
    {
      hide Skip;
      if i < index {
        var hit := SkippedFind(i);
        if hit.None? {
          return Err(ErrIntegrity);
        }
        r := Ok(skipped[hit.value].mk);
        SkippedRemove(hit.value);
      } else {
        if i - index > MAX_SKIP || nSkipped + (i - index) > MAX_SKIP {
          return Err(ErrInput);
        }
        SkipTo(c, i);
        r := Ok(c.messageKey(ck));
        ck := c.nextKey(ck);
        index := (i + 1) % U32;
      }
    }

    /** group_decrypt: on a working copy, committed only after the frame opened. */
    method DecryptMessage(c: Suite, input: seq<byte>) returns (r: Result<seq<byte>>)
      requires Valid()
      modifies this, skipped
      ensures Valid() && pk == old(pk)
      ensures (r, Value()) == Group.Decrypt(c, old(pk), old(Value()), input)
    {
      hide Locate, Parse, Signed;
      var parsed := Parse(input);
      if parsed.None? {
        return Err(ErrInput);
      }
      var f := parsed.value;
      if !c.verify(pk, Signed(f), f.sig) {
        return Err(ErrIntegrity);
      }
      var w := new ReceiverSession.Copy(this);
      var found := w.LocateKey(c, f.index);
      if found.Err? {
        return Err(found.error);
      }
      var text := c.open(found.value, f.index, f.ct);
      if text.None? {
        return Err(ErrIntegrity);
      }
      Commit(w);
      r := Ok(text.value);
    }

    /** The packing loop of group_receiver_serialize. */
    method Serialize() returns (b: seq<byte>)
      requires Valid()
      ensures b == Pack(Value(), pk)
    {
      hide EntryBytes, BigEndian;
      b := ck + BigEndian(index, 4) + pk + BigEndian(nSkipped, 4);
      ghost var base := b;
      var i: nat := 0;
      while i < nSkipped
        invariant i <= nSkipped && b == base + EntriesBytes(skipped[..i])
      {
        assert skipped[..i + 1][..i] == skipped[..i];
        b := b + EntryBytes(skipped[i]);
        i := i + 1;
      }
    }

    /** group_receiver_deserialize; a blob too short for the fixed part leaves the receiver alone, one
        with a wrong count leaves one with the blob's chain key, index and signing key and no stash. */
    method Deserialize(b: seq<byte>) returns (ok: bool)
      requires Valid()
      modifies this, skipped
      ensures Valid() && (ok <==> Unpack(b).Some?)
      ensures ok ==> (Value(), pk) == Unpack(b).value
      ensures |b| < BASE ==> Value() == old(Value()) && pk == old(pk)
      ensures !ok && |b| >= BASE ==>
        Value() == State(b[..KEY_SIZE], FromBigEndian(b[KEY_SIZE..KEY_SIZE + 4]), []) && pk == b[KEY_SIZE + 4..BASE - 4]
    {
      if |b| < BASE {
        return false;
      }
      nSkipped := 0;
      ck := b[..KEY_SIZE];
      index := FromBigEndian(b[KEY_SIZE..KEY_SIZE + 4]);
      pk := b[KEY_SIZE + 4..BASE - 4];
      var n := FromBigEndian(b[BASE - 4..BASE]);
      if n > MAX_SKIP || |b| != BASE + n * ENTRY_SIZE {
        return false;
      }
      LoadEntries(b[BASE..], n);
      nSkipped := n;
      ok := true;
    }

    method LoadEntries(b: seq<byte>, n: nat)
      requires skipped.Length == MAX_SKIP && n <= MAX_SKIP && |b| == n * ENTRY_SIZE
      modifies skipped
      ensures skipped[..n] == EntriesFrom(b, n)
    {
      hide EntryFrom;
      var i: nat := 0;
      assert b[..0] == [];
      while i < n
        invariant i <= n && skipped[..i] == EntriesFrom(b[..i * ENTRY_SIZE], i)
      {
        var e := b[i * ENTRY_SIZE..(i + 1) * ENTRY_SIZE];
        ghost var upTo := b[..(i + 1) * ENTRY_SIZE];
        assert upTo[..i * ENTRY_SIZE] == b[..i * ENTRY_SIZE] && upTo[i * ENTRY_SIZE..] == e;
        skipped[i] := EntryFrom(e);
        i := i + 1;
        assert skipped[..i] == skipped[..i - 1] + [skipped[i - 1]];
      }
      assert b[..n * ENTRY_SIZE] == b;
    }
  }
}
