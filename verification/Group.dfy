/** The sender-key group ratchet of src/group.c as functions: one sender's chain of message keys and a
    receiver that opens frames in any order, keeping the keys of skipped messages. The key
    derivation, AEAD and signature are parameters with only the laws stated in Lawful. */
module Group {
  import opened Bytes
  import opened Common

  const MAX_SKIP: nat := 1000
  const KEY_SIZE: nat := 32
  const TAG_SIZE: nat := 16
  const SIG_MAX: nat := 4627
  const PK_SIZE: nat := 2592
  const MAX_TEXT: nat := 0x7fff_ffff

  type Key = seq<byte>

  /** The nonce and the associated data of a frame are both its index. */
  datatype Suite = Suite(
    nextKey: Key -> Key,
    messageKey: Key -> Key,
    seal: (Key, nat, seq<byte>) -> seq<byte>,
    open: (Key, nat, seq<byte>) -> Option<seq<byte>>,
    sign: (seq<byte>, seq<byte>) -> seq<byte>,
    verify: (seq<byte>, seq<byte>, seq<byte>) -> bool)

  ghost predicate Lawful(c: Suite)
  {
    && (forall k, i, p :: |c.seal(k, i, p)| == |p| + TAG_SIZE && c.open(k, i, c.seal(k, i, p)) == Some(p))
    && (forall sk, m :: |c.sign(sk, m)| <= SIG_MAX)
  }

  ghost predicate KeyPair(c: Suite, pk: seq<byte>, sk: seq<byte>)
  {
    forall m :: c.verify(pk, m, c.sign(sk, m))
  }

  datatype Error = ErrInput | ErrIntegrity
  datatype Result<T> = Ok(value: T) | Err(error: Error)

  datatype Entry = Entry(index: nat, mk: Key)

  /** A receiving chain; the stash is the used part of the skipped array. */
  datatype State = State(ck: Key, index: nat, stash: seq<Entry>)

  // ---------------------------------------------------------------------------
  // Frames
  // ---------------------------------------------------------------------------

  datatype Frame = Frame(index: nat, sig: seq<byte>, ct: seq<byte>)

  predicate FitsWire(f: Frame)
  {
    f.index < U32 && |f.sig| <= SIG_MAX && |f.ct| >= TAG_SIZE
  }

  /** index(4) | u16 siglen | sig | ct+tag */
  function Wire(f: Frame): seq<byte>
  {
    BigEndian(f.index, 4) + BigEndian(|f.sig|, 2) + f.sig + f.ct
  }

  function Parse(input: seq<byte>): Option<Frame>
  {
    if |input| < 6 then None
    else
      var siglen := FromBigEndian(input[4..6]);
      if siglen > SIG_MAX || |input| < 6 + siglen + TAG_SIZE then None
      else Some(Frame(FromBigEndian(input[..4]), input[6..6 + siglen], input[6 + siglen..]))
  }

  lemma FrameRoundTrip(f: Frame)
    requires FitsWire(f)
    ensures Parse(Wire(f)) == Some(f)
  {
    hide BigEndian, FromBigEndian;
    ReadsBackU32(f.index);
    ReadsBackU16(|f.sig|);
    var w := Wire(f);
    assert w[..4] == BigEndian(f.index, 4) && w[4..6] == BigEndian(|f.sig|, 2);
    assert w[6..6 + |f.sig|] == f.sig && w[6 + |f.sig|..] == f.ct;
  }

  /** Only the wire form of the frame that is returned parses, and only if it fits. */
  lemma ParsesOnlyWire(input: seq<byte>)
    requires Parse(input).Some?
    ensures FitsWire(Parse(input).value) && Wire(Parse(input).value) == input
  {
    hide BigEndian, FromBigEndian;
    WritesBackU32(input[..4]);
    WritesBackU16(input[4..6]);
    var n := FromBigEndian(input[4..6]);
    assert input == input[..4] + input[4..6] + input[6..6 + n] + input[6 + n..];
  }

  /** What the signature covers. */
  function Signed(f: Frame): seq<byte>
  {
    BigEndian(f.index, 4) + f.ct
  }

  // ---------------------------------------------------------------------------
  // Sending
  // ---------------------------------------------------------------------------

  /** A sender's key and position; the index wraps like the C counter. */
  datatype Sender = Sender(ck: Key, index: nat, pk: seq<byte>, sk: seq<byte>)

  function FrameOf(c: Suite, s: Sender, text: seq<byte>): Frame
  {
    var ct := c.seal(c.messageKey(s.ck), s.index, text);
    Frame(s.index, c.sign(s.sk, BigEndian(s.index, 4) + ct), ct)
  }

  /** group_encrypt. */
  function Encrypt(c: Suite, s: Sender, text: seq<byte>): Result<(seq<byte>, Sender)>
  {
    if |text| > MAX_TEXT then Err(ErrInput)
    else Ok((Wire(FrameOf(c, s, text)), s.(ck := c.nextKey(s.ck), index := (s.index + 1) % U32)))
  }

  // ---------------------------------------------------------------------------
  // Receiving
  // ---------------------------------------------------------------------------

  /** The first entry with the index. */
  function Find(stash: seq<Entry>, index: nat): (i: Option<nat>)
    ensures i.Some? ==> i.value < |stash| && stash[i.value].index == index
    ensures i.Some? ==> forall k :: 0 <= k < i.value ==> stash[k].index != index
    ensures i.None? ==> forall k :: 0 <= k < |stash| ==> stash[k].index != index
  {
    if |stash| == 0 then None
    else match Find(stash[..|stash| - 1], index)
      case Some(k) => Some(k)
      case None => if stash[|stash| - 1].index == index then Some(|stash| - 1) else None
  }

  /** One turn of the skipping loop. */
  function SkipOne(c: Suite, st: State): State
  {
    State(c.nextKey(st.ck), st.index + 1, st.stash + [Entry(st.index, c.messageKey(st.ck))])
  }

  function Skip(c: Suite, st: State, n: nat): State
  {
    if n == 0 then st else SkipOne(c, Skip(c, st, n - 1))
  }

  /** The message key for an index and the state to commit if it opens. */
  function Locate(c: Suite, st: State, index: nat): Result<(Key, State)>
  {
    if index < st.index then
      match Find(st.stash, index)
      case None => Err(ErrIntegrity)
      case Some(i) => Ok((st.stash[i].mk, st.(stash := RemoveAt(st.stash, i))))
    else if index - st.index > MAX_SKIP || |st.stash| + (index - st.index) > MAX_SKIP then Err(ErrInput)
    else
      var w := Skip(c, st, index - st.index);
      Ok((c.messageKey(w.ck), w.(ck := c.nextKey(w.ck), index := (index + 1) % U32)))
  }

  /** group_decrypt: the answer and the state afterwards. */
  function Decrypt(c: Suite, pk: seq<byte>, st: State, input: seq<byte>): (Result<seq<byte>>, State)
  {
    match Parse(input)
    case None => (Err(ErrInput), st)
    case Some(f) =>
      if !c.verify(pk, Signed(f), f.sig) then (Err(ErrIntegrity), st)
      else match Locate(c, st, f.index)
        case Err(e) => (Err(e), st)
        case Ok(found) =>
          match c.open(found.0, f.index, f.ct)
          case None => (Err(ErrIntegrity), st)
          case Some(text) => (Ok(text), found.1)
  }

  // ---------------------------------------------------------------------------
  // What a receiver's state is: a function of the indices consumed so far
  // ---------------------------------------------------------------------------

  /** The chain a receiver was installed with. */
  datatype Origin = Origin(c: Suite, ck: Key, start: nat)

  function Chain(c: Suite, ck: Key, n: nat): Key
  {
    if n == 0 then ck else c.nextKey(Chain(c, ck, n - 1))
  }

  /** The message key of index i. */
  function KeyAt(o: Origin, i: nat): Key
    requires o.start <= i
  {
    o.c.messageKey(Chain(o.c, o.ck, i - o.start))
  }

  /** The keys of the indices below n that were not consumed, in ascending order. */
  function StashOf(o: Origin, consumed: set<nat>, n: nat): seq<Entry>
  {
    if n <= o.start then []
    else StashOf(o, consumed, n - 1) + (if n - 1 in consumed then [] else [Entry(n - 1, KeyAt(o, n - 1))])
  }

  function StateOf(o: Origin, consumed: set<nat>, next: nat): State
    requires o.start <= next
  {
    State(Chain(o.c, o.ck, next - o.start), next, StashOf(o, consumed, next))
  }

  /** The state once `next` indices are behind: the 32-bit index has wrapped when next is 2^32. */
  function Landed(o: Origin, consumed: set<nat>, next: nat): State
    requires o.start <= next
  {
    StateOf(o, consumed, next).(index := next % U32)
  }

  /** The states a receiver can be in: `next` follows the largest consumed index, and the stash is
      within its bound. */
  ghost predicate Reached(o: Origin, consumed: set<nat>, next: nat)
  {
    && o.start <= next < U32
    && (forall i :: i in consumed ==> o.start <= i < next)
    && (next > o.start ==> next - 1 in consumed)
    && next - o.start <= |consumed| + MAX_SKIP
  }

  /** The frames a receiver opens: unconsumed, and not more than the skip bound ahead. */
  predicate Acceptable(o: Origin, consumed: set<nat>, i: nat)
  {
    i >= o.start && i !in consumed && i <= o.start + |consumed| + MAX_SKIP
  }

  lemma {:induction false} StashEntries(o: Origin, consumed: set<nat>, n: nat)
    ensures forall k :: 0 <= k < |StashOf(o, consumed, n)| ==>
      var e := StashOf(o, consumed, n)[k];
      o.start <= e.index < n && e.index !in consumed && e.mk == KeyAt(o, e.index)
    decreases n
  {
    hide KeyAt;
    if n > o.start {
      StashEntries(o, consumed, n - 1);
    }
  }

  lemma {:induction false} StashPrefix(o: Origin, consumed: set<nat>, i: nat, n: nat)
    requires i <= n
    ensures StashOf(o, consumed, i) <= StashOf(o, consumed, n)
    decreases n
  {
    hide KeyAt;
    if i < n && n > o.start {
      StashPrefix(o, consumed, i, n - 1);
    }
  }

  lemma {:induction false} StashAgrees(o: Origin, a: set<nat>, b: set<nat>, n: nat)
    requires forall i: nat :: i < n ==> (i in a <==> i in b)
    ensures StashOf(o, a, n) == StashOf(o, b, n)
    decreases n
  {
    hide KeyAt;
    if n > o.start {
      StashAgrees(o, a, b, n - 1);
    }
  }

  /** Where the entry of a missing index is. */
  lemma StashFinds(o: Origin, consumed: set<nat>, n: nat, i: nat)
    requires i < n
    ensures var stash := StashOf(o, consumed, n); var p := |StashOf(o, consumed, i)|;
      if i >= o.start && i !in consumed
      then p < |stash| && Find(stash, i) == Some(p) && stash[p].mk == KeyAt(o, i)
      else Find(stash, i) == None
  {
    hide Find, KeyAt, StashOf;
    var stash := StashOf(o, consumed, n);
    StashEntries(o, consumed, n);
    StashEntries(o, consumed, i);
    if i >= o.start && i !in consumed {
      StashPrefix(o, consumed, i + 1, n);
      StashPrefix(o, consumed, i, i + 1);
      StashNext(o, consumed, i);
      var p := |StashOf(o, consumed, i)|;
      assert stash[p] == Entry(i, KeyAt(o, i));
      assert forall k :: 0 <= k < p ==> stash[k] == StashOf(o, consumed, i)[k];
    }
  }

  lemma StashNext(o: Origin, consumed: set<nat>, i: nat)
    requires i >= o.start
    ensures StashOf(o, consumed, i + 1)
      == StashOf(o, consumed, i) + if i in consumed then [] else [Entry(i, KeyAt(o, i))]
  {
    hide KeyAt;
  }

  /** Taking the entry of i out of the stash is consuming i. */
  lemma {:induction false} StashRemoves(o: Origin, consumed: set<nat>, n: nat, i: nat)
    requires o.start <= i < n && i !in consumed
    ensures |StashOf(o, consumed, i)| < |StashOf(o, consumed, n)|
    ensures RemoveAt(StashOf(o, consumed, n), |StashOf(o, consumed, i)|) == StashOf(o, consumed + {i}, n)
    decreases n
  {
    hide KeyAt, StashOf;
    var p := |StashOf(o, consumed, i)|;
    StashNext(o, consumed, n - 1);
    StashNext(o, consumed + {i}, n - 1);
    if n == i + 1 {
      StashAgrees(o, consumed, consumed + {i}, i);
    } else {
      StashRemoves(o, consumed, n - 1, i);
      var s := StashOf(o, consumed, n - 1);
      var t := if n - 1 in consumed then [] else [Entry(n - 1, KeyAt(o, n - 1))];
      assert (s + t)[..p] == s[..p] && (s + t)[p + 1..] == s[p + 1..] + t;
    }
  }

  ghost function Below(s: set<nat>, n: nat): set<nat>
  {
    set i | i in s && i < n
  }

  /** Every index from the start on is either consumed or stashed. */
  lemma {:induction false} StashSize(o: Origin, consumed: set<nat>, n: nat)
    requires n >= o.start && forall i :: i in consumed ==> i >= o.start
    ensures |StashOf(o, consumed, n)| + |Below(consumed, n)| == n - o.start
    decreases n
  {
    hide KeyAt;
    if n == o.start {
      assert Below(consumed, n) == {};
    } else {
      StashSize(o, consumed, n - 1);
      if n - 1 in consumed {
        assert Below(consumed, n) == Below(consumed, n - 1) + {n - 1};
      } else {
        assert Below(consumed, n) == Below(consumed, n - 1);
      }
    }
  }

  lemma ReachedSize(o: Origin, consumed: set<nat>, next: nat)
    requires Reached(o, consumed, next)
    ensures |StashOf(o, consumed, next)| + |consumed| == next - o.start
    ensures |StashOf(o, consumed, next)| <= MAX_SKIP
  {
    StashSize(o, consumed, next);
    assert Below(consumed, next) == consumed;
  }

  /** Skipping m messages stashes their keys. */
  lemma {:induction false} SkipReaches(o: Origin, consumed: set<nat>, next: nat, m: nat)
    requires o.start <= next && forall i :: i in consumed ==> i < next
    ensures Skip(o.c, StateOf(o, consumed, next), m) == StateOf(o, consumed, next + m)
  {
    hide StashOf;
    if m > 0 {
      SkipReaches(o, consumed, next, m - 1);
      StashNext(o, consumed, next + m - 1);
    }
  }

  /** Locating a key succeeds exactly for the acceptable indices, yields the index's own key, and
      leaves the state that has consumed it; only after the last index is that not a reached state. */
  lemma LocateExact(o: Origin, consumed: set<nat>, next: nat, i: nat)
    requires Reached(o, consumed, next) && i < U32
    ensures Locate(o.c, StateOf(o, consumed, next), i).Ok? <==> Acceptable(o, consumed, i)
    ensures Acceptable(o, consumed, i) ==>
      && Locate(o.c, StateOf(o, consumed, next), i)
         == Ok((KeyAt(o, i), Landed(o, consumed + {i}, Max(next, i + 1))))
      && (i < U32 - 1 ==> Reached(o, consumed + {i}, Max(next, i + 1)))
  {
    hide Find, StashOf, Skip;
    ReachedSize(o, consumed, next);
    if i < next {
      StashFinds(o, consumed, next, i);
      if i >= o.start && i !in consumed {
        StashRemoves(o, consumed, next, i);
      }
    } else {
      SkipReaches(o, consumed, next, i - next);
      StashNext(o, consumed + {i}, i);
      StashAgrees(o, consumed, consumed + {i}, i);
      assert next + (i - next) == i;
      assert Chain(o.c, o.ck, i + 1 - o.start) == o.c.nextKey(Chain(o.c, o.ck, i - o.start));
      assert StashOf(o, consumed + {i}, i + 1) == StashOf(o, consumed, i);
    }
  }

  // ---------------------------------------------------------------------------
  // One frame
  // ---------------------------------------------------------------------------

  lemma ParsedIndex(input: seq<byte>)
    requires Parse(input).Some?
    ensures Parse(input).value.index < U32
  {
    WritesBackU32(input[..4]);
  }

  /** Before the wrap, landing is standing at the next index. */
  lemma LandedIs(o: Origin, consumed: set<nat>, next: nat)
    requires o.start <= next <= U32
    ensures Landed(o, consumed, next) == StateOf(o, consumed, next) <==> next < U32
    ensures next == U32 ==> Landed(o, consumed, next).index == 0
  {
  }

  /** The whole answer of a receiver that has consumed some indices, whatever the bytes are. A frame that
      does not parse, is not signed by the sender over its own index and ciphertext, names an index that was
      consumed or is too far ahead, or does not open under that index's own key is refused with its own
      error and changes nothing; every other one opens and consumes its index and nothing else. */
  lemma Decide(o: Origin, pk: seq<byte>, consumed: set<nat>, next: nat, input: seq<byte>)
    requires Reached(o, consumed, next)
    ensures var was := StateOf(o, consumed, next);
      Decrypt(o.c, pk, was, input) ==
        match Parse(input)
        case None => (Err(ErrInput), was)
        case Some(f) =>
          if !o.c.verify(pk, BigEndian(f.index, 4) + f.ct, f.sig) then (Err(ErrIntegrity), was)
          else if !Acceptable(o, consumed, f.index) then (Err(if f.index < next then ErrIntegrity else ErrInput), was)
          else match o.c.open(KeyAt(o, f.index), f.index, f.ct)
            case None => (Err(ErrIntegrity), was)
            case Some(text) => (Ok(text), Landed(o, consumed + {f.index}, Max(next, f.index + 1)))
    ensures Parse(input).Some? ==>
      var i := Parse(input).value.index;
      i < U32 && (Acceptable(o, consumed, i) && i < U32 - 1 ==> Reached(o, consumed + {i}, Max(next, i + 1)))
  {
    hide Parse, Locate, StateOf, Landed, Reached, Acceptable, BigEndian;
    if Parse(input).Some? {
      var i := Parse(input).value.index;
      ParsedIndex(input);
      LocateExact(o, consumed, next, i);
      if !Acceptable(o, consumed, i) {
        RefusalKind(o, consumed, next, i);
      }
    }
  }

  /** The sender when its counter stands at i. */
  function SenderAt(o: Origin, pk: seq<byte>, sk: seq<byte>, i: nat): Sender
    requires o.start <= i
  {
    Sender(Chain(o.c, o.ck, i - o.start), i, pk, sk)
  }

  function Genuine(o: Origin, pk: seq<byte>, sk: seq<byte>, i: nat, text: seq<byte>): seq<byte>
    requires o.start <= i
  {
    Wire(FrameOf(o.c, SenderAt(o, pk, sk, i), text))
  }

  /** Sending produces the genuine frame of the current index and moves to the next, wrapping; a text whose
      length is no int is refused. */
  lemma EncryptAdvances(o: Origin, pk: seq<byte>, sk: seq<byte>, i: nat, text: seq<byte>)
    requires o.start <= i < U32
    ensures Encrypt(o.c, SenderAt(o, pk, sk, i), text)
         == if |text| > 0x7fff_ffff then Err(ErrInput)
            else Ok((Genuine(o, pk, sk, i, text), SenderAt(o, pk, sk, i + 1).(index := (i + 1) % U32)))
  {
    hide FrameOf, Wire;
    assert Chain(o.c, o.ck, i + 1 - o.start) == o.c.nextKey(Chain(o.c, o.ck, i - o.start));
  }

  lemma GenuineParses(o: Origin, pk: seq<byte>, sk: seq<byte>, i: nat, text: seq<byte>)
    requires o.start <= i < U32 && Lawful(o.c) && KeyPair(o.c, pk, sk)
    ensures var f := FrameOf(o.c, SenderAt(o, pk, sk, i), text);
      && Parse(Genuine(o, pk, sk, i, text)) == Some(f)
      && f.index == i
      && o.c.verify(pk, Signed(f), f.sig)
      && o.c.open(KeyAt(o, i), i, f.ct) == Some(text)
  {
    hide Parse, Wire, BigEndian;
    FrameRoundTrip(FrameOf(o.c, SenderAt(o, pk, sk, i), text));
  }

  /** A genuine frame opens to the text that was sealed exactly when its index is unconsumed and not
      more than the skip bound ahead of what was consumed; otherwise the error says which. */
  lemma GenuineOpensIff(o: Origin, pk: seq<byte>, sk: seq<byte>, consumed: set<nat>, next: nat, i: nat, text: seq<byte>)
    requires Reached(o, consumed, next) && Lawful(o.c) && KeyPair(o.c, pk, sk)
    requires o.start <= i < U32
    ensures Decrypt(o.c, pk, StateOf(o, consumed, next), Genuine(o, pk, sk, i, text))
      == if Acceptable(o, consumed, i) then (Ok(text), Landed(o, consumed + {i}, Max(next, i + 1)))
         else (Err(if i < next then ErrIntegrity else ErrInput), StateOf(o, consumed, next))
  {
    hide Parse, StateOf, Landed, Reached, Acceptable, Signed, Genuine, Lawful, KeyPair, FrameOf, Locate;
    GenuineParses(o, pk, sk, i, text);
    LocateExact(o, consumed, next, i);
    if !Acceptable(o, consumed, i) {
      RefusalKind(o, consumed, next, i);
    }
  }

  lemma RefusalKind(o: Origin, consumed: set<nat>, next: nat, i: nat)
    requires Reached(o, consumed, next) && Locate(o.c, StateOf(o, consumed, next), i).Err?
    ensures Locate(o.c, StateOf(o, consumed, next), i) == Err(if i < next then ErrIntegrity else ErrInput)
  {
    hide Find, Skip, StashOf;
  }

  /** An acceptable genuine frame opens, and leaves the receiver past its index, exactly when that is
      not the last 32-bit index. */
  lemma WrapsIff(o: Origin, pk: seq<byte>, sk: seq<byte>, consumed: set<nat>, next: nat, i: nat, text: seq<byte>)
    requires Reached(o, consumed, next) && Lawful(o.c) && KeyPair(o.c, pk, sk)
    requires i < U32 && Acceptable(o, consumed, i)
    ensures var (r, st) := Decrypt(o.c, pk, StateOf(o, consumed, next), Genuine(o, pk, sk, i, text));
      && r == Ok(text)
      && (st == StateOf(o, consumed + {i}, Max(next, i + 1)) <==> i < U32 - 1)
      && (i == U32 - 1 ==> st.index == 0)
  {
    hide Decrypt, StateOf, Landed, Lawful, KeyPair, Genuine;
    GenuineOpensIff(o, pk, sk, consumed, next, i, text);
    LandedIs(o, consumed + {i}, Max(next, i + 1));
  }

  /** A genuine frame further than the skip bound from a receiver that wrapped is refused. */
  lemma RefusedAfterWrap(o: Origin, pk: seq<byte>, sk: seq<byte>, st: State, j: nat, text: seq<byte>)
    requires Lawful(o.c) && KeyPair(o.c, pk, sk) && st.index == 0 && o.start <= j < U32 && MAX_SKIP < j
    ensures Decrypt(o.c, pk, st, Genuine(o, pk, sk, j, text)) == (Err(ErrInput), st)
  {
    hide Parse, Genuine, Lawful, KeyPair, FrameOf, Signed, Skip, Find;
    GenuineParses(o, pk, sk, j, text);
  }

  /** The last index strands the stash: once its frame opened, every unconsumed index beyond the skip
      bound still has its true key in the stash, and its genuine frame is refused all the same. */
  lemma WrapStrandsStash(o: Origin, pk: seq<byte>, sk: seq<byte>, consumed: set<nat>, next: nat, text: seq<byte>,
      j: nat, other: seq<byte>)
    requires Reached(o, consumed, next) && Lawful(o.c) && KeyPair(o.c, pk, sk) && Acceptable(o, consumed, U32 - 1)
    requires o.start <= j < U32 - 1 && j !in consumed && MAX_SKIP < j
    ensures var (r, st) := Decrypt(o.c, pk, StateOf(o, consumed, next), Genuine(o, pk, sk, U32 - 1, text));
      && r == Ok(text)
      && Find(st.stash, j).Some? && st.stash[Find(st.stash, j).value].mk == KeyAt(o, j)
      && Decrypt(o.c, pk, st, Genuine(o, pk, sk, j, other)) == (Err(ErrInput), st)
  {
    hide Decrypt, StashOf, Lawful, KeyPair, Genuine, Find;
    GenuineOpensIff(o, pk, sk, consumed, next, U32 - 1, text);
    var st := Landed(o, consumed + {U32 - 1}, U32);
    assert Max(next, U32) == U32;
    StashFinds(o, consumed + {U32 - 1}, U32, j);
    RefusedAfterWrap(o, pk, sk, st, j, other);
  }

  /** Two frames, the last two indices of a chain: in order both open, in the other order the second
      is refused although nothing was lost, forged or too far ahead. */
  lemma LastTwoFrames(o: Origin, pk: seq<byte>, sk: seq<byte>, text: seq<byte>, other: seq<byte>)
    requires Lawful(o.c) && KeyPair(o.c, pk, sk) && o.start == U32 - 2
    ensures var st := Decrypt(o.c, pk, StateOf(o, {}, U32 - 2), Genuine(o, pk, sk, U32 - 2, other));
      st.0 == Ok(other) && Decrypt(o.c, pk, st.1, Genuine(o, pk, sk, U32 - 1, text)).0 == Ok(text)
    ensures var st := Decrypt(o.c, pk, StateOf(o, {}, U32 - 2), Genuine(o, pk, sk, U32 - 1, text));
      st.0 == Ok(text) && Decrypt(o.c, pk, st.1, Genuine(o, pk, sk, U32 - 2, other)).0 == Err(ErrInput)
  {
    hide Decrypt, StateOf, Lawful, KeyPair, Genuine, Find;
    WrapsIff(o, pk, sk, {}, U32 - 2, U32 - 2, other);
    WrapsIff(o, pk, sk, {} + {U32 - 2}, U32 - 1, U32 - 1, text);
    WrapStrandsStash(o, pk, sk, {}, U32 - 2, text, U32 - 2, other);
  }

  // ---------------------------------------------------------------------------
  // Whole runs
  // ---------------------------------------------------------------------------

  /** The answers to a sequence of inputs, genuine or not, and the state after them. */
  function Run(c: Suite, pk: seq<byte>, st: State, inputs: seq<seq<byte>>): (r: (seq<Result<seq<byte>>>, State))
    ensures |r.0| == |inputs|
  {
    if |inputs| == 0 then ([], st)
    else
      var (answers, s) := Run(c, pk, st, inputs[..|inputs| - 1]);
      var (r, s') := Decrypt(c, pk, s, inputs[|inputs| - 1]);
      (answers + [r], s')
  }

  function IndexOf(input: seq<byte>): nat
  {
    if Parse(input).Some? then Parse(input).value.index else 0
  }

  /** The indices opened during a run. */
  function Opened(inputs: seq<seq<byte>>, answers: seq<Result<seq<byte>>>): set<nat>
    requires |inputs| == |answers|
  {
    if |inputs| == 0 then {}
    else
      Opened(inputs[..|inputs| - 1], answers[..|inputs| - 1])
      + if answers[|inputs| - 1].Ok? then {IndexOf(inputs[|inputs| - 1])} else {}
  }

  lemma {:induction false} OpenedHas(inputs: seq<seq<byte>>, answers: seq<Result<seq<byte>>>, k: nat)
    requires |inputs| == |answers| && k < |inputs| && answers[k].Ok?
    ensures IndexOf(inputs[k]) in Opened(inputs, answers)
  {
    hide IndexOf;
    if k < |inputs| - 1 {
      OpenedHas(inputs[..|inputs| - 1], answers[..|inputs| - 1], k);
    }
  }

  /** No index was opened twice. */
  ghost predicate OpenedOnce(inputs: seq<seq<byte>>, answers: seq<Result<seq<byte>>>)
    requires |inputs| == |answers|
  {
    forall j, k :: 0 <= j < k < |inputs| && answers[j].Ok? && answers[k].Ok? ==>
      IndexOf(inputs[j]) != IndexOf(inputs[k])
  }

  lemma OpenedOnceStep(inputs: seq<seq<byte>>, answers: seq<Result<seq<byte>>>, n: nat)
    requires |inputs| == |answers| == n + 1 && OpenedOnce(inputs[..n], answers[..n])
    requires answers[n].Ok? ==> IndexOf(inputs[n]) !in Opened(inputs[..n], answers[..n])
    ensures OpenedOnce(inputs, answers)
  {
    hide IndexOf, Opened;
    forall j | 0 <= j < n && answers[j].Ok? && answers[n].Ok?
      ensures IndexOf(inputs[j]) != IndexOf(inputs[n])
    {
      OpenedHas(inputs[..n], answers[..n], j);
    }
    forall j, k | 0 <= j < k < n && answers[j].Ok? && answers[k].Ok?
      ensures IndexOf(inputs[j]) != IndexOf(inputs[k])
    {
      assert inputs[..n][j] == inputs[j] && inputs[..n][k] == inputs[k];
    }
  }

  /** A receiver tracks a set of indices: its state is the one determined by them. */
  ghost predicate Tracks(o: Origin, consumed: set<nat>, st: State)
  {
    exists next: nat :: Reached(o, consumed, next) && st == StateOf(o, consumed, next)
  }

  /** After any run, hostile inputs included, the receiver tracks the set of indices it opened exactly
      when the last 32-bit index is not among them; each was then opened once. */
  lemma {:induction false} RunTracks(o: Origin, pk: seq<byte>, inputs: seq<seq<byte>>)
    requires o.start < U32
    ensures var (answers, st) := Run(o.c, pk, StateOf(o, {}, o.start), inputs);
      && (Tracks(o, Opened(inputs, answers), st) <==> U32 - 1 !in Opened(inputs, answers))
      && (U32 - 1 !in Opened(inputs, answers) ==> OpenedOnce(inputs, answers))
    decreases |inputs|
  {
    hide Decrypt, Parse, StateOf, Landed, Acceptable, OpenedOnce, IndexOf, Tracks;
    var (answers, st) := Run(o.c, pk, StateOf(o, {}, o.start), inputs);
    if Tracks(o, Opened(inputs, answers), st) {
      TracksBelow(o, Opened(inputs, answers), st);
    }
    if |inputs| == 0 {
      NothingOpened(o, inputs);
    } else if U32 - 1 !in Opened(inputs, answers) {
      var n := |inputs| - 1;
      RunTracks(o, pk, inputs[..n]);
      var before := Run(o.c, pk, StateOf(o, {}, o.start), inputs[..n]);
      assert answers[..n] == before.0;
      TracksMore(o, pk, Opened(inputs[..n], answers[..n]), before.1, inputs[n]);
      assert st == Decrypt(o.c, pk, before.1, inputs[n]).1 && answers[n] == Decrypt(o.c, pk, before.1, inputs[n]).0;
      assert !answers[n].Ok? ==> Opened(inputs, answers) == Opened(inputs[..n], answers[..n]);
      assert answers[n].Ok? ==> Opened(inputs, answers) == Opened(inputs[..n], answers[..n]) + {IndexOf(inputs[n])};
      OpenedOnceStep(inputs, answers, n);
    }
  }

  lemma TracksBelow(o: Origin, consumed: set<nat>, st: State)
    requires Tracks(o, consumed, st)
    ensures U32 - 1 !in consumed
  {
    hide StateOf;
  }

  lemma TracksMore(o: Origin, pk: seq<byte>, consumed: set<nat>, st: State, input: seq<byte>)
    requires Tracks(o, consumed, st)
    ensures var (r, st') := Decrypt(o.c, pk, st, input);
      if r.Ok? then
        && IndexOf(input) !in consumed
        && (IndexOf(input) != U32 - 1 ==> Tracks(o, consumed + {IndexOf(input)}, st'))
      else st' == st
  {
    hide Decrypt, Parse, StateOf, Landed;
    var next: nat :| Reached(o, consumed, next) && st == StateOf(o, consumed, next);
    Decide(o, pk, consumed, next, input);
    if Decrypt(o.c, pk, st, input).0.Ok? {
      LandedIs(o, consumed + {IndexOf(input)}, Max(next, IndexOf(input) + 1));
      assert IndexOf(input) != U32 - 1 ==> Reached(o, consumed + {IndexOf(input)}, Max(next, IndexOf(input) + 1));
    }
  }

  lemma NextBelow(o: Origin, consumed: set<nat>, next: nat)
    requires Reached(o, consumed, next)
    ensures o.start <= next < U32
  {
  }

  lemma NothingOpened(o: Origin, inputs: seq<seq<byte>>)
    requires |inputs| == 0 && o.start < U32
    ensures OpenedOnce(inputs, []) && Tracks(o, {}, StateOf(o, {}, o.start))
  {
    assert Reached(o, {}, o.start);
  }

  /** Under pk the verifier accepts only what the sender signed: the indices and ciphertexts given. */
  ghost predicate OnlySigned(c: Suite, pk: seq<byte>, signed: set<(nat, seq<byte>)>)
  {
    forall m: seq<byte>, sig: seq<byte> :: c.verify(pk, m, sig) ==>
      exists i: nat, ct: seq<byte> :: (i, ct) in signed && i < U32 && m == BigEndian(i, 4) + ct
  }

  function CiphertextOf(input: seq<byte>): seq<byte>
  {
    if Parse(input).Some? then Parse(input).value.ct else []
  }

  /** In any state, even with the chain key in other hands, an opened frame carries a signature of the sender
      over its own index and ciphertext. */
  lemma OpenedIsSigned(c: Suite, pk: seq<byte>, st: State, input: seq<byte>, signed: set<(nat, seq<byte>)>)
    requires OnlySigned(c, pk, signed) && Decrypt(c, pk, st, input).0.Ok?
    ensures (IndexOf(input), CiphertextOf(input)) in signed
  {
    hide Locate, BigEndian, Parse;
    var f := Parse(input).value;
    ParsedIndex(input);
    assert c.verify(pk, Signed(f), f.sig);
    var i: nat, ct: seq<byte> :| (i, ct) in signed && i < U32 && Signed(f) == BigEndian(i, 4) + ct;
    assert Signed(f)[..4] == BigEndian(i, 4) && Signed(f)[..4] == BigEndian(f.index, 4);
    assert Signed(f)[4..] == ct && Signed(f)[4..] == f.ct;
    ReadsBackU32(i);
    ReadsBackU32(f.index);
  }

  /** So over a whole run, from any state and on any inputs, every opened frame's index and ciphertext were
      signed by the sender. */
  lemma {:induction false} RunIsSigned(c: Suite, pk: seq<byte>, st: State, inputs: seq<seq<byte>>,
                                       signed: set<(nat, seq<byte>)>, k: nat)
    requires OnlySigned(c, pk, signed) && k < |inputs| && Run(c, pk, st, inputs).0[k].Ok?
    ensures (IndexOf(inputs[k]), CiphertextOf(inputs[k])) in signed
    decreases |inputs|
  {
    hide Decrypt, OnlySigned, IndexOf, CiphertextOf;
    var n := |inputs| - 1;
    if k < n {
      RunIsSigned(c, pk, st, inputs[..n], signed, k);
    } else {
      OpenedIsSigned(c, pk, Run(c, pk, st, inputs[..n]).1, inputs[n], signed);
    }
  }

  /** What the sender signs when it sends the given texts at the given indices. */
  function SignedOf(o: Origin, sent: set<(nat, seq<byte>)>): (signed: set<(nat, seq<byte>)>)
    requires forall m :: m in sent ==> o.start <= m.0
  {
    set m | m in sent :: (m.0, o.c.seal(KeyAt(o, m.0), m.0, m.1))
  }

  /** A hostile run reads only messages the sender sent, each at its own index, as long as the last 32-bit
      index was not opened before. */
  lemma {:induction false} RunReadsOnlySent(o: Origin, pk: seq<byte>, inputs: seq<seq<byte>>, sent: set<(nat, seq<byte>)>, k: nat)
    requires o.start < U32 && Lawful(o.c) && forall m :: m in sent ==> o.start <= m.0
    requires OnlySigned(o.c, pk, SignedOf(o, sent))
    requires k < |inputs| && Run(o.c, pk, StateOf(o, {}, o.start), inputs).0[k].Ok?
    requires var answers := Run(o.c, pk, StateOf(o, {}, o.start), inputs).0;
      U32 - 1 !in Opened(inputs[..k], answers[..k])
    ensures (IndexOf(inputs[k]), Run(o.c, pk, StateOf(o, {}, o.start), inputs).0[k].value) in sent
    decreases |inputs|
  {
    hide Decrypt, OnlySigned, IndexOf, CiphertextOf, StateOf, Opened, KeyAt, Lawful;
    var n := |inputs| - 1;
    var (answers, _) := Run(o.c, pk, StateOf(o, {}, o.start), inputs);
    var before := Run(o.c, pk, StateOf(o, {}, o.start), inputs[..n]);
    assert answers[..n] == before.0;
    if k < n {
      assert inputs[..n][..k] == inputs[..k] && before.0[..k] == answers[..k];
      RunReadsOnlySent(o, pk, inputs[..n], sent, k);
    } else {
      RunTracks(o, pk, inputs[..n]);
      OpenedIsSigned(o.c, pk, before.1, inputs[n], SignedOf(o, sent));
      OpenedText(o, pk, Opened(inputs[..n], before.0), before.1, inputs[n], sent);
    }
  }

  lemma OpenedText(o: Origin, pk: seq<byte>, consumed: set<nat>, st: State, input: seq<byte>, sent: set<(nat, seq<byte>)>)
    requires Lawful(o.c) && Tracks(o, consumed, st) && forall m :: m in sent ==> o.start <= m.0
    requires Decrypt(o.c, pk, st, input).0.Ok? && (IndexOf(input), CiphertextOf(input)) in SignedOf(o, sent)
    ensures (IndexOf(input), Decrypt(o.c, pk, st, input).0.value) in sent
  {
    hide Decrypt, Parse, StateOf, Landed, KeyAt, BigEndian, Acceptable;
    var next: nat :| Reached(o, consumed, next) && st == StateOf(o, consumed, next);
    Decide(o, pk, consumed, next, input);
  }

  /** Two runs that opened the same indices, in whatever orders and among whatever else, leave the
      same state. */
  lemma OrderIndependent(o: Origin, pk: seq<byte>, a: seq<seq<byte>>, b: seq<seq<byte>>)
    requires o.start < U32
    requires Opened(a, Run(o.c, pk, StateOf(o, {}, o.start), a).0)
          == Opened(b, Run(o.c, pk, StateOf(o, {}, o.start), b).0)
    requires U32 - 1 !in Opened(a, Run(o.c, pk, StateOf(o, {}, o.start), a).0)
    ensures Run(o.c, pk, StateOf(o, {}, o.start), a).1 == Run(o.c, pk, StateOf(o, {}, o.start), b).1
  {
    hide Run, Opened, StateOf;
    RunTracks(o, pk, a);
    RunTracks(o, pk, b);
  }

  /** The sender's frames with the given indices. */
  function Frames(o: Origin, pk: seq<byte>, sk: seq<byte>, idx: seq<nat>, texts: seq<seq<byte>>): (frames: seq<seq<byte>>)
    requires |idx| == |texts| && forall k :: 0 <= k < |idx| ==> o.start <= idx[k]
    ensures |frames| == |idx|
  {
    seq(|idx|, k requires 0 <= k < |idx| => Genuine(o, pk, sk, idx[k], texts[k]))
  }

  function IndicesUpTo(idx: seq<nat>): set<nat>
  {
    set k | 0 <= k < |idx| :: idx[k]
  }

  ghost predicate AllAcceptable(o: Origin, consumed: set<nat>, idx: seq<nat>)
  {
    && (forall k :: 0 <= k < |idx| ==> o.start <= idx[k] < U32 && Acceptable(o, consumed, idx[k]))
    && (forall j, k :: 0 <= j < k < |idx| ==> idx[j] != idx[k])
  }

  /** Genuine frames with distinct unconsumed indices within the skip bound of the starting point, in
      every order of arrival: all open to their own texts up to the one with the last 32-bit index;
      on a chain that starts beyond the skip bound none opens after it. */
  lemma {:induction false} AnyOrder(o: Origin, pk: seq<byte>, sk: seq<byte>, consumed: set<nat>, next: nat,
      idx: seq<nat>, texts: seq<seq<byte>>) returns (last: nat)
    requires Reached(o, consumed, next) && Lawful(o.c) && KeyPair(o.c, pk, sk) && |idx| == |texts|
    requires AllAcceptable(o, consumed, idx)
    ensures var (answers, st) := Run(o.c, pk, StateOf(o, consumed, next), Frames(o, pk, sk, idx, texts));
      && (forall k :: 0 <= k < |idx| && U32 - 1 !in idx[..k] ==> answers[k] == Ok(texts[k]))
      && (o.start > MAX_SKIP ==> forall k :: 0 <= k < |idx| && U32 - 1 in idx[..k] ==> answers[k] == Err(ErrInput))
      && (U32 - 1 !in idx ==>
            Reached(o, consumed + IndicesUpTo(idx), last) && st == StateOf(o, consumed + IndicesUpTo(idx), last))
      && (U32 - 1 in idx && o.start > MAX_SKIP ==> st.index == 0)
    decreases |idx|
  {
    hide Decrypt, StateOf, Landed, Genuine, Acceptable, Lawful, KeyPair, Reached, AllAcceptable, IndicesUpTo, Frames;
    last := next;
    if |idx| == 0 {
      NoIndices(consumed);
    } else {
      var n := |idx| - 1;
      OneMore(o, pk, sk, consumed, idx, texts);
      last := AnyOrder(o, pk, sk, consumed, next, idx[..n], texts[..n]);
      NextBelow(o, consumed, next);
      AtOrAfterStart(o, consumed, idx);
      var (answers, st) := Run(o.c, pk, StateOf(o, consumed, next), Frames(o, pk, sk, idx, texts));
      var before := Run(o.c, pk, StateOf(o, consumed, next), Frames(o, pk, sk, idx[..n], texts[..n]));
      assert answers == before.0 + [answers[n]];
      assert forall k :: 0 <= k < n ==> idx[..n][..k] == idx[..k];
      assert idx == idx[..n] + [idx[n]];
      if U32 - 1 !in idx[..n] {
        var now := consumed + IndicesUpTo(idx[..n]);
        GenuineOpensIff(o, pk, sk, now, last, idx[n], texts[n]);
        LocateExact(o, now, last, idx[n]);
        NextBelow(o, now, last);
        LandedIs(o, now + {idx[n]}, Max(last, idx[n] + 1));
        last := Max(last, idx[n] + 1);
      } else if o.start > MAX_SKIP {
        RefusedAfterWrap(o, pk, sk, before.1, idx[n], texts[n]);
      }
    }
  }

  lemma AtOrAfterStart(o: Origin, consumed: set<nat>, idx: seq<nat>)
    requires AllAcceptable(o, consumed, idx)
    ensures forall k :: 0 <= k < |idx| ==> o.start <= idx[k]
  {
  }

  lemma NoIndices(consumed: set<nat>)
    ensures consumed + IndicesUpTo([]) == consumed
  {
  }

  lemma IndicesMore(idx: seq<nat>)
    requires |idx| > 0
    ensures var n := |idx| - 1; IndicesUpTo(idx) == IndicesUpTo(idx[..n]) + {idx[n]}
  {
  }

  lemma OneMore(o: Origin, pk: seq<byte>, sk: seq<byte>, consumed: set<nat>, idx: seq<nat>, texts: seq<seq<byte>>)
    requires |idx| == |texts| > 0 && AllAcceptable(o, consumed, idx)
    ensures var n := |idx| - 1;
      var frames := Frames(o, pk, sk, idx, texts);
      && AllAcceptable(o, consumed, idx[..n])
      && frames[..n] == Frames(o, pk, sk, idx[..n], texts[..n])
      && o.start <= idx[n] < U32
      && frames[n] == Genuine(o, pk, sk, idx[n], texts[n])
      && Acceptable(o, consumed + IndicesUpTo(idx[..n]), idx[n])
      && consumed + IndicesUpTo(idx) == (consumed + IndicesUpTo(idx[..n])) + {idx[n]}
  {
    hide Genuine, Acceptable, IndicesUpTo;
    var n := |idx| - 1;
    IndicesMore(idx);
    StaysAcceptable(o, consumed, consumed + IndicesUpTo(idx[..n]), idx, n);
  }

  /** Consuming other indices only widens the window. */
  lemma StaysAcceptable(o: Origin, consumed: set<nat>, now: set<nat>, idx: seq<nat>, n: nat)
    requires n < |idx| && Acceptable(o, consumed, idx[n]) && now == consumed + IndicesUpTo(idx[..n])
    requires forall k :: 0 <= k < n ==> idx[k] != idx[n]
    ensures Acceptable(o, now, idx[n])
  {
    SubsetSize(consumed, now);
  }
}
