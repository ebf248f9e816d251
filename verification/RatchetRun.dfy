/** Two-party runs of the Double Ratchet over a hostile network, in all three forms at once. The
    history is a sequence of sending chains 0, 1, 2, ...: even chains are the initiator's, odd ones
    the responder's, and chain c mixes DH(key c, key c-1) into the root key of chain c-1. */
module RatchetRun {
  import opened Common
  import opened Ratchet

  datatype Sent = Sent(pt: Plain, salt: nat)

  /** A sending chain: its ratchet key, the root key it leads to, its KEM data, and what was sent. */
  datatype Chain = Chain(key: nat, root: RootKey, kemPk: nat, full: bool, ct: Option<KemCt>, kem: Option<Kss>, msgs: seq<Sent>)

  datatype History = History(he: bool, pq: bool, base: nat, baseKem: nat, chains: seq<Chain>)

  predicate InRange(H: History, c: int)
  {
    -1 <= c < |H.chains|
  }

  /** Chain -1 stands for the responder's initial key pairs. */
  function KeyAt(H: History, c: int): nat
    requires InRange(H, c)
  {
    if c < 0 then H.base else H.chains[c].key
  }

  function RootAt(H: History, c: int): RootKey
    requires InRange(H, c)
  {
    if c < 0 then Sk else H.chains[c].root
  }

  function KemPkAt(H: History, c: int): nat
    requires InRange(H, c)
  {
    if c < 0 then H.baseKem else H.chains[c].kemPk
  }

  /** The KEM secret mixed into chain c. */
  function KemAt(H: History, c: int): Option<Kss>
    requires c < |H.chains|
  {
    if c < 0 then None else H.chains[c].kem
  }

  /** Header key of chain c. */
  function HkAt(H: History, c: int): HeaderKey
    requires 0 <= c < |H.chains| + 2
  {
    if c == 0 then HkA else if c == 1 then NhkB else HkOf(H.chains[c - 2].root)
  }

  /** Length of the previous chain of the same sender. */
  function PnAt(H: History, c: int): nat
    requires 0 <= c < |H.chains|
  {
    if c < 2 then 0 else |H.chains[c - 2].msgs|
  }

  /** Number of own ratchet steps its sender had made when it opened chain c. */
  function StepsAt(c: int): nat
    requires c >= -1
  {
    (c + 1) / 2
  }

  function PartAt(H: History, c: nat): Option<KemPart>
    requires c < |H.chains|
  {
    var k := H.chains[c];
    if k.full then Some(KemPart(k.kemPk, if k.ct.Some? then 1 else 0, if k.ct.Some? then k.ct.value else PADDING)) else None
  }

  function TypeAt(H: History, c: nat): nat
    requires c < |H.chains|
  {
    if !H.pq then TYPE_CLASSICAL else if H.chains[c].full then TYPE_PQ_FULL else TYPE_PQ_LITE
  }

  predicate IsMessage(H: History, c: nat, n: nat)
  {
    c < |H.chains| && n < |H.chains[c].msgs|
  }

  function HeaderAt(H: History, c: nat, n: nat): Header
    requires IsMessage(H, c, n)
  {
    if H.he then Boxed(HkAt(H, c), Pub(KeyAt(H, c)), PnAt(H, c), n, H.chains[c].msgs[n].salt)
    else Clear(1, TypeAt(H, c), Pub(KeyAt(H, c)), PnAt(H, c), n, PartAt(H, c))
  }

  function MkAt(H: History, c: nat, n: nat): MsgKey
    requires c < |H.chains|
  {
    Mk(CkAt(CkOf(RootAt(H, c)), n))
  }

  function BodyAt(H: History, c: nat, n: nat): Body
    requires IsMessage(H, c, n)
  {
    Sealed(MkAt(H, c, n), n, HeaderAt(H, c, n), H.chains[c].msgs[n].pt)
  }

  // ---------------------------------------------------------------------------
  // The invariant
  // ---------------------------------------------------------------------------

  /** The KEM schedule. Full chains are the first of each party and every KEM_EVERY-th step; all but
      chain 0 then encapsulate to the key pair the peer had when it opened the previous chain; other
      chains keep the key pair and the secret of the sender's previous chain. */
  ghost predicate KemOk(H: History, c: nat)
    requires c < |H.chains|
  {
    var k := H.chains[c];
    if !H.pq then !k.full && k.ct.None? && k.kem.None?
    else
      && (k.full <==> c <= 1 || StepsAt(c) % KEM_EVERY == 0)
      && (k.ct.Some? <==> k.full && c >= 1)
      && (k.ct.Some? ==> k.ct.value.Encaps? && k.ct.value.to == KemPkAt(H, c - 1) && k.kem == Some(Shared(k.ct.value.ss)))
      && (k.ct.None? ==> k.kem == KemAt(H, c - 2))
      && (!k.full ==> k.kemPk == KemPkAt(H, c - 2))
  }

  ghost predicate ChainOk(H: History, c: nat)
    requires c < |H.chains|
  {
    && H.chains[c].root == Rk(RootAt(H, c - 1), DhOf(KeyAt(H, c), KeyAt(H, c - 1)), KemAt(H, c))
    && |H.chains[c].msgs| < U32
    && KemOk(H, c)
  }

  ghost predicate KeysDistinct(H: History)
  {
    forall c, d :: -1 <= c < d < |H.chains| ==> KeyAt(H, c) != KeyAt(H, d)
  }

  ghost predicate HistoryOk(H: History)
  {
    && |H.chains| >= 1 && !(H.he && H.pq)
    && (forall c :: 0 <= c < |H.chains| ==> ChainOk(H, c))
    && KeysDistinct(H)
  }

  /** The newest chain that party me (0 or 1) sends on; -1 for a responder that cannot send yet. */
  function Own(H: History, me: nat): (a: int)
    requires |H.chains| >= 1 && me < 2
    ensures -1 <= a < |H.chains| <= a + 2
    ensures a % 2 == me
  {
    if (|H.chains| - 1) % 2 == me then |H.chains| - 1 else |H.chains| - 2
  }

  ghost predicate SendSide(H: History, a: int, s: State)
    requires -1 <= a < |H.chains|
  {
    && s.dhs == KeyAt(H, a) && s.rk == RootAt(H, a)
    && s.ns == (if a < 0 then 0 else |H.chains[a].msgs|)
    && s.cks == (if a < 0 then None else Some(CkAt(CkOf(RootAt(H, a)), s.ns)))
    && s.pn == (if a < 0 then 0 else PnAt(H, a))
  }

  ghost predicate RecvSide(H: History, r: int, s: State)
    requires -2 <= r < |H.chains|
  {
    && s.dhr == (if r < -1 then None else Some(Pub(KeyAt(H, r))))
    && s.nr <= (if r < 0 then 0 else |H.chains[r].msgs|)
    && s.ckr == (if r < 0 then None else Some(CkAt(CkOf(RootAt(H, r)), s.nr)))
  }

  /** The sender's current header key is the receiver's current or next one, on both sides. */
  ghost predicate HeaderSide(H: History, a: int, s: State)
    requires -1 <= a < |H.chains|
  {
    && s.hk.send == (if a < 0 then None else Some(HkAt(H, a))) && s.hk.nextSend == Some(HkAt(H, a + 2))
    && s.hk.recv == (if a < 1 then None else Some(HkAt(H, a - 1))) && s.hk.nextRecv == Some(HkAt(H, a + 1))
  }

  ghost predicate KemSide(H: History, a: int, k: KemState)
    requires -1 <= a < |H.chains|
  {
    && k.own == KemPkAt(H, a) && k.peer == (if a < 1 then None else Some(KemPkAt(H, a - 1)))
    && (a >= 0 ==> k.ct == H.chains[a].ct && k.full == H.chains[a].full)
    && k.ssSend == KemAt(H, a) && k.ssRecv == KemAt(H, a - 1)
    && k.advertised == (a >= 0) && k.steps == StepsAt(a) % U32
  }

  /** A peer message that the receiving chains have passed: it was received or its key is stashed. */
  predicate Due(H: History, r: int, nr: nat, c: nat, n: nat)
    requires r < |H.chains|
  {
    c <= r && (r - c) % 2 == 0 && n < (if c == r then nr else |H.chains[c].msgs|)
  }

  function EntryAt(H: History, c: nat, n: nat): Skipped
    requires c < |H.chains|
  {
    Skipped(Pub(KeyAt(H, c)), n, MkAt(H, c, n), if H.he then Some(HkAt(H, c)) else None)
  }

  type Ids = seq<(nat, nat)>

  ghost predicate DistinctIds(ids: Ids)
  {
    forall i, j :: 0 <= i < j < |ids| ==> ids[i] != ids[j]
  }

  /** Every stashed key is the true key of a message that is due and was not received. */
  ghost predicate EntriesOk(H: History, r: int, nr: nat, es: seq<Skipped>, ids: Ids, got: set<(nat, nat)>)
    requires r < |H.chains|
  {
    |es| == |ids| &&
    forall i :: 0 <= i < |ids| ==>
      Due(H, r, nr, ids[i].0, ids[i].1) && ids[i] !in got && es[i] == EntryAt(H, ids[i].0, ids[i].1)
  }

  /** Whatever is due was received or is stashed, and nothing else was received. */
  ghost predicate Covered(H: History, r: int, nr: nat, ids: Ids, got: set<(nat, nat)>)
    requires r < |H.chains|
  {
    && (forall m :: m in got ==> Due(H, r, nr, m.0, m.1))
    && (forall c: nat, n: nat :: Due(H, r, nr, c, n) ==> (c, n) in ids || (c, n) in got)
  }

  /** The stash holds exactly the due messages not yet received, each once and with its true key. */
  ghost predicate StashOk(H: History, r: int, s: State, ids: Ids, got: set<(nat, nat)>)
    requires r < |H.chains|
  {
    |ids| <= MAX_SKIP && DistinctIds(ids) && EntriesOk(H, r, s.nr, s.skipped, ids, got) && Covered(H, r, s.nr, ids, got)
  }

  ghost predicate PartyOk(H: History, me: nat, s: State, ids: Ids, got: set<(nat, nat)>)
    requires me < 2
  {
    && HistoryOk(H)
    && var a := Own(H, me);
       && s.he == H.he && s.pq == H.pq
       && SendSide(H, a, s) && RecvSide(H, a - 1, s)
       && (if H.he then HeaderSide(H, a, s) else s.hk == NO_HEADER_KEYS)
       && (if H.pq then KemSide(H, a, s.kem) else s.kem == NoKem(0))
       && StashOk(H, a - 1, s, ids, got)
  }

  // ---------------------------------------------------------------------------
  // Keys of different messages are different terms
  // ---------------------------------------------------------------------------

  function RootDepth(r: RootKey): nat
  {
    match r case Sk => 0 case Rk(p, _, _) => 1 + RootDepth(p)
  }

  lemma {:induction false} DepthOfRoot(H: History, c: int)
    requires HistoryOk(H) && InRange(H, c)
    ensures RootDepth(RootAt(H, c)) == c + 1
    decreases c + 1
  {
    hide KemOk, KeysDistinct;
    if c >= 0 {
      assert ChainOk(H, c);
      DepthOfRoot(H, c - 1);
    }
  }

  lemma {:induction false} CkInjective(r: RootKey, i: nat, q: RootKey, j: nat)
    requires CkAt(CkOf(r), i) == CkAt(CkOf(q), j)
    ensures r == q && i == j
  {
    if i > 0 && j > 0 {
      CkInjective(r, i - 1, q, j - 1);
    }
  }

  lemma MkInjective(H: History, c: nat, n: nat, d: nat, k: nat)
    requires HistoryOk(H) && c < |H.chains| && d < |H.chains| && MkAt(H, c, n) == MkAt(H, d, k)
    ensures c == d && n == k
  {
    hide HistoryOk;
    CkInjective(RootAt(H, c), n, RootAt(H, d), k);
    DepthOfRoot(H, c);
    DepthOfRoot(H, d);
  }

  lemma {:induction false} CkAtAdd(ck: ChainKey, i: nat, j: nat)
    ensures CkAt(CkAt(ck, i), j) == CkAt(ck, i + j)
  {
    if j > 0 {
      CkAtAdd(ck, i, j - 1);
    }
  }

  // ---------------------------------------------------------------------------
  // Steps of the receiver
  // ---------------------------------------------------------------------------

  function NewIds(r: nat, from: nat, count: nat): (ids: Ids)
    ensures |ids| == count
  {
    seq(count, i requires 0 <= i < count => (r, from + i))
  }

  /** Skipping forward stashes exactly the passed-over messages of the current chain. */
  lemma SkipStep(H: History, me: nat, s: State, ids: Ids, got: set<(nat, nat)>, until: nat)
    requires me < 2 && PartyOk(H, me, s, ids, got) && Own(H, me) >= 1
    requires s.nr <= until <= |H.chains[Own(H, me) - 1].msgs|
    requires |s.skipped| + (until - s.nr) <= MAX_SKIP
    ensures SkipKeys(s, until).Ok?
    ensures var w := SkipKeys(s, until).s;
            && PartyOk(H, me, w, ids + NewIds(Own(H, me) - 1, s.nr, until - s.nr), got)
            && w.nr == until && |w.skipped| == |s.skipped| + (until - s.nr)
            && w.(skipped := s.skipped, ckr := s.ckr, nr := s.nr) == s
            && w.ckr == Some(CkAt(CkOf(RootAt(H, Own(H, me) - 1)), until))
  {
    hide HistoryOk, CkAt, KemSide;
    var r := Own(H, me) - 1;
    var w := SkipKeys(s, until).s;
    var more := NewIds(r, s.nr, until - s.nr);
    CkAtAdd(CkOf(RootAt(H, r)), s.nr, until - s.nr);
    SkipStash(H, r, s, ids, got, until, w);
  }

  lemma SkipStash(H: History, r: nat, s: State, ids: Ids, got: set<(nat, nat)>, until: nat, w: State)
    requires r < |H.chains| && StashOk(H, r, s, ids, got) && RecvSide(H, r, s) && s.he == H.he
    requires H.he ==> s.hk.recv == Some(HkAt(H, r))
    requires s.nr <= until && SkipKeys(s, until) == Ok(w)
    ensures StashOk(H, r, w, ids + NewIds(r, s.nr, until - s.nr), got)
  {
    hide CkAt, HkAt;
    var all := ids + NewIds(r, s.nr, until - s.nr);
    assert EntriesOk(H, r, until, w.skipped, all, got) by {
      hide DistinctIds;
      forall i | |ids| <= i < |all|
        ensures w.skipped[i] == EntryAt(H, all[i].0, all[i].1)
      {
        CkAtAdd(CkOf(RootAt(H, r)), s.nr, i - |ids|);
      }
    }
    assert DistinctIds(all) by {
      hide EntryAt;
    }
    assert Covered(H, r, until, all, got) by {
      hide EntryAt, DistinctIds;
      forall c: nat, n: nat | Due(H, r, until, c, n) && !Due(H, r, s.nr, c, n)
        ensures (c, n) in all
      {
        assert all[|ids| + (n - s.nr)] == (c, n);
      }
    }
  }

  /** Opening the next message of the current chain. */
  lemma ConsumeStep(H: History, me: nat, v: State, ids: Ids, got: set<(nat, nat)>)
    requires me < 2 && PartyOk(H, me, v, ids, got) && Own(H, me) >= 1
    requires v.nr < |H.chains[Own(H, me) - 1].msgs|
    ensures v.ckr.Some? && v.nr + 1 < U32
    ensures PartyOk(H, me, v.(ckr := Some(CkNext(v.ckr.value)), nr := v.nr + 1), ids, got + {((Own(H, me) - 1) as nat, v.nr)})
  {
    hide KemSide, KemOk, KeysDistinct, HkAt, RootAt;
    assert ChainOk(H, Own(H, me) - 1);
  }

  function DropId(ids: Ids, i: nat): Ids
    requires i < |ids|
  {
    ids[..i] + ids[i + 1..]
  }

  /** Opening a stashed message. */
  lemma StashedStep(H: History, me: nat, s: State, ids: Ids, got: set<(nat, nat)>, i: nat)
    requires me < 2 && PartyOk(H, me, s, ids, got) && i < |s.skipped|
    ensures PartyOk(H, me, s.(skipped := RemoveAt(s.skipped, i)), DropId(ids, i), got + {ids[i]})
  {
    hide HistoryOk, KemSide, EntryAt, HkAt;
  }

  // ---------------------------------------------------------------------------
  // The ratchet step opens a chain
  // ---------------------------------------------------------------------------

  function Extend(H: History, s: State): (H': History)
    ensures |H'.chains| == |H.chains| + 1
  {
    H.(chains := H.chains + [Chain(s.dhs, s.rk, s.kem.own, H.pq && s.kem.full, if H.pq then s.kem.ct else None,
                                   if H.pq then s.kem.ssSend else None, [])])
  }

  /** What was true of the chains so far stays true when a chain is added. */
  lemma ExtendKeeps(H: History, s: State, c: nat)
    requires c < |H.chains| && ChainOk(H, c)
    ensures ChainOk(Extend(H, s), c)
  {
  }

  lemma ExtendOk(H: History, s: State)
    requires HistoryOk(H) && ChainOk(Extend(H, s), |H.chains|)
    requires forall c :: -1 <= c < |H.chains| ==> KeyAt(H, c) != s.dhs
    ensures HistoryOk(Extend(H, s))
  {
    hide ChainOk;
    var H' := Extend(H, s);
    forall c: nat | 0 <= c < |H.chains|
      ensures ChainOk(H', c)
    {
      ExtendKeeps(H, s, c);
    }
    forall c, d | -1 <= c < d < |H'.chains|
      ensures KeyAt(H', c) != KeyAt(H', d)
    {
      assert KeyAt(H', c) == KeyAt(H, c);
      assert KeyAt(H', d) == if d < |H.chains| then KeyAt(H, d) else s.dhs;
    }
  }

  /** Party me has a newer chain of the peer to receive, and has finished the older one. */
  ghost predicate ReadyToStep(H: History, me: nat, s: State)
    requires me < 2 && |H.chains| >= 1
  {
    Own(H, me) == |H.chains| - 2 && (Own(H, me) >= 1 ==> s.nr == |H.chains[Own(H, me) - 1].msgs|)
  }

  /** The state after either ratchet step, given the KEM state it ends with. */
  ghost predicate Stepped(s: State, w: State, dh: Pub, rnd: Rnd)
  {
    dh.Pub? &&
    var r1 := Rk(s.rk, DhOf(s.dhs, dh.id), if s.pq then w.kem.ssRecv else None);
    var r2 := Rk(r1, DhOf(rnd.dh, dh.id), if s.pq then w.kem.ssSend else None);
    && w.rk == r2 && w.dhs == rnd.dh && w.dhr == Some(dh) && w.cks == Some(CkOf(r2)) && w.ckr == Some(CkOf(r1))
    && w.pn == s.ns && w.ns == 0 && w.nr == 0 && w.he == s.he && w.pq == s.pq && w.skipped == s.skipped
    && w.hk == (if s.he then HeaderKeys(s.hk.nextSend, s.hk.nextRecv, Some(HkOf(r2)), Some(HkOf(r1))) else s.hk)
    && (!s.pq ==> w.kem == s.kem)
  }

  /** In every run, however chains are lost or reordered, the KEM secret that the receiver of chain c
      mixes is the one its sender mixed, and the receiver learns the sender's current key pair. */
  lemma KemLockstep(H: History, a: int, k: KemState)
    requires HistoryOk(H) && H.pq && -1 <= a && a == |H.chains| - 2 && KemSide(H, a, k)
    ensures var k' := KemReceive(k, PartAt(H, a + 1));
            && k'.ssRecv == KemAt(H, a + 1)
            && k'.peer == Some(KemPkAt(H, a + 1))
            && k' == k.(peer := k'.peer, ssRecv := k'.ssRecv)
  {
    hide KeysDistinct;
    assert ChainOk(H, a + 1);
  }

  /** The KEM key pair a party advertises from chain c on: a new one by the cadence, or the one it had. */
  function NextKemKey(H: History, c: nat, own: nat, rnd: Rnd): nat
  {
    if StepsAt(c) % KEM_EVERY == 0 then rnd.kem else own
  }

  /** The sending half continues the KEM schedule. */
  lemma KemNext(H: History, a: int, k: KemState, rnd: Rnd, s: State)
    requires HistoryOk(H) && H.pq && -1 <= a && a == |H.chains| - 2 && KemSide(H, a, k)
    requires s.kem == KemSend(KemReceive(k, PartAt(H, a + 1)), rnd)
    ensures KemOk(Extend(H, s), a + 2) && KemSide(Extend(H, s), a + 2, s.kem)
    ensures s.kem.own == if StepsAt(a + 2) % KEM_EVERY == 0 then rnd.kem else k.own
  {
    hide KeysDistinct, ChainOk, KemOk, KemReceive;
    KemLockstep(H, a, k);
    StepsModulo(StepsAt(a));
    KemNextOk(H, a, KemReceive(k, PartAt(H, a + 1)), rnd, s);
  }

  lemma StepsModulo(x: nat)
    ensures (x % U32 + 1) % U32 == (x + 1) % U32
    ensures (x % U32) % KEM_EVERY == x % KEM_EVERY && ((x + 1) % U32) % KEM_EVERY == (x + 1) % KEM_EVERY
  {
    assert U32 % 8 == 0;
    ModOfMultiple(x);
    ModOfMultiple(x + 1);
  }

  lemma ModOfMultiple(x: nat)
    ensures (x % U32) % KEM_EVERY == x % KEM_EVERY
  {
    var q := x / U32;
    assert x == q * U32 + x % U32;
  }

  lemma KemNextOk(H: History, a: int, k: KemState, rnd: Rnd, s: State)
    requires H.pq && -1 <= a && a == |H.chains| - 2
    requires k.own == KemPkAt(H, a) && k.peer == Some(KemPkAt(H, a + 1)) && k.ssSend == KemAt(H, a) && k.ssRecv == KemAt(H, a + 1)
    requires k.advertised == (a >= 0) && k.steps == StepsAt(a) % U32
    requires s.kem == KemSend(k, rnd)
    requires (k.steps + 1) % U32 == StepsAt(a + 2) % U32 && ((k.steps + 1) % U32) % KEM_EVERY == StepsAt(a + 2) % KEM_EVERY
    ensures KemOk(Extend(H, s), a + 2) && KemSide(Extend(H, s), a + 2, s.kem)
    ensures s.kem.own == if StepsAt(a + 2) % KEM_EVERY == 0 then rnd.kem else k.own
  {
  }

  /** A ratchet step on a genuine header keeps the invariant of the party that makes it, in the
      history extended by its new sending chain. */
  lemma RatchetStep(H: History, me: nat, s: State, ids: Ids, got: set<(nat, nat)>, w: State, rnd: Rnd)
    requires me < 2 && PartyOk(H, me, s, ids, got) && ReadyToStep(H, me, s)
    requires Stepped(s, w, Pub(KeyAt(H, Own(H, me) + 1)), rnd)
    requires H.pq ==> w.kem == KemSend(KemReceive(s.kem, PartAt(H, Own(H, me) + 1)), rnd)
    requires forall c :: -1 <= c < |H.chains| ==> KeyAt(H, c) != rnd.dh
    ensures PartyOk(Extend(H, w), me, w, ids, got)
    ensures w.nr == 0 && w.ckr == Some(CkAt(CkOf(RootAt(H, Own(H, me) + 1)), 0)) && |w.skipped| == |s.skipped|
    ensures H.pq ==> w.kem.own == NextKemKey(H, Own(H, me) + 2, s.kem.own, rnd)
  {
    hide KemOk, KeysDistinct, KemSide, KemSend, KemReceive;
    var a := Own(H, me);
    var H' := Extend(H, w);
    assert ChainOk(H, a + 1);
    if H.pq {
      KemLockstep(H, a, s.kem);
      KemNext(H, a, s.kem, rnd, w);
      SendKeepsRecv(s.kem, PartAt(H, a + 1), rnd);
    } else {
      NoKemOk(H, w);
    }
    DhCommutes(KeyAt(H, a), KeyAt(H, a + 1));
    assert ChainOk(H', |H.chains|);
    ExtendOk(H, w);
    assert Own(H', me) == a + 2;
    StepStash(H, a - 1, s, ids, got, w);
  }

  lemma DhCommutes(x: nat, y: nat)
    ensures DhOf(x, y) == DhOf(y, x)
  {
  }

  lemma SendKeepsRecv(k: KemState, part: Option<KemPart>, rnd: Rnd)
    ensures KemSend(KemReceive(k, part), rnd).ssRecv == KemReceive(k, part).ssRecv
  {
  }

  lemma NoKemOk(H: History, w: State)
    requires !H.pq && |H.chains| >= 1 && ChainOk(H, |H.chains| - 1)
    ensures KemOk(Extend(H, w), |H.chains|) && KemAt(H, |H.chains| - 1) == None
  {
  }

  /** Nothing falls due by opening a chain. */
  lemma StepStash(H: History, r: int, s: State, ids: Ids, got: set<(nat, nat)>, w: State)
    requires -2 <= r && r + 3 == |H.chains| && StashOk(H, r, s, ids, got)
    requires s.nr == (if r < 0 then 0 else |H.chains[r].msgs|) && w.nr == 0 && w.skipped == s.skipped
    ensures StashOk(Extend(H, w), r + 2, w, ids, got)
  {
    var H' := Extend(H, w);
    forall c: nat, n: nat | Due(H', r + 2, 0, c, n) || Due(H, r, s.nr, c, n)
      ensures Due(H', r + 2, 0, c, n) && Due(H, r, s.nr, c, n)
    {
      assert c <= r && H'.chains[c] == H.chains[c];
    }
    forall i | 0 <= i < |ids|
      ensures EntryAt(H', ids[i].0, ids[i].1) == EntryAt(H, ids[i].0, ids[i].1)
    {
      assert Due(H, r, s.nr, ids[i].0, ids[i].1);
    }
  }

  /** The other party is not affected by the new chain. */
  lemma OtherParty(H: History, me: nat, w: State, t: State, ids: Ids, got: set<(nat, nat)>)
    requires me < 2 && PartyOk(H, 1 - me, t, ids, got) && |H.chains| % 2 == me
    requires HistoryOk(Extend(H, w))
    ensures PartyOk(Extend(H, w), 1 - me, t, ids, got)
  {
    hide HistoryOk, StashOk;
    var H' := Extend(H, w);
    assert HistoryOk(H') && |H'.chains| >= 1;
    assert |H.chains| >= 1 by {
      assert HistoryOk(H);
      HistoryNonempty(H);
    }
    assert Own(H', 1 - me) == Own(H, 1 - me);
    OtherStash(H, Own(H, 1 - me) - 1, w, t, ids, got);
  }

  lemma HistoryNonempty(H: History)
    requires HistoryOk(H)
    ensures |H.chains| >= 1
  {
  }

  lemma OtherStash(H: History, r: int, w: State, t: State, ids: Ids, got: set<(nat, nat)>)
    requires r < |H.chains| && StashOk(H, r, t, ids, got)
    ensures StashOk(Extend(H, w), r, t, ids, got)
  {
    var H' := Extend(H, w);
    forall c: nat, n: nat
      ensures Due(H', r, t.nr, c, n) <==> Due(H, r, t.nr, c, n)
    {
    }
    forall i | 0 <= i < |ids|
      ensures EntryAt(H', ids[i].0, ids[i].1) == EntryAt(H, ids[i].0, ids[i].1)
    {
      assert Due(H, r, t.nr, ids[i].0, ids[i].1);
    }
  }
}
