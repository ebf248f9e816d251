/** Exactly-once delivery of the Double Ratchet over a network that drops, reorders, duplicates,
    reflects and injects packets, for the classical, periodic-PQ and header-encrypted sessions. */
module RatchetDelivery {
  import opened Common
  import opened Ratchet
  import opened RatchetRun

  // ---------------------------------------------------------------------------
  // One party: genuine messages
  // ---------------------------------------------------------------------------

  /** A message of the peer that this party has not received. */
  predicate Pending(H: History, me: nat, c: nat, n: nat, got: set<(nat, nat)>)
  {
    IsMessage(H, c, n) && c % 2 != me && (c, n) !in got
  }

  /** How many further keys must be stashed to reach message n of chain c. */
  function Missing(H: History, me: nat, s: State, c: nat, n: nat): nat
    requires me < 2 && |H.chains| >= 1
  {
    var r := Own(H, me) - 1;
    if c == r && n >= s.nr then n - s.nr
    else if c > r then (if r >= 0 && |H.chains[r].msgs| >= s.nr then |H.chains[r].msgs| - s.nr else 0) + n
    else 0
  }

  /** The message fits the skip bound. */
  predicate Fits(H: History, me: nat, s: State, c: nat, n: nat)
    requires me < 2 && |H.chains| >= 1
  {
    |s.skipped| + Missing(H, me, s, c, n) <= MAX_SKIP
  }

  predicate FreshKey(H: History, key: nat)
  {
    forall c :: -1 <= c < |H.chains| ==> KeyAt(H, c) != key
  }

  lemma PartyFacts(H: History, me: nat, s: State, ids: Ids, got: set<(nat, nat)>)
    requires me < 2 && PartyOk(H, me, s, ids, got)
    ensures HistoryOk(H) && |H.chains| >= 1 && s.he == H.he && s.pq == H.pq
    ensures s.dhs == KeyAt(H, Own(H, me)) && s.rk == RootAt(H, Own(H, me))
    ensures RecvSide(H, Own(H, me) - 1, s) && StashOk(H, Own(H, me) - 1, s, ids, got)
    ensures H.he ==> HeaderSide(H, Own(H, me), s)
    ensures |ids| == |s.skipped| <= MAX_SKIP
    ensures s.ckr.Some? ==> s.dhr.Some?
  {
    hide HistoryOk, HeaderSide, KemSide, Covered, DistinctIds;
    HistoryNonempty(H);
  }

  /** The stash entry of a message is found by its ratchet key and index. */
  lemma Lookup(H: History, r: int, s: State, ids: Ids, got: set<(nat, nat)>, c: nat, n: nat, i: nat)
    requires HistoryOk(H) && r < |H.chains| && StashOk(H, r, s, ids, got) && c < |H.chains| && i < |ids|
    ensures s.skipped[i].n == n && s.skipped[i].dh == Pub(KeyAt(H, c)) <==> ids[i] == (c, n)
  {
    hide Covered, DistinctIds, ChainOk;
    var d := ids[i].0;
    assert Due(H, r, s.nr, d, ids[i].1);
    if d < c {
      assert KeyAt(H, d) != KeyAt(H, c);
    } else if c < d {
      assert KeyAt(H, c) != KeyAt(H, d);
    }
  }

  /** What each decryption does once its lookup in the stash is settled. */
  function Advance(s: State, h: Header, rnd: Rnd): (w: Res)
    requires s.ckr.Some? ==> s.dhr.Some?
    ensures w.Ok? ==> (w.s.ckr.Some? ==> w.s.dhr.Some?)
  {
    if s.he then AdvanceBoxed(s, h, rnd) else if h.Clear? then AdvanceClear(s, h, rnd) else Err(InvalidInput)
  }

  /** The index n a header names. */
  function IndexOf(h: Header): nat
  {
    match h case Clear(_, _, _, _, n, _) => n case Boxed(_, _, _, n, _) => n case JunkHeader(_) => 0
  }

  function LookupOf(s: State, h: Header): (i: Option<nat>)
    ensures i.Some? ==> i.value < |s.skipped|
  {
    if s.he then FindBoxed(s.skipped, h) else if h.Clear? then FindSkipped(s.skipped, h.dh, h.n) else None
  }

  lemma LookupGenuine(H: History, me: nat, s: State, ids: Ids, got: set<(nat, nat)>, c: nat, n: nat)
    requires me < 2 && PartyOk(H, me, s, ids, got) && IsMessage(H, c, n)
    ensures var i := LookupOf(s, HeaderAt(H, c, n));
            if i.Some? then i.value < |ids| && ids[i.value] == (c, n) else (c, n) !in ids
  {
    PartyFacts(H, me, s, ids, got);
    hide HistoryOk, PartyOk, Covered, DistinctIds, HkAt;
    var r := Own(H, me) - 1;
    var i := LookupOf(s, HeaderAt(H, c, n));
    if i.Some? {
      Lookup(H, r, s, ids, got, c, n, i.value);
    }
  }

  /** Both decryptions, past their header checks: stash first, then advance and open. */
  lemma DecryptShape(s: State, h: Header, body: Body, rnd: Rnd)
    requires Sized(h) && (s.ckr.Some? ==> s.dhr.Some?)
    ensures var d := Decrypt(s, h, body, rnd);
            || (d.0 == Fails(InvalidInput) && d.1 == s && !s.he && !(h.Clear? && h.ver == 1 && TypeFits(s, h)))
            || ((s.he || (h.Clear? && h.ver == 1 && TypeFits(s, h))) &&
                d == match LookupOf(s, h)
                     case Some(i) => OpenStashed(s, i, h, body)
                     case None =>
                       match Advance(s, h, rnd)
                       case Err(rc) => (Fails(rc), s)
                       case Ok(w) => OpenOnChain(s, w, IndexOf(h), h, body))
  {
    hide FindSkipped, FindBoxed, AdvanceClear, AdvanceBoxed, OpenOnChain, OpenStashed;
    if s.he {
    }
  }

  predicate TypeFits(s: State, h: Header)
    requires h.Clear?
  {
    if s.pq then h.typ == TYPE_PQ_FULL || h.typ == TYPE_PQ_LITE else h.typ == TYPE_CLASSICAL
  }

  lemma GenuineShape(H: History, me: nat, s: State, ids: Ids, got: set<(nat, nat)>, c: nat, n: nat)
    requires me < 2 && PartyOk(H, me, s, ids, got) && IsMessage(H, c, n)
    ensures Sized(HeaderAt(H, c, n)) && IndexOf(HeaderAt(H, c, n)) == n
    ensures s.he || (HeaderAt(H, c, n).Clear? && HeaderAt(H, c, n).ver == 1 && TypeFits(s, HeaderAt(H, c, n)))
  {
    PartyFacts(H, me, s, ids, got);
    hide PartyOk, KeysDistinct, StashOk, RecvSide, HeaderSide;
    assert ChainOk(H, c);
  }

  /** A message of the current chain opens exactly if its key is within the bound. */
  lemma OpenCurrent(H: History, me: nat, s: State, w: State, ids: Ids, got: set<(nat, nat)>, c: nat, n: nat) returns (ids': Ids)
    requires me < 2 && PartyOk(H, me, w, ids, got) && IsMessage(H, c, n) && c == Own(H, me) - 1 && w.nr <= n
    requires w.ckr.Some? ==> w.dhr.Some?
    ensures var (o, v) := OpenOnChain(s, w, n, HeaderAt(H, c, n), BodyAt(H, c, n));
            if |w.skipped| + (n - w.nr) <= MAX_SKIP
            then o == Opened(H.chains[c].msgs[n].pt) && PartyOk(H, me, v, ids', got + {(c, n)})
                 && v.(skipped := w.skipped, ckr := w.ckr, nr := w.nr) == w
            else o == Fails(InvalidInput) && v == s
  {
    PartyFacts(H, me, w, ids, got);
    if |w.skipped| + (n - w.nr) <= MAX_SKIP {
      hide RecvSide, StashOk, HistoryOk;
      SkipStep(H, me, w, ids, got, n);
      ids' := ids + NewIds(c, w.nr, n - w.nr);
      hide PartyOk, SkipKeys, CkAt;
      ConsumeStep(H, me, SkipKeys(w, n).s, ids', got);
    } else {
      ids' := ids;
    }
  }

  /** Reaching the peer's next chain: finish the current one, then step. */
  lemma AdvanceNext(H: History, me: nat, s: State, ids: Ids, got: set<(nat, nat)>, c: nat, n: nat, rnd: Rnd)
    returns (w: State, ids': Ids)
    requires me < 2 && PartyOk(H, me, s, ids, got) && IsMessage(H, c, n) && c == Own(H, me) + 1
    requires FreshKey(H, rnd.dh) && (s.ckr.Some? ==> s.dhr.Some?)
    ensures if |s.skipped| + Missing(H, me, s, c, 0) <= MAX_SKIP
            then Advance(s, HeaderAt(H, c, n), rnd) == Ok(w) && w.nr == 0 && w.dhs == rnd.dh
                 && PartyOk(Extend(H, w), me, w, ids', got) && |w.skipped| == |s.skipped| + Missing(H, me, s, c, 0)
                 && (H.pq ==> w.kem.own == NextKemKey(H, c + 1, s.kem.own, rnd))
            else Advance(s, HeaderAt(H, c, n), rnd) == Err(InvalidInput)
  {
    PartyFacts(H, me, s, ids, got);
    var (r, h) := (Own(H, me) - 1, HeaderAt(H, c, n));
    w, ids' := s, ids;
    AdvanceIsStep(H, me, s, ids, got, c, n, rnd);
    if |s.skipped| + Missing(H, me, s, c, 0) <= MAX_SKIP {
      hide StashOk, HistoryOk;
      var v := s;
      if r >= 0 {
        SkipStep(H, me, s, ids, got, PnAt(H, c));
        ids' := ids + NewIds(r, s.nr, PnAt(H, c) - s.nr);
        v := SkipKeys(s, PnAt(H, c)).s;
      }
      PartyFacts(H, me, v, ids', got);
      hide PartyOk, SkipKeys, RecvSide;
      w := if s.he then DhRatchetHe(v, h.bdh, rnd).s else DhRatchet(v, h.dh, PartAt(H, c), rnd).s;
      RatchetStep(H, me, v, ids', got, w, rnd);
    }
  }

  /** On a message of the next chain both forms skip to pn and step with the header's key. */
  lemma AdvanceIsStep(H: History, me: nat, s: State, ids: Ids, got: set<(nat, nat)>, c: nat, n: nat, rnd: Rnd)
    requires me < 2 && PartyOk(H, me, s, ids, got) && IsMessage(H, c, n) && c == Own(H, me) + 1
    requires s.ckr.Some? ==> s.dhr.Some?
    ensures var h := HeaderAt(H, c, n);
            Advance(s, h, rnd) ==
            match SkipKeys(s, PnAt(H, c))
            case Err(rc) => Err(rc)
            case Ok(v) => if s.he then DhRatchetHe(v, h.bdh, rnd) else DhRatchet(v, h.dh, PartAt(H, c), rnd)
    ensures var h := HeaderAt(H, c, n);
            if s.he then h.Boxed? && h.bdh == Pub(KeyAt(H, c)) else h.Clear? && h.dh == Pub(KeyAt(H, c))
  {
    PartyFacts(H, me, s, ids, got);
    hide PartyOk, StashOk, SkipKeys, DhRatchet, DhRatchetHe, KemOk;
    var r := Own(H, me) - 1;
    assert ChainOk(H, c);
    if s.he {
      HeaderKeysDiffer(H, r, c);
    } else {
      PartType(H, c);
    }
  }

  lemma PartType(H: History, c: nat)
    requires HistoryOk(H) && c < |H.chains|
    ensures (if TypeAt(H, c) == TYPE_PQ_FULL then PartAt(H, c) else None) == PartAt(H, c)
  {
    hide KeysDistinct;
    assert ChainOk(H, c);
  }

  lemma HeaderKeysDiffer(H: History, c: int, d: nat)
    requires HistoryOk(H) && c < d < |H.chains| + 2
    ensures c >= 0 ==> HkAt(H, c) != HkAt(H, d)
  {
    hide HistoryOk;
    if c >= 2 {
      DepthOfRoot(H, c - 2);
      DepthOfRoot(H, d - 2);
    }
  }

  /** A pending message opens to what was sealed if and only if it fits the skip bound; otherwise
      nothing changes. Its chain is stashed or current, or the receiver steps and opens a new one. */
  lemma PendingDelivered(H: History, me: nat, s: State, ids: Ids, got: set<(nat, nat)>, c: nat, n: nat, rnd: Rnd)
    returns (ids': Ids)
    requires me < 2 && PartyOk(H, me, s, ids, got) && Pending(H, me, c, n, got) && FreshKey(H, rnd.dh)
    requires |H.chains| >= 1 && Sized(HeaderAt(H, c, n)) && (s.ckr.Some? ==> s.dhr.Some?)
    ensures var (o, w) := Decrypt(s, HeaderAt(H, c, n), BodyAt(H, c, n), rnd);
            if Fits(H, me, s, c, n)
            then o == Opened(H.chains[c].msgs[n].pt)
                 && PartyOk(if c == Own(H, me) + 1 then Extend(H, w) else H, me, w, ids', got + {(c, n)})
                 && w.dhs == (if c == Own(H, me) + 1 then rnd.dh else s.dhs)
                 && (c == Own(H, me) + 1 && H.pq ==> w.kem.own == NextKemKey(H, c + 1, s.kem.own, rnd))
            else o == Fails(InvalidInput) && w == s
  {
    PartyFacts(H, me, s, ids, got);
    var (r, h, b) := (Own(H, me) - 1, HeaderAt(H, c, n), BodyAt(H, c, n));
    GenuineShape(H, me, s, ids, got, c, n);
    DecryptShape(s, h, b, rnd);
    LookupGenuine(H, me, s, ids, got, c, n);
    hide PartyOk, Decrypt, LookupOf, HistoryOk, DistinctIds, EntryAt;
    ids' := ids;
    if (c, n) in ids {
      var i := LookupOf(s, h).value;
      OpensOwnEntry(H, me, s, ids, got, c, n, i);
      StashedStep(H, me, s, ids, got, i);
      ids' := DropId(ids, i);
    } else {
      assert !Due(H, r, s.nr, c, n);
      hide StashOk;
      if c == r {
        ids' := OpenCurrent(H, me, s, s, ids, got, c, n);
      } else {
        assert c == r + 2;
        ids' := OpenNext(H, me, s, ids, got, c, n, rnd);
      }
    }
  }

  lemma OpensOwnEntry(H: History, me: nat, s: State, ids: Ids, got: set<(nat, nat)>, c: nat, n: nat, i: nat)
    requires me < 2 && PartyOk(H, me, s, ids, got) && IsMessage(H, c, n) && i < |ids| && ids[i] == (c, n)
    ensures i < |s.skipped| && |s.skipped| <= MAX_SKIP && c < Own(H, me)
    ensures Missing(H, me, s, c, n) == 0
    ensures OpenStashed(s, i, HeaderAt(H, c, n), BodyAt(H, c, n)) ==
            (Opened(H.chains[c].msgs[n].pt), s.(skipped := RemoveAt(s.skipped, i)))
  {
    PartyFacts(H, me, s, ids, got);
    hide PartyOk, HistoryOk, Covered, DistinctIds, RecvSide;
    assert Due(H, Own(H, me) - 1, s.nr, ids[i].0, ids[i].1);
  }

  lemma OpenNext(H: History, me: nat, s: State, ids: Ids, got: set<(nat, nat)>, c: nat, n: nat, rnd: Rnd) returns (ids': Ids)
    requires me < 2 && PartyOk(H, me, s, ids, got) && IsMessage(H, c, n) && c == Own(H, me) + 1
    requires FreshKey(H, rnd.dh) && |H.chains| >= 1 && (s.ckr.Some? ==> s.dhr.Some?)
    ensures var h := HeaderAt(H, c, n);
            var (o, w) := match Advance(s, h, rnd)
                          case Err(rc) => (Fails(rc), s)
                          case Ok(w) => OpenOnChain(s, w, n, h, BodyAt(H, c, n));
            if Fits(H, me, s, c, n)
            then o == Opened(H.chains[c].msgs[n].pt) && PartyOk(Extend(H, w), me, w, ids', got + {(c, n)}) && w.dhs == rnd.dh
                 && (H.pq ==> w.kem.own == NextKemKey(H, c + 1, s.kem.own, rnd))
            else o == Fails(InvalidInput) && w == s
  {
    ids' := ids;
    var w, ids1 := AdvanceNext(H, me, s, ids, got, c, n, rnd);
    hide PartyOk, Advance;
    assert Missing(H, me, s, c, n) == Missing(H, me, s, c, 0) + n;
    if |s.skipped| + Missing(H, me, s, c, 0) <= MAX_SKIP {
      var H' := Extend(H, w);
      SameMessage(H, w, c, n);
      PartyFacts(H', me, w, ids1, got);
      ids' := OpenCurrent(H', me, s, w, ids1, got, c, n);
    }
  }

  /** Adding a chain changes no message. */
  lemma SameMessage(H: History, w: State, c: nat, n: nat)
    requires IsMessage(H, c, n)
    ensures IsMessage(Extend(H, w), c, n)
    ensures HeaderAt(Extend(H, w), c, n) == HeaderAt(H, c, n) && BodyAt(Extend(H, w), c, n) == BodyAt(H, c, n)
  {
  }

  // ---------------------------------------------------------------------------
  // One party: everything else
  // ---------------------------------------------------------------------------

  /** What the network can deliver: any header with any body, except that a body sealed under a
      message key must come from a party (ideal AEAD). */
  ghost predicate FromWire(H: History, body: Body)
  {
    body.Sealed? ==> exists c: nat, n: nat :: IsMessage(H, c, n) && body == BodyAt(H, c, n)
  }

  /** Decryption that does not open leaves the session as it was. */
  lemma FailureKeepsState(s: State, h: Header, body: Body, rnd: Rnd)
    requires Sized(h) && (s.ckr.Some? ==> s.dhr.Some?)
    ensures Decrypt(s, h, body, rnd).0.Fails? ==> Decrypt(s, h, body, rnd).1 == s
  {
    hide AdvanceClear, AdvanceBoxed, SkipKeys, FindSkipped, FindBoxed;
  }

  /** The ratchet key and the two counters a header carries. */
  function KeyOf(h: Header): Pub
    requires !h.JunkHeader?
  {
    if h.Clear? then h.dh else h.bdh
  }

  function PrevOf(h: Header): nat
    requires !h.JunkHeader?
  {
    if h.Clear? then h.pn else h.bpn
  }

  /** A stashed key is for this header. */
  ghost predicate Stashed(s: State, h: Header)
  {
    exists i :: 0 <= i < |s.skipped| &&
      !h.JunkHeader? && s.skipped[i].n == IndexOf(h) && s.skipped[i].dh == KeyOf(h) && (s.he ==> HeaderOpens(s.skipped[i].hk, h))
  }

  /** Why a packet is refused whatever its body is: a header that is not of the session's kind or that none
      of its header keys opens; an index or chain length already passed; more keys to stash than the bound
      of 1000 leaves room for; a degenerate ratchet key; no chain to receive on. */
  ghost function HeaderRefusal(s: State, h: Header): Option<Rc>
  {
    if !s.he && !(h.Clear? && h.ver == 1 && TypeFits(s, h)) then Some(InvalidInput)
    else if Stashed(s, h) then None
    else if s.he && !HeaderOpens(s.hk.recv, h) && !HeaderOpens(s.hk.nextRecv, h) then Some(Integrity)
    else
      var turns := if s.he then !HeaderOpens(s.hk.recv, h) else s.dhr != Some(KeyOf(h));
      if turns then
        if s.ckr.Some? && PrevOf(h) < s.nr then Some(Integrity)
        else
          var left := if s.ckr.Some? then PrevOf(h) - s.nr else 0;
          if |s.skipped| + left > 1000 then Some(InvalidInput)
          else if KeyOf(h).Degenerate? then Some(CryptoError)
          else if |s.skipped| + left + IndexOf(h) > 1000 then Some(InvalidInput)
          else None
      else if s.ckr.None? || IndexOf(h) < s.nr then Some(Integrity)
      else if |s.skipped| + (IndexOf(h) - s.nr) > 1000 then Some(InvalidInput)
      else None
  }

  /** The answer to every packet in every session, with its code. */
  lemma DecryptReasons(s: State, h: Header, body: Body, rnd: Rnd)
    requires Sized(h) && (s.ckr.Some? ==> s.dhr.Some?) && |s.skipped| <= 1000
    ensures match HeaderRefusal(s, h)
      case Some(rc) => Decrypt(s, h, body, rnd).0 == Fails(rc)
      case None => BodyDecides(Decrypt(s, h, body, rnd).0, h, body)
  {
    DecryptShape(s, h, body, rnd);
    StashedIff(s, h);
    hide Decrypt, LookupOf, Stashed, Advance, OpenOnChain, BodyDecides, OpenBody;
    if LookupOf(s, h).Some? {
      BodyAnswer(s.skipped[LookupOf(s, h).value].mk, h, body);
    } else if s.he || h.Clear? {
      AdvanceReasons(s, h, rnd);
      if Advance(s, h, rnd).Ok? {
        OpenReasons(s, Advance(s, h, rnd).s, h, body);
        AdvanceRoom(s, h, rnd);
      }
    }
  }

  /** Only the body is left to decide: cut off, of this header and opened, or wrong. */
  ghost predicate BodyDecides(o: Outcome, h: Header, body: Body)
  {
    if body.TooShort? then o == Fails(InvalidInput)
    else o == Fails(Integrity) || (body.Sealed? && body.aad == h && body.n == IndexOf(h) && o == Opened(body.pt))
  }

  lemma BodyAnswer(mk: MsgKey, h: Header, body: Body)
    ensures BodyDecides(OpenBody(mk, IndexOf(h), h, body), h, body)
  {
  }

  lemma OpenReasons(s: State, w: State, h: Header, body: Body)
    requires w.ckr.Some? ==> w.dhr.Some?
    ensures var o := OpenOnChain(s, w, IndexOf(h), h, body).0;
      if w.ckr.None? || IndexOf(h) < w.nr then o == Fails(Integrity)
      else if |w.skipped| + (IndexOf(h) - w.nr) > 1000 then o == Fails(InvalidInput)
      else BodyDecides(o, h, body)
  {
    hide Stash, CkAt;
  }

  /** Why an advance fails. */
  lemma AdvanceReasons(s: State, h: Header, rnd: Rnd)
    requires (s.ckr.Some? ==> s.dhr.Some?) && |s.skipped| <= 1000 && (s.he || h.Clear?)
    ensures Advance(s, h, rnd).Ok? || Advance(s, h, rnd).rc ==
      (if (s.he && !HeaderOpens(s.hk.nextRecv, h)) || (s.ckr.Some? && PrevOf(h) < s.nr) then Integrity
       else if s.ckr.Some? && |s.skipped| + (PrevOf(h) - s.nr) > 1000 then InvalidInput
       else CryptoError)
    ensures Advance(s, h, rnd).Ok? <==>
      if s.he then
        || HeaderOpens(s.hk.recv, h)
        || (HeaderOpens(s.hk.nextRecv, h) && !h.bdh.Degenerate?
            && (s.ckr.Some? ==> s.nr <= h.bpn && |s.skipped| + (h.bpn - s.nr) <= 1000))
      else
        || s.dhr == Some(h.dh)
        || (!h.dh.Degenerate? && (s.ckr.Some? ==> s.nr <= h.pn && |s.skipped| + (h.pn - s.nr) <= 1000))
  {
    hide Stash, CkAt, KemSend, KemReceive;
  }

  lemma StashedIff(s: State, h: Header)
    ensures Stashed(s, h) ==> s.he || h.Clear? || h.Boxed?
    ensures s.he || h.Clear? ==> (LookupOf(s, h).Some? <==> Stashed(s, h))
    ensures LookupOf(s, h).Some? ==> s.skipped[LookupOf(s, h).value].n == IndexOf(h)
  {
    hide FindSkipped, FindBoxed;
  }

  /** What an advance leaves room for. */
  lemma AdvanceRoom(s: State, h: Header, rnd: Rnd)
    requires (s.ckr.Some? ==> s.dhr.Some?) && Advance(s, h, rnd).Ok?
    ensures var w := Advance(s, h, rnd).s;
      if (if s.he then HeaderOpens(s.hk.recv, h) else h.Clear? && s.dhr == Some(h.dh)) then w == s
      else w.ckr.Some? && w.nr == 0 && !h.JunkHeader?
           && |w.skipped| == |s.skipped| + (if s.ckr.Some? && PrevOf(h) >= s.nr then PrevOf(h) - s.nr else 0)
  {
    hide Stash, CkAt, KemSend, KemReceive;
  }

  /** Whatever header comes with it, a body opens only with its own header, and only if it is a
      message of the peer that was not opened before. */
  lemma OpenedOnlyPending(H: History, me: nat, s: State, ids: Ids, got: set<(nat, nat)>, h: Header, c: nat, n: nat, rnd: Rnd)
    requires me < 2 && PartyOk(H, me, s, ids, got) && Sized(h) && (s.ckr.Some? ==> s.dhr.Some?)
    requires IsMessage(H, c, n) && Decrypt(s, h, BodyAt(H, c, n), rnd).0.Opened?
    ensures h == HeaderAt(H, c, n) && Pending(H, me, c, n, got)
  {
    var body := BodyAt(H, c, n);
    PartyFacts(H, me, s, ids, got);
    DecryptShape(s, h, body, rnd);
    hide PartyOk, Decrypt, LookupOf, Advance, HistoryOk;
    var i := LookupOf(s, h);
    if i.Some? {
      StashedKey(H, me, s, ids, got, h, c, n, i.value);
    } else {
      ChainKey(H, me, s, ids, got, h, c, n, rnd);
    }
  }

  lemma ChainKey(H: History, me: nat, s: State, ids: Ids, got: set<(nat, nat)>, h: Header, c: nat, n: nat, rnd: Rnd)
    requires me < 2 && PartyOk(H, me, s, ids, got) && Sized(h) && (s.ckr.Some? ==> s.dhr.Some?)
    requires IsMessage(H, c, n) && LookupOf(s, h).None? && Decrypt(s, h, BodyAt(H, c, n), rnd).0.Opened?
    ensures h == HeaderAt(H, c, n) && Pending(H, me, c, n, got)
  {
    var body := BodyAt(H, c, n);
    DecryptShape(s, h, body, rnd);
    hide PartyOk, Decrypt, LookupOf, Advance, OpenOnChain, Pending, HeaderAt, CkAt;
    var w := Advance(s, h, rnd).s;
    AdvanceRoots(H, me, s, ids, got, h, rnd);
    OpenedOnChain(s, w, IndexOf(h), h, body);
    if w == s {
      CurrentKey(H, me, s, ids, got, c, n);
    } else {
      NextKey(H, me, s, ids, got, w.ckr.value.root, c, n);
    }
  }

  /** A message under a key ahead on the current receiving chain is a message of that chain not yet due. */
  lemma CurrentKey(H: History, me: nat, s: State, ids: Ids, got: set<(nat, nat)>, c: nat, n: nat)
    requires me < 2 && PartyOk(H, me, s, ids, got) && IsMessage(H, c, n)
    requires s.ckr.Some? && n >= s.nr && MkAt(H, c, n) == Mk(CkAt(s.ckr.value, n - s.nr))
    ensures Pending(H, me, c, n, got)
  {
    PartyFacts(H, me, s, ids, got);
    hide PartyOk, HistoryOk, StashOk, RootAt, CkAt;
    var r := Own(H, me) - 1;
    CkAtAdd(CkOf(RootAt(H, r)), s.nr, n - s.nr);
    MkInjective(H, c, n, r, n);
    NotYetDue(H, r, s, ids, got, n);
  }

  /** A message under a key of a chain just begun is one of the peer's next chain. */
  lemma NextKey(H: History, me: nat, s: State, ids: Ids, got: set<(nat, nat)>, root: RootKey, c: nat, n: nat)
    requires me < 2 && PartyOk(H, me, s, ids, got) && IsMessage(H, c, n)
    requires MkAt(H, c, n) == Mk(CkAt(CkOf(root), n)) && RootDepth(root) == Own(H, me) + 2
    ensures Pending(H, me, c, n, got)
  {
    PartyFacts(H, me, s, ids, got);
    hide PartyOk, HistoryOk, StashOk, RootAt, CkAt;
    CkInjective(root, n, RootAt(H, c), n);
    DepthOfRoot(H, c);
    NotYetReached(H, Own(H, me) - 1, s, ids, got, c, n);
  }

  lemma NotYetDue(H: History, r: int, s: State, ids: Ids, got: set<(nat, nat)>, n: nat)
    requires 0 <= r < |H.chains| && StashOk(H, r, s, ids, got) && n >= s.nr
    ensures (r as nat, n) !in got
  {
    hide EntriesOk, DistinctIds;
  }

  lemma NotYetReached(H: History, r: int, s: State, ids: Ids, got: set<(nat, nat)>, c: nat, n: nat)
    requires r < c < |H.chains| && StashOk(H, r, s, ids, got)
    ensures (c, n) !in got
  {
    hide EntriesOk, DistinctIds;
  }

  lemma StashedKey(H: History, me: nat, s: State, ids: Ids, got: set<(nat, nat)>, h: Header, c: nat, n: nat, i: nat)
    requires me < 2 && PartyOk(H, me, s, ids, got) && IsMessage(H, c, n) && i < |s.skipped|
    requires OpenStashed(s, i, h, BodyAt(H, c, n)).0.Opened?
    ensures h == HeaderAt(H, c, n) && Pending(H, me, c, n, got)
  {
    PartyFacts(H, me, s, ids, got);
    hide PartyOk, HistoryOk, Covered, DistinctIds, RecvSide, HeaderSide;
    var (d, k) := ids[i];
    assert Due(H, Own(H, me) - 1, s.nr, d, k);
    MkInjective(H, c, n, d, k);
  }

  lemma AdvanceRoots(H: History, me: nat, s: State, ids: Ids, got: set<(nat, nat)>, h: Header, rnd: Rnd)
    requires me < 2 && PartyOk(H, me, s, ids, got) && (s.ckr.Some? ==> s.dhr.Some?) && Advance(s, h, rnd).Ok?
    ensures var w := Advance(s, h, rnd).s;
            w == s || (w.nr == 0 && w.ckr.Some? && w.ckr.value.CkOf? && RootDepth(w.ckr.value.root) == Own(H, me) + 2)
  {
    PartyFacts(H, me, s, ids, got);
    hide PartyOk, HistoryOk, StashOk, RecvSide, HeaderSide, KemReceive, KemSend;
    DepthOfRoot(H, Own(H, me));
  }

  lemma OpenedOnChain(s: State, w: State, n: nat, h: Header, body: Body)
    requires (w.ckr.Some? ==> w.dhr.Some?) && OpenOnChain(s, w, n, h, body).0.Opened?
    ensures w.ckr.Some? && n >= w.nr && body.Sealed? && body.aad == h && body.n == n
    ensures body.mk == Mk(CkAt(w.ckr.value, n - w.nr))
  {
    hide CkAt;
  }

  // ---------------------------------------------------------------------------
  // Runs of both parties
  // ---------------------------------------------------------------------------

  /** Both sessions, the bodies each party has opened so far in order, and the history. */
  datatype Net = Net(h: History, s: seq<State>, read: seq<seq<Body>>)

  datatype Event = Send(who: nat, pt: Plain, salt: nat) | Deliver(who: nat, hdr: Header, body: Body, rnd: Rnd)

  ghost predicate NoRepeats(read: seq<Body>)
  {
    forall i, j :: 0 <= i < j < |read| ==> read[i] != read[j]
  }

  /** `got` is the set of messages whose bodies were opened. */
  ghost predicate ReadIs(H: History, me: nat, read: seq<Body>, got: set<(nat, nat)>)
  {
    && NoRepeats(read)
    && (forall b :: b in read ==> exists c: nat, n: nat :: IsMessage(H, c, n) && b == BodyAt(H, c, n) && c % 2 != me)
    && (forall c: nat, n: nat :: IsMessage(H, c, n) ==> (BodyAt(H, c, n) in read <==> (c, n) in got))
  }

  ghost predicate PartyIn(H: History, me: nat, s: State, read: seq<Body>)
    requires me < 2
  {
    exists ids: Ids, got: set<(nat, nat)> :: PartyOk(H, me, s, ids, got) && ReadIs(H, me, read, got)
  }

  ghost predicate NetOk(net: Net)
  {
    |net.s| == 2 && |net.read| == 2 && HistoryOk(net.h) && forall me: nat :: me < 2 ==> PartyIn(net.h, me, net.s[me], net.read[me])
  }

  /** A body opens at most once, and only at the party it was not sealed by. */
  lemma ReadAtMostOnce(net: Net, me: nat, i: nat, j: nat)
    requires NetOk(net) && me < 2 && i < j < |net.read[me]|
    ensures net.read[me][i] != net.read[me][j]
    ensures exists c: nat, n: nat :: IsMessage(net.h, c, n) && net.read[me][i] == BodyAt(net.h, c, n) && c % 2 != me
  {
    hide PartyOk;
    assert PartyIn(net.h, me, net.s[me], net.read[me]);
    assert net.read[me][i] in net.read[me];
  }

  /** A message of the peer that this party has not opened. */
  ghost predicate Unread(net: Net, me: nat, c: nat, n: nat)
    requires me < |net.read|
  {
    IsMessage(net.h, c, n) && c % 2 != me && BodyAt(net.h, c, n) !in net.read[me]
  }

  lemma SessionFacts(net: Net, me: nat)
    requires NetOk(net) && me < 2
    ensures |net.s| == 2 && |net.read| == 2
    ensures |net.h.chains| >= 1 && (net.s[me].ckr.Some? ==> net.s[me].dhr.Some?) && net.s[me].dhs == KeyAt(net.h, Own(net.h, me))
    ensures |net.s[me].skipped| <= MAX_SKIP
  {
    assert PartyIn(net.h, me, net.s[me], net.read[me]);
    var ids, got :| PartyOk(net.h, me, net.s[me], ids, got) && ReadIs(net.h, me, net.read[me], got);
    hide HistoryOk;
    PartyFacts(net.h, me, net.s[me], ids, got);
  }

  /** Delivery, in every reachable state and for every packet the network can form. A packet opens
      if and only if it is an unread message of the peer with its own header and fits the skip
      bound; it then yields exactly the sealed plaintext. Any other packet leaves the session as it
      was, so forged, replayed and reflected packets are no-ops. */
  lemma DeliveryIff(net: Net, me: nat, h: Header, body: Body, rnd: Rnd)
    requires NetOk(net) && me < 2 && Sized(h) && FromWire(net.h, body) && FreshKey(net.h, rnd.dh)
    requires |net.h.chains| >= 1 && (net.s[me].ckr.Some? ==> net.s[me].dhr.Some?)
    ensures var (o, w) := Decrypt(net.s[me], h, body, rnd);
            && (o.Fails? ==> w == net.s[me])
            && (o.Opened? <==> exists c: nat, n: nat :: Unread(net, me, c, n) && body == BodyAt(net.h, c, n) && h == HeaderAt(net.h, c, n)
                                                        && Fits(net.h, me, net.s[me], c, n))
            && (o.Opened? ==> body.Sealed? && o.pt == body.pt)
  {
    assert PartyIn(net.h, me, net.s[me], net.read[me]);
    var (H, s) := (net.h, net.s[me]);
    var ids, got :| PartyOk(H, me, s, ids, got) && ReadIs(H, me, net.read[me], got);
    hide PartyOk, HistoryOk, Fits, Decrypt, NetOk;
    FailureKeepsState(s, h, body, rnd);
    if Decrypt(s, h, body, rnd).0.Opened? {
      OpenedIsSealed(s, h, body, rnd);
      var c: nat, n: nat :| IsMessage(H, c, n) && body == BodyAt(H, c, n);
      OpenedOnlyPending(H, me, s, ids, got, h, c, n, rnd);
      var ids' := PendingDelivered(H, me, s, ids, got, c, n, rnd);
      assert Unread(net, me, c, n);
    }
    forall c: nat, n: nat | Unread(net, me, c, n) && body == BodyAt(H, c, n) && h == HeaderAt(H, c, n) && Fits(H, me, s, c, n)
      ensures Decrypt(s, h, body, rnd).0.Opened?
    {
      var ids' := PendingDelivered(H, me, s, ids, got, c, n, rnd);
    }
  }

  lemma OpenedIsSealed(s: State, h: Header, body: Body, rnd: Rnd)
    requires Sized(h) && (s.ckr.Some? ==> s.dhr.Some?) && Decrypt(s, h, body, rnd).0.Opened?
    ensures body.Sealed?
  {
    hide AdvanceClear, AdvanceBoxed, SkipKeys, FindSkipped, FindBoxed;
  }

  predicate CanSend(net: Net, me: nat)
    requires me < 2 && |net.h.chains| >= 1
  {
    Own(net.h, me) >= 0 ==> |net.h.chains[Own(net.h, me)].msgs| + 1 < U32
  }

  ghost predicate Enabled(net: Net, e: Event)
    requires |net.h.chains| >= 1
  {
    match e
    case Send(me, _, _) => me < 2 && CanSend(net, me)
    case Deliver(me, h, body, rnd) => me < 2 && Sized(h) && FromWire(net.h, body) && FreshKey(net.h, rnd.dh)
  }

  function Append(H: History, c: nat, m: Sent): (H': History)
    requires c < |H.chains|
    ensures |H'.chains| == |H.chains|
  {
    H.(chains := H.chains[c := H.chains[c].(msgs := H.chains[c].msgs + [m])])
  }

  /** One step: a party encrypts, or the network delivers a packet to it. */
  function Step(net: Net, e: Event): Net
    requires |net.s| == 2 && |net.read| == 2 && e.who < 2 && |net.h.chains| >= 1
    requires e.Deliver? ==> Sized(e.hdr) && (net.s[e.who].ckr.Some? ==> net.s[e.who].dhr.Some?)
  {
    var me := e.who;
    match e
    case Send(_, pt, salt) =>
      var (out, s') := Encrypt(net.s[me], pt, salt);
      if out.None? || Own(net.h, me) < 0 then net
      else net.(s := net.s[me := s'], h := Append(net.h, Own(net.h, me), Sent(pt, salt)))
    case Deliver(_, h, body, rnd) =>
      var (o, s') := Decrypt(net.s[me], h, body, rnd);
      if o.Fails? then net.(s := net.s[me := s'])
      else Net(if s'.dhs != net.s[me].dhs then Extend(net.h, s') else net.h, net.s[me := s'],
               net.read[me := net.read[me] + [body]])
  }

  // ---------------------------------------------------------------------------
  // Sending keeps the invariant
  // ---------------------------------------------------------------------------

  /** A newest chain may grow without changing any message already sent. */
  lemma AppendKeeps(H: History, a: nat, m: Sent, c: nat, n: nat)
    requires a < |H.chains| <= a + 2 && IsMessage(H, c, n)
    ensures IsMessage(Append(H, a, m), c, n)
    ensures HeaderAt(Append(H, a, m), c, n) == HeaderAt(H, c, n) && BodyAt(Append(H, a, m), c, n) == BodyAt(H, c, n)
  {
    var H' := Append(H, a, m);
    assert H'.chains[c].msgs[n] == H.chains[c].msgs[n];
    if c >= 2 {
      assert c - 2 != a;
    }
  }

  lemma AppendHistory(H: History, a: nat, m: Sent)
    requires HistoryOk(H) && a < |H.chains| && |H.chains[a].msgs| + 1 < U32
    ensures HistoryOk(Append(H, a, m))
  {
    var H' := Append(H, a, m);
    assert forall c :: InRange(H, c) ==> KeyAt(H', c) == KeyAt(H, c) && RootAt(H', c) == RootAt(H, c);
    forall c: nat | c < |H.chains|
      ensures ChainOk(H', c)
    {
      assert ChainOk(H, c);
    }
  }

  /** What is due on the chains up to r does not change when a chain a that is not before r grows. */
  lemma AppendStash(H: History, r: int, a: nat, m: Sent, s: State, s': State, ids: Ids, got: set<(nat, nat)>)
    requires r < |H.chains| && a < |H.chains| && StashOk(H, r, s, ids, got) && s'.skipped == s.skipped && s'.nr == s.nr
    requires a >= r || (r - a) % 2 != 0
    ensures StashOk(Append(H, a, m), r, s', ids, got)
  {
    var H' := Append(H, a, m);
    forall c: nat, n: nat | Due(H', r, s.nr, c, n) || Due(H, r, s.nr, c, n)
      ensures Due(H', r, s.nr, c, n) && Due(H, r, s.nr, c, n)
    {
    }
    forall i | 0 <= i < |ids|
      ensures EntryAt(H', ids[i].0, ids[i].1) == EntryAt(H, ids[i].0, ids[i].1)
    {
      assert Due(H, r, s.nr, ids[i].0, ids[i].1);
    }
  }

  /** Encryption refuses, changing nothing, before there is a sending chain and header key, and texts whose
      length is no int. */
  lemma EncryptsIff(s: State, pt: Plain, salt: nat)
    ensures Encrypt(s, pt, salt).0.Some? <==> s.cks.Some? && (s.he ==> s.hk.send.Some?) && |pt| <= 0x7fff_ffff
    ensures Encrypt(s, pt, salt).0.None? ==> Encrypt(s, pt, salt).1 == s
  {
  }

  /** In every reachable state a party can send exactly when it has opened a chain of its own: the
      initiator always, the responder once it has received. */
  lemma SendsIff(net: Net, me: nat, pt: Plain, salt: nat)
    requires NetOk(net) && me < 2
    ensures |net.s| == 2 && |net.h.chains| >= 1
    ensures Encrypt(net.s[me], pt, salt).0.Some? <==> Own(net.h, me) >= 0 && |pt| <= 0x7fff_ffff
  {
    SessionFacts(net, me);
    assert PartyIn(net.h, me, net.s[me], net.read[me]);
    hide HistoryOk, Encrypt, StashOk, RecvSide, KemSide;
    EncryptsIff(net.s[me], pt, salt);
  }

  /** Encryption sends the next genuine message of the own chain and keeps the sender's invariant. */
  lemma SendStep(H: History, me: nat, s: State, ids: Ids, got: set<(nat, nat)>, pt: Plain, salt: nat)
    requires me < 2 && PartyOk(H, me, s, ids, got) && |H.chains| >= 1 && Own(H, me) >= 0
    requires |H.chains[Own(H, me)].msgs| + 1 < U32 && |pt| <= MAX_TEXT
    ensures var a := Own(H, me);
            var (out, s') := Encrypt(s, pt, salt);
            var (H', n) := (Append(H, a, Sent(pt, salt)), |H.chains[a].msgs|);
            && PartyOk(H', me, s', ids, got)
            && IsMessage(H', a, n) && out == Some((HeaderAt(H', a, n), BodyAt(H', a, n)))
  {
    var a := Own(H, me);
    var m := Sent(pt, salt);
    AppendHistory(H, a, m);
    PartyFacts(H, me, s, ids, got);
    AppendStash(H, a - 1, a, m, s, Encrypt(s, pt, salt).1, ids, got);
    hide HistoryOk, StashOk;
    assert HistoryOk(H) ==> ChainOk(H, a) by {
      OneChain(H, a);
    }
    assert Own(Append(H, a, m), me) == a;
  }

  lemma OneChain(H: History, a: nat)
    requires a < |H.chains|
    ensures HistoryOk(H) ==> ChainOk(H, a)
  {
  }

  /** The other party's invariant does not notice a sent message. */
  lemma SendOther(H: History, me: nat, t: State, ids: Ids, got: set<(nat, nat)>, m: Sent)
    requires me < 2 && PartyOk(H, 1 - me, t, ids, got) && |H.chains| >= 1 && Own(H, me) >= 0
    requires |H.chains[Own(H, me)].msgs| + 1 < U32
    ensures PartyOk(Append(H, Own(H, me), m), 1 - me, t, ids, got)
  {
    var a := Own(H, me);
    AppendHistory(H, a, m);
    PartyFacts(H, 1 - me, t, ids, got);
    var b := Own(H, 1 - me);
    AppendStash(H, b - 1, a, m, t, t, ids, got);
    hide HistoryOk, StashOk;
    assert Own(Append(H, a, m), 1 - me) == b;
  }

  lemma AppendRead(H: History, me: nat, read: seq<Body>, got: set<(nat, nat)>, a: nat, m: Sent)
    requires ReadIs(H, me, read, got) && HistoryOk(H) && a < |H.chains| <= a + 2 && |H.chains[a].msgs| + 1 < U32
    requires (a, |H.chains[a].msgs|) !in got
    ensures ReadIs(Append(H, a, m), me, read, got)
  {
    hide HistoryOk, HeaderAt, MkAt;
    var H' := Append(H, a, m);
    var k := |H.chains[a].msgs|;
    AppendHistory(H, a, m);
    forall c: nat, n: nat | IsMessage(H, c, n)
      ensures IsMessage(H', c, n) && BodyAt(H', c, n) == BodyAt(H, c, n)
    {
      AppendKeeps(H, a, m, c, n);
    }
    forall b | b in read
      ensures exists c: nat, n: nat :: IsMessage(H', c, n) && b == BodyAt(H', c, n) && c % 2 != me
    {
      var c: nat, n: nat :| IsMessage(H, c, n) && b == BodyAt(H, c, n) && c % 2 != me;
      assert IsMessage(H', c, n) && b == BodyAt(H', c, n);
    }
    forall c: nat, n: nat | IsMessage(H', c, n) && !IsMessage(H, c, n)
      ensures c == a && n == k && BodyAt(H', c, n) !in read
    {
      if BodyAt(H', c, n) in read {
        var d: nat, j: nat :| IsMessage(H, d, j) && BodyAt(H', c, n) == BodyAt(H, d, j) && d % 2 != me;
        MkInjective(H', c, n, d, j);
      }
    }
  }

  lemma NewestNotGot(H: History, me: nat, who: nat, s: State, ids: Ids, got: set<(nat, nat)>)
    requires me < 2 && who < 2 && PartyOk(H, who, s, ids, got) && |H.chains| >= 1 && Own(H, me) >= 0
    ensures (Own(H, me) as nat, |H.chains[Own(H, me)].msgs|) !in got
  {
    PartyFacts(H, who, s, ids, got);
    hide HistoryOk, EntriesOk, DistinctIds, PartyOk;
  }

  lemma TwoParties(net: Net, me: nat)
    requires |net.s| == 2 && |net.read| == 2 && me < 2 && HistoryOk(net.h)
    requires PartyIn(net.h, me, net.s[me], net.read[me]) && PartyIn(net.h, 1 - me, net.s[1 - me], net.read[1 - me])
    ensures NetOk(net)
  {
    hide PartyIn, HistoryOk;
    forall who: nat | who < 2
      ensures PartyIn(net.h, who, net.s[who], net.read[who])
    {
      assert who == me || who == 1 - me;
    }
  }

  lemma SendParties(H: History, me: nat, s: State, t: State, read: seq<Body>, other: seq<Body>, pt: Plain, salt: nat)
    requires me < 2 && PartyIn(H, me, s, read) && PartyIn(H, 1 - me, t, other) && HistoryOk(H)
    requires |H.chains| >= 1 && Own(H, me) >= 0 && |H.chains[Own(H, me)].msgs| + 1 < U32 && |pt| <= MAX_TEXT
    ensures var H' := Append(H, Own(H, me), Sent(pt, salt));
            HistoryOk(H') && PartyIn(H', me, Encrypt(s, pt, salt).1, read) && PartyIn(H', 1 - me, t, other)
  {
    var m := Sent(pt, salt);
    var a := Own(H, me);
    var ids, got :| PartyOk(H, me, s, ids, got) && ReadIs(H, me, read, got);
    var jds, hot :| PartyOk(H, 1 - me, t, jds, hot) && ReadIs(H, 1 - me, other, hot);
    hide PartyOk, HistoryOk, ReadIs, Encrypt;
    SendStep(H, me, s, ids, got, pt, salt);
    SendOther(H, me, t, jds, hot, m);
    NewestNotGot(H, me, me, s, ids, got);
    NewestNotGot(H, me, 1 - me, t, jds, hot);
    AppendRead(H, me, read, got, a, m);
    AppendRead(H, 1 - me, other, hot, a, m);
    AppendHistory(H, a, m);
  }

  lemma SendKeepsNet(net: Net, e: Event)
    requires NetOk(net) && |net.h.chains| >= 1 && Enabled(net, e) && e.Send?
    ensures NetOk(Step(net, e))
  {
    hide PartyIn, HistoryOk, Encrypt;
    var (H, me) := (net.h, e.who);
    var net' := Step(net, e);
    if Own(H, me) >= 0 && Encrypt(net.s[me], e.pt, e.salt).0.Some? {
      EncryptsIff(net.s[me], e.pt, e.salt);
      SendParties(H, me, net.s[me], net.s[1 - me], net.read[me], net.read[1 - me], e.pt, e.salt);
      hide NetOk, Append;
      TwoParties(net', me);
    }
  }

  // ---------------------------------------------------------------------------
  // Delivery keeps the invariant
  // ---------------------------------------------------------------------------

  lemma OpenedRead(H: History, me: nat, read: seq<Body>, got: set<(nat, nat)>, c: nat, n: nat)
    requires ReadIs(H, me, read, got) && HistoryOk(H) && Pending(H, me, c, n, got)
    ensures ReadIs(H, me, read + [BodyAt(H, c, n)], got + {(c, n)})
  {
    hide HistoryOk, HeaderAt, MkAt;
    forall d: nat, j: nat | IsMessage(H, d, j) && BodyAt(H, d, j) == BodyAt(H, c, n)
      ensures (d, j) == (c, n)
    {
      MkInjective(H, d, j, c, n);
    }
  }

  lemma ExtendRead(H: History, me: nat, read: seq<Body>, got: set<(nat, nat)>, w: State)
    requires ReadIs(H, me, read, got)
    ensures ReadIs(Extend(H, w), me, read, got)
  {
    hide HeaderAt, MkAt, BodyAt, Extend;
    var H' := Extend(H, w);
    forall c: nat, n: nat
      ensures IsMessage(H', c, n) <==> IsMessage(H, c, n)
      ensures IsMessage(H, c, n) ==> BodyAt(H', c, n) == BodyAt(H, c, n)
    {
      SameMessages(H, w, c, n);
    }
    forall b | b in read
      ensures exists c: nat, n: nat :: IsMessage(H', c, n) && b == BodyAt(H', c, n) && c % 2 != me
    {
      var c: nat, n: nat :| IsMessage(H, c, n) && b == BodyAt(H, c, n) && c % 2 != me;
      assert IsMessage(H', c, n) && b == BodyAt(H', c, n);
    }
  }

  lemma SameMessages(H: History, w: State, c: nat, n: nat)
    ensures IsMessage(Extend(H, w), c, n) <==> IsMessage(H, c, n)
    ensures IsMessage(H, c, n) ==> BodyAt(Extend(H, w), c, n) == BodyAt(H, c, n)
  {
    if IsMessage(H, c, n) {
      SameMessage(H, w, c, n);
    }
  }

  /** The invariants of both parties after party me opened message n of chain c. */
  lemma DeliverParties(H: History, me: nat, s: State, t: State, read: seq<Body>, other: seq<Body>,
                       ids: Ids, got: set<(nat, nat)>, jds: Ids, hot: set<(nat, nat)>, c: nat, n: nat, rnd: Rnd)
    requires me < 2 && PartyOk(H, me, s, ids, got) && ReadIs(H, me, read, got)
    requires PartyOk(H, 1 - me, t, jds, hot) && ReadIs(H, 1 - me, other, hot)
    requires IsMessage(H, c, n) && Pending(H, me, c, n, got) && FreshKey(H, rnd.dh)
    requires |H.chains| >= 1 && Sized(HeaderAt(H, c, n)) && (s.ckr.Some? ==> s.dhr.Some?)
    requires Decrypt(s, HeaderAt(H, c, n), BodyAt(H, c, n), rnd).0.Opened?
    ensures var w := Decrypt(s, HeaderAt(H, c, n), BodyAt(H, c, n), rnd).1;
            var H' := if w.dhs != s.dhs then Extend(H, w) else H;
            HistoryOk(H') && PartyIn(H', me, w, read + [BodyAt(H, c, n)]) && PartyIn(H', 1 - me, t, other)
  {
    hide *;
    PartyFacts(H, me, s, ids, got);
    OwnKey(H, me, rnd.dh);
    var w := Decrypt(s, HeaderAt(H, c, n), BodyAt(H, c, n), rnd).1;
    var ids' := PendingDelivered(H, me, s, ids, got, c, n, rnd);
    OpenedRead(H, me, read, got, c, n);
    if c == Own(H, me) + 1 {
      PartyHistory(Extend(H, w), me, w, ids', got + {(c, n)});
      ExtendRead(H, me, read + [BodyAt(H, c, n)], got + {(c, n)}, w);
      ExtendRead(H, 1 - me, other, hot, w);
      OtherParity(H, me, c, n);
      OtherParty(H, me, w, t, jds, hot);
      PartyInBy(Extend(H, w), me, w, read + [BodyAt(H, c, n)], ids', got + {(c, n)});
      PartyInBy(Extend(H, w), 1 - me, t, other, jds, hot);
    } else {
      PartyInBy(H, me, w, read + [BodyAt(H, c, n)], ids', got + {(c, n)});
      PartyInBy(H, 1 - me, t, other, jds, hot);
    }
  }

  lemma PartyInBy(H: History, me: nat, s: State, read: seq<Body>, ids: Ids, got: set<(nat, nat)>)
    requires me < 2 && PartyOk(H, me, s, ids, got) && ReadIs(H, me, read, got)
    ensures PartyIn(H, me, s, read)
  {
  }

  lemma OwnKey(H: History, me: nat, key: nat)
    requires me < 2 && |H.chains| >= 1 && FreshKey(H, key)
    ensures KeyAt(H, Own(H, me)) != key
  {
  }

  lemma OtherParity(H: History, me: nat, c: nat, n: nat)
    requires me < 2 && |H.chains| >= 1 && IsMessage(H, c, n) && c == Own(H, me) + 1
    ensures |H.chains| % 2 == me
  {
  }

  lemma DeliverKeepsNet(net: Net, e: Event)
    requires NetOk(net) && |net.h.chains| >= 1 && Enabled(net, e) && e.Deliver?
    requires net.s[e.who].ckr.Some? ==> net.s[e.who].dhr.Some?
    ensures NetOk(Step(net, e))
  {
    var (H, me, s) := (net.h, e.who, net.s[e.who]);
    assert PartyIn(H, me, s, net.read[me]) && PartyIn(H, 1 - me, net.s[1 - me], net.read[1 - me]);
    var ids, got :| PartyOk(H, me, s, ids, got) && ReadIs(H, me, net.read[me], got);
    var jds, hot :| PartyOk(H, 1 - me, net.s[1 - me], jds, hot) && ReadIs(H, 1 - me, net.read[1 - me], hot);
    hide PartyOk, HistoryOk, ReadIs, Decrypt, PartyIn, Extend;
    FailureKeepsState(s, e.hdr, e.body, e.rnd);
    var net' := Step(net, e);
    if Decrypt(s, e.hdr, e.body, e.rnd).0.Opened? {
      OpenedIsSealed(s, e.hdr, e.body, e.rnd);
      var c: nat, n: nat :| IsMessage(H, c, n) && e.body == BodyAt(H, c, n);
      OpenedOnlyPending(H, me, s, ids, got, e.hdr, c, n, e.rnd);
      DeliverParties(H, me, s, net.s[1 - me], net.read[me], net.read[1 - me], ids, got, jds, hot, c, n, e.rnd);
      hide NetOk;
      TwoParties(net', me);
    } else {
      assert net'.s == net.s;
    }
  }

  lemma PartyHistory(H: History, me: nat, s: State, ids: Ids, got: set<(nat, nat)>)
    requires me < 2 && PartyOk(H, me, s, ids, got)
    ensures HistoryOk(H)
  {
  }

  // ---------------------------------------------------------------------------
  // Whole runs
  // ---------------------------------------------------------------------------

  /** A session just set up: chain 0 is open, nothing was sent. */
  function InitNet(he: bool, pq: bool, dh: nat, base: nat, kem: nat, baseKem: nat): Net
  {
    var s0 := InitInitiator(he, pq, dh, base, kem);
    var s1 := InitResponder(he, pq, base, baseKem);
    Net(History(he, pq, base, baseKem, [Chain(dh, s0.rk, s0.kem.own, pq, None, None, [])]), [s0, s1], [[], []])
  }

  lemma InitOk(he: bool, pq: bool, dh: nat, base: nat, kem: nat, baseKem: nat)
    requires !(he && pq) && dh != base
    ensures NetOk(InitNet(he, pq, dh, base, kem, baseKem)) && RotationsNew(InitNet(he, pq, dh, base, kem, baseKem).h)
  {
    var net := InitNet(he, pq, dh, base, kem, baseKem);
    var H := net.h;
    assert ChainOk(H, 0);
    assert HistoryOk(H);
    assert CkAt(CkOf(RootAt(H, 0)), 0) == CkOf(RootAt(H, 0));
    assert PartyOk(H, 0, net.s[0], [], {}) && ReadIs(H, 0, [], {});
    assert PartyOk(H, 1, net.s[1], [], {}) && ReadIs(H, 1, [], {});
    forall me: nat | me < 2
      ensures PartyIn(H, me, net.s[me], net.read[me])
    {
      assert me == 0 || me == 1;
    }
  }

  /** The state after a sequence of events, if each is possible when it happens. */
  ghost function Run(net: Net, events: seq<Event>): Option<Net>
    requires NetOk(net)
    decreases |events|
  {
    SessionFacts(net, 0);
    SessionFacts(net, 1);
    if events == [] then Some(net)
    else if !Enabled(net, events[0]) then None
    else
      StepKeepsNet(net, events[0]);
      Run(Step(net, events[0]), events[1..])
  }

  lemma StepKeepsNet(net: Net, e: Event)
    requires NetOk(net) && |net.h.chains| >= 1 && Enabled(net, e)
    requires e.Deliver? ==> (net.s[e.who].ckr.Some? ==> net.s[e.who].dhr.Some?)
    ensures NetOk(Step(net, e))
  {
    hide NetOk, Step;
    if e.Send? {
      SendKeepsNet(net, e);
    } else {
      DeliverKeepsNet(net, e);
    }
  }

  /** The invariant, and with it ReadAtMostOnce and DeliveryIff, holds after every run. */
  lemma {:induction false} RunOk(net: Net, events: seq<Event>)
    requires NetOk(net) && Run(net, events).Some?
    ensures NetOk(Run(net, events).value)
    decreases |events|
  {
    hide NetOk, Step;
    SessionFacts(net, 0);
    SessionFacts(net, 1);
    if events != [] {
      StepKeepsNet(net, events[0]);
      RunOk(Step(net, events[0]), events[1..]);
    }
  }

  /** The reading order only ever grows, so a body opened in a run never opens again in it. */
  lemma {:induction false} OpenedStaysOpened(net: Net, events: seq<Event>, me: nat)
    requires NetOk(net) && Run(net, events).Some? && me < 2
    ensures |net.read| == 2 && |Run(net, events).value.read| == 2
    ensures net.read[me] <= Run(net, events).value.read[me]
    decreases |events|
  {
    hide PartyIn, HistoryOk, Decrypt, Encrypt;
    SessionFacts(net, 0);
    SessionFacts(net, 1);
    if events != [] {
      StepKeepsNet(net, events[0]);
      OpenedStaysOpened(Step(net, events[0]), events[1..], me);
    }
  }

  /** Exactly once, over runs: a message opened before `later` is refused at every delivery after it,
      with any header, and the refusal changes nothing. */
  lemma NeverTwice(net: Net, later: seq<Event>, me: nat, i: nat, h: Header, rnd: Rnd)
    requires NetOk(net) && Run(net, later).Some? && me < 2 && |net.read| == 2 && i < |net.read[me]|
    requires NetOk(Run(net, later).value)
    requires Sized(h) && FreshKey(Run(net, later).value.h, rnd.dh)
    ensures var end := Run(net, later).value;
            && (end.s[me].ckr.Some? ==> end.s[me].dhr.Some?)
            && Decrypt(end.s[me], h, net.read[me][i], rnd).0.Fails?
            && Decrypt(end.s[me], h, net.read[me][i], rnd).1 == end.s[me]
  {
    hide Decrypt, HistoryOk, PartyIn, PartyOk, Run;
    var end := Run(net, later).value;
    OpenedStaysOpened(net, later, me);
    SessionFacts(end, me);
    var body := net.read[me][i];
    assert body in end.read[me];
    if Decrypt(end.s[me], h, body, rnd).0.Opened? {
      ReadIsSent(end, me, body);
      DeliveryIff(end, me, h, body, rnd);
    } else {
      FailureKeepsState(end.s[me], h, body, rnd);
    }
  }

  lemma ReadIsSent(net: Net, me: nat, body: Body)
    requires NetOk(net) && me < 2 && body in net.read[me]
    ensures FromWire(net.h, body)
  {
    hide PartyOk;
    assert PartyIn(net.h, me, net.s[me], net.read[me]);
  }

  // ---------------------------------------------------------------------------
  // How long a KEM secret lives
  // ---------------------------------------------------------------------------

  /** The last full chain of the same sender at or before chain c. */
  function LastFull(c: nat): (f: nat)
    ensures f <= c && (c - f) % 2 == 0 && (f <= 1 || StepsAt(f) % KEM_EVERY == 0)
    ensures StepsAt(f) <= StepsAt(c) && StepsAt(c) - StepsAt(f) <= StepsAt(c) % KEM_EVERY
    decreases c
  {
    if c <= 1 || StepsAt(c) % KEM_EVERY == 0 then c
    else
      assert StepsAt(c) == StepsAt(c - 2) + 1;
      LastFull(c - 2)
  }

  /** In every run the KEM secret mixed into chain c is the one encapsulated on the sender's last full
      chain, which lies fewer than KEM_EVERY of its ratchet steps back: no secret serves more than
      KEM_EVERY of them. Only the initiator's steps before its first rotation have none. */
  lemma {:induction false} SecretLifetime(H: History, c: nat)
    requires HistoryOk(H) && H.pq && c < |H.chains|
    ensures var f := LastFull(c);
            && H.chains[c].kem == H.chains[f].kem
            && StepsAt(c) - StepsAt(f) < KEM_EVERY
            && (H.chains[c].kem.Some? <==> f >= 1)
            && (f >= 1 ==> H.chains[f].ct.Some? && H.chains[f].ct.value.Encaps?
                           && H.chains[f].ct.value.to == KemPkAt(H, f - 1)
                           && H.chains[f].kem == Some(Shared(H.chains[f].ct.value.ss)))
    decreases c
  {
    hide KeysDistinct;
    assert ChainOk(H, c);
    if !(c <= 1 || StepsAt(c) % KEM_EVERY == 0) {
      SecretLifetime(H, c - 2);
    }
  }

  // ---------------------------------------------------------------------------
  // KEM key pairs are replaced
  // ---------------------------------------------------------------------------

  /** A newly drawn KEM key pair is none of those before. */
  predicate FreshKem(H: History, kem: nat)
  {
    forall c :: -1 <= c < |H.chains| ==> KemPkAt(H, c) != kem
  }

  /** Every chain that its sender opened with a rotation has a KEM key pair that no chain before had. */
  ghost predicate RotationsNew(H: History)
  {
    H.pq ==> forall c, d :: 1 < c < |H.chains| && StepsAt(c) % KEM_EVERY == 0 && -1 <= d < c ==> KemPkAt(H, d) != KemPkAt(H, c)
  }

  lemma ExtendRotations(H: History, w: State, c: nat, own: nat, rnd: Rnd)
    requires RotationsNew(H) && c == |H.chains| && FreshKem(H, rnd.kem)
    requires H.pq ==> w.kem.own == NextKemKey(H, c, own, rnd)
    ensures RotationsNew(Extend(H, w))
  {
    var H' := Extend(H, w);
    forall d | -1 <= d < |H.chains|
      ensures KemPkAt(H', d) == KemPkAt(H, d)
    {
    }
  }

  lemma StepRotates(net: Net, e: Event)
    requires NetOk(net) && RotationsNew(net.h) && |net.h.chains| >= 1 && Enabled(net, e) && |net.s| == 2 && |net.read| == 2
    requires e.Deliver? ==> FreshKem(net.h, e.rnd.kem) && (net.s[e.who].ckr.Some? ==> net.s[e.who].dhr.Some?)
    ensures RotationsNew(Step(net, e).h)
  {
    hide PartyOk, HistoryOk, Decrypt, Encrypt, ReadIs, Pending;
    var (H, me, s) := (net.h, e.who, net.s[e.who]);
    if e.Send? {
      if Own(H, me) >= 0 {
        AppendRotations(H, Own(H, me), Sent(e.pt, e.salt));
      }
    } else if Decrypt(s, e.hdr, e.body, e.rnd).0.Opened? {
      assert PartyIn(H, me, s, net.read[me]);
      var ids, got :| PartyOk(H, me, s, ids, got) && ReadIs(H, me, net.read[me], got);
      DeliverRotates(H, me, s, ids, got, e.hdr, e.body, e.rnd);
    }
  }

  lemma AppendRotations(H: History, a: nat, m: Sent)
    requires a < |H.chains| && RotationsNew(H)
    ensures RotationsNew(Append(H, a, m))
  {
    forall d | -1 <= d < |H.chains|
      ensures KemPkAt(Append(H, a, m), d) == KemPkAt(H, d)
    {
    }
  }

  lemma DeliverRotates(H: History, me: nat, s: State, ids: Ids, got: set<(nat, nat)>, h: Header, body: Body, rnd: Rnd)
    requires me < 2 && PartyOk(H, me, s, ids, got) && |H.chains| >= 1 && RotationsNew(H)
    requires Sized(h) && FromWire(H, body) && FreshKey(H, rnd.dh) && FreshKem(H, rnd.kem) && (s.ckr.Some? ==> s.dhr.Some?)
    requires Decrypt(s, h, body, rnd).0.Opened?
    ensures var w := Decrypt(s, h, body, rnd).1; w.dhs != s.dhs ==> RotationsNew(Extend(H, w))
  {
    hide PartyOk, HistoryOk, Decrypt, RotationsNew, Extend, Pending;
    OpenedIsSealed(s, h, body, rnd);
    var c: nat, n: nat :| IsMessage(H, c, n) && body == BodyAt(H, c, n);
    OpenedOnlyPending(H, me, s, ids, got, h, c, n, rnd);
    var w := Decrypt(s, h, body, rnd).1;
    var ids' := PendingDelivered(H, me, s, ids, got, c, n, rnd);
    PartyFacts(H, me, s, ids, got);
    if c == Own(H, me) + 1 {
      OtherParity(H, me, c, n);
      assert c + 1 == |H.chains|;
      ExtendRotations(H, w, c + 1, s.kem.own, rnd);
    }
  }

  /** The KEM key pairs drawn in the run are new ones when they are drawn. */
  ghost predicate DrawsNew(net: Net, events: seq<Event>)
    requires NetOk(net) && Run(net, events).Some?
    decreases |events|
  {
    SessionFacts(net, 0);
    SessionFacts(net, 1);
    events == [] ||
    (StepKeepsNet(net, events[0]);
     (events[0].Deliver? ==> FreshKem(net.h, events[0].rnd.kem)) && DrawsNew(Step(net, events[0]), events[1..]))
  }

  /** Over every run, each rotation advertises a KEM key pair never used before. */
  lemma {:induction false} RunRotates(net: Net, events: seq<Event>)
    requires NetOk(net) && Run(net, events).Some? && DrawsNew(net, events) && RotationsNew(net.h)
    ensures RotationsNew(Run(net, events).value.h)
    decreases |events|
  {
    hide NetOk, Step, RotationsNew, FreshKem;
    SessionFacts(net, 0);
    SessionFacts(net, 1);
    if events != [] {
      StepKeepsNet(net, events[0]);
      StepRotates(net, events[0]);
      RunRotates(Step(net, events[0]), events[1..]);
    }
  }

  /** So a KEM key pair serves its owner for fewer than KEM_EVERY further own steps: chain c advertises the
      pair of its sender's last full chain, and if that chain was opened by a rotation, the pair is none
      that was used before. */
  lemma {:induction false} KemKeyLifetime(H: History, c: nat)
    requires HistoryOk(H) && H.pq && RotationsNew(H) && c < |H.chains|
    ensures var f := LastFull(c);
            && StepsAt(c) - StepsAt(f) < KEM_EVERY
            && KemPkAt(H, c) == KemPkAt(H, f)
            && (f > 1 ==> forall d :: -1 <= d < f ==> KemPkAt(H, d) != KemPkAt(H, c))
    decreases c
  {
    hide KeysDistinct;
    assert ChainOk(H, c);
    if !(c <= 1 || StepsAt(c) % KEM_EVERY == 0) {
      KemKeyLifetime(H, c - 2);
    }
  }
}
