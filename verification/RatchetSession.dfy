/** The mutable session of src/ratchet.c: a struct changed in place, with a fixed array of skipped keys,
    and decryption on a working copy that is committed only after the tag verifies. Proved against
    the functions of module Ratchet. */
module RatchetSession {
  import opened Common
  import opened Ratchet

  const EMPTY: Skipped := Skipped(Pub(0), 0, Mk(CkOf(Sk)), None)

  class Session {
    var rk: RootKey
    var dhs: nat
    var dhr: Option<Pub>
    var cks: Option<ChainKey>
    var ckr: Option<ChainKey>
    var ns: nat
    var nr: nat
    var pn: nat
    var he: bool
    var hk: HeaderKeys
    var pq: bool
    var kem: KemState
    const skipped: array<Skipped>
    var nSkipped: nat

    ghost predicate Valid()
      reads this
    {
      skipped.Length == MAX_SKIP && nSkipped <= MAX_SKIP && (ckr.Some? ==> dhr.Some?)
    }

    ghost function Value(): (s: State)
      requires Valid()
      reads this, skipped
      ensures |s.skipped| <= MAX_SKIP && (s.ckr.Some? ==> s.dhr.Some?)
    {
      State(rk, dhs, dhr, cks, ckr, ns, nr, pn, he, hk, pq, kem, skipped[..nSkipped])
    }

    constructor Start(s: State)
      requires s.skipped == [] && (s.ckr.Some? ==> s.dhr.Some?)
      ensures Valid() && Value() == s && fresh(skipped)
    {
      rk, dhs, dhr, cks, ckr, ns, nr, pn := s.rk, s.dhs, s.dhr, s.cks, s.ckr, s.ns, s.nr, s.pn;
      he, hk, pq, kem, nSkipped := s.he, s.hk, s.pq, s.kem, 0;
      skipped := new Skipped[MAX_SKIP](_ => EMPTY);
    }

    /** The working copy. */
    constructor Copy(src: Session)
      requires src.Valid()
      ensures Valid() && Value() == src.Value() && fresh(skipped)
    {
      rk, dhs, dhr, cks, ckr, ns, nr, pn := src.rk, src.dhs, src.dhr, src.cks, src.ckr, src.ns, src.nr, src.pn;
      he, hk, pq, kem, nSkipped := src.he, src.hk, src.pq, src.kem, src.nSkipped;
      skipped := new Skipped[MAX_SKIP](i requires 0 <= i < MAX_SKIP && src.skipped.Length == MAX_SKIP reads src.skipped => src.skipped[i]);
    }

    /** Commits a working copy. */
    method Commit(src: Session)
      requires Valid() && src.Valid() && src != this && src.skipped != skipped
      modifies this, skipped
      ensures Valid() && Value() == old(src.Value())
    {
      CopyArray(src);
      CopyKeys(src);
      he, hk, pq, kem, nSkipped := src.he, src.hk, src.pq, src.kem, src.nSkipped;
    }

    method CopyArray(src: Session)
      requires Valid() && src.Valid() && src.skipped != skipped
      modifies skipped
      ensures skipped[..] == src.skipped[..]
    {
      forall i | 0 <= i < MAX_SKIP {
        skipped[i] := src.skipped[i];
      }
    }

    method CopyKeys(src: Session)
      requires src != this
      modifies `rk, `dhs, `dhr, `cks, `ckr, `ns, `nr, `pn
      ensures rk == src.rk && dhs == src.dhs && dhr == src.dhr && cks == src.cks && ckr == src.ckr
      ensures ns == src.ns && nr == src.nr && pn == src.pn
    {
      rk, dhs, dhr, cks, ckr, ns, nr, pn := src.rk, src.dhs, src.dhr, src.cks, src.ckr, src.ns, src.nr, src.pn;
    }

    method SkippedFind(dh: Pub, n: nat) returns (i: Option<nat>)
      requires Valid()
      ensures i == FindSkipped(Value().skipped, dh, n)
    {
      hide FindSkipped;
      var k := 0;
      ghost var es := Value().skipped;
      assert es[0..] == es;
      while k < nSkipped
        invariant k <= nSkipped
        invariant FindSkipped(es, dh, n) == Plus(FindSkipped(es[k..], dh, n), k)
      {
        FindSkippedUnfold(es[k..], dh, n);
        assert es[k..][1..] == es[k + 1..];
        if skipped[k].n == n && skipped[k].dh == dh {
          return Some(k);
        }
        k := k + 1;
      }
      assert es[k..] == [];
      FindSkippedUnfold([], dh, n);
      i := None;
    }

    method BoxedFind(h: Header) returns (i: Option<nat>)
      requires Valid()
      ensures i == FindBoxed(Value().skipped, h)
    {
      hide FindBoxed;
      var k := 0;
      ghost var es := Value().skipped;
      assert es[0..] == es;
      while k < nSkipped
        invariant k <= nSkipped
        invariant FindBoxed(es, h) == Plus(FindBoxed(es[k..], h), k)
      {
        FindBoxedUnfold(es[k..], h);
        assert es[k..][1..] == es[k + 1..];
        if HeaderOpens(skipped[k].hk, h) && skipped[k].n == h.bn && skipped[k].dh == h.bdh {
          return Some(k);
        }
        k := k + 1;
      }
      assert es[k..] == [];
      FindBoxedUnfold([], h);
      i := None;
    }

    /** Closes the gap left by entry i. */
    method SkippedRemove(i: nat)
      requires Valid() && i < nSkipped
      modifies this`nSkipped, skipped
      ensures Valid() && Value() == old(Value()).(skipped := RemoveAt(old(Value()).skipped, i))
    {
      hide RemoveAt;
      ghost var es := skipped[..nSkipped];
      var k := i;
      while k + 1 < nSkipped
        invariant i <= k < nSkipped == |es| <= skipped.Length
        invariant forall j :: 0 <= j < i ==> skipped[j] == es[j]
        invariant forall j :: i <= j < k ==> skipped[j] == es[j + 1]
        invariant forall j :: k <= j < |es| ==> skipped[j] == es[j]
      {
        skipped[k] := skipped[k + 1];
        k := k + 1;
      }
      nSkipped := nSkipped - 1;
      RemoveAtIs(skipped[..nSkipped], es, i);
    }

    /** Advances the receiving chain to `until`, stashing the keys passed over. */
    method SkipMessageKeys(until: nat) returns (err: Option<Rc>)
      requires Valid()
      modifies this`nSkipped, this`nr, this`ckr, skipped
      ensures Valid()
      ensures err.None? ==> SkipKeys(old(Value()), until) == Ok(Value())
      ensures err.Some? ==> SkipKeys(old(Value()), until) == Err(err.value) && Value() == old(Value())
    {
      if ckr.None? {
        return None;
      }
      if until < nr {
        return Some(Integrity);
      }
      if until - nr > MAX_SKIP || nSkipped + (until - nr) > MAX_SKIP {
        return Some(InvalidInput);
      }
      ghost var s := Value();
      ghost var keys := Stash(s.dhr.value, s.ckr.value, s.nr, until - s.nr, if s.he then s.hk.recv else None);
      assert skipped[..nSkipped] == s.skipped + keys[..0];
      while nr < until
        invariant s.nr <= nr <= until && nSkipped == |s.skipped| + (nr - s.nr)
        invariant ckr == Some(CkAt(s.ckr.value, nr - s.nr))
        invariant skipped[..nSkipped] == s.skipped + keys[..nr - s.nr]
      {
        var e := Skipped(dhr.value, nr, Mk(ckr.value), if he then hk.recv else None);
        assert e == keys[nr - s.nr];
        skipped[nSkipped] := e;
        ckr := Some(CkNext(ckr.value));
        nSkipped := nSkipped + 1;
        nr := nr + 1;
        assert skipped[..nSkipped] == skipped[..nSkipped - 1] + [e];
      }
      assert keys[..nr - s.nr] == keys;
      err := None;
    }

    /** Counters restart and the peer's new key is taken over. */
    method TakePeerKey(dh: Pub)
      modifies `pn, `ns, `nr, `dhr
      ensures pn == old(ns) && ns == 0 && nr == 0 && dhr == Some(dh)
    {
      pn := ns;
      ns := 0;
      nr := 0;
      dhr := Some(dh);
    }

    method ReceiveKem(part: Option<KemPart>)
      modifies `kem
      ensures kem == if pq then KemReceive(old(kem), part) else old(kem)
    {
      if pq && part.Some? {
        kem := kem.(peer := Some(part.value.pk));
        if part.value.haveCt != 0 {
          kem := kem.(ssRecv := Some(Decaps(kem.own, part.value.ct)));
        }
      }
    }

    method SendKem(rnd: Rnd)
      modifies `kem
      ensures kem == if pq then KemSend(old(kem), rnd) else old(kem)
    {
      if pq {
        kem := kem.(steps := (kem.steps + 1) % U32);
        var rotate := kem.steps % KEM_EVERY == 0;
        var mustAdvertise := !kem.advertised;
        if rotate {
          kem := kem.(own := rnd.kem);
        }
        kem := kem.(full := rotate || mustAdvertise, ct := None);
        if kem.full {
          kem := kem.(advertised := true);
          if kem.peer.Some? {
            kem := kem.(ct := Some(Encaps(kem.peer.value, rnd.ss)), ssSend := Some(Shared(rnd.ss)));
          }
        }
      }
    }

    method DhRatchetStep(dh: Pub, part: Option<KemPart>, rnd: Rnd) returns (ok: bool)
      requires Valid()
      modifies `rk, `dhs, `dhr, `cks, `ckr, `ns, `nr, `pn, `kem
      ensures Valid() && (ok <==> DhRatchet(old(Value()), dh, part, rnd).Ok?)
      ensures ok ==> Ok(Value()) == DhRatchet(old(Value()), dh, part, rnd)
      ensures !ok ==> var s := old(Value());
                      Value() == s.(pn := s.ns, ns := 0, nr := 0, dhr := Some(dh), kem := if pq then KemReceive(s.kem, part) else s.kem)
    {
      hide KemSend, KemReceive;
      TakePeerKey(dh);
      ReceiveKem(part);
      if dh.Degenerate? {
        return false;
      }
      NewReceivingChain(dh.id);
      NewSendingChain(dh.id, rnd);
      ok := true;
    }

    method NewReceivingChain(peer: nat)
      modifies `rk, `ckr
      ensures rk == Rk(old(rk), DhOf(dhs, peer), kem.ssRecv) && ckr == Some(CkOf(rk))
    {
      rk := Rk(rk, DhOf(dhs, peer), kem.ssRecv);
      ckr := Some(CkOf(rk));
    }

    /** Rotates the key pair and, by its cadence, the KEM keys, and starts the sending chain. */
    method NewSendingChain(peer: nat, rnd: Rnd)
      modifies `rk, `dhs, `cks, `kem
      ensures dhs == rnd.dh && kem == (if pq then KemSend(old(kem), rnd) else old(kem))
      ensures rk == Rk(old(rk), DhOf(dhs, peer), kem.ssSend) && cks == Some(CkOf(rk))
    {
      hide KemSend;
      dhs := rnd.dh;
      SendKem(rnd);
      rk := Rk(rk, DhOf(dhs, peer), kem.ssSend);
      cks := Some(CkOf(rk));
    }

    method PromoteHeaderKeys()
      modifies `hk
      ensures hk == old(hk).(send := old(hk.nextSend), recv := old(hk.nextRecv))
    {
      hk := hk.(send := hk.nextSend, recv := hk.nextRecv);
    }

    method DhRatchetHeStep(dh: Pub, rnd: Rnd) returns (ok: bool)
      requires Valid()
      modifies `rk, `dhs, `dhr, `cks, `ckr, `ns, `nr, `pn, `hk
      ensures Valid() && (ok <==> DhRatchetHe(old(Value()), dh, rnd).Ok?)
      ensures ok ==> Ok(Value()) == DhRatchetHe(old(Value()), dh, rnd)
      ensures !ok ==> var s := old(Value());
                      Value() == s.(pn := s.ns, ns := 0, nr := 0, dhr := Some(dh),
                                    hk := s.hk.(send := s.hk.nextSend, recv := s.hk.nextRecv))
    {
      TakePeerKey(dh);
      PromoteHeaderKeys();
      if dh.Degenerate? {
        return false;
      }
      ReceivingHalf(dh.id);
      dhs := rnd.dh;
      SendingHalf(dh.id);
      ok := true;
    }

    method ReceivingHalf(peer: nat)
      modifies `rk, `ckr, `hk
      ensures rk == Rk(old(rk), DhOf(dhs, peer), None) && ckr == Some(CkOf(rk)) && hk == old(hk).(nextRecv := Some(HkOf(rk)))
    {
      rk := Rk(rk, DhOf(dhs, peer), None);
      ckr := Some(CkOf(rk));
      hk := hk.(nextRecv := Some(HkOf(rk)));
    }

    method SendingHalf(peer: nat)
      modifies `rk, `cks, `hk
      ensures rk == Rk(old(rk), DhOf(dhs, peer), None) && cks == Some(CkOf(rk)) && hk == old(hk).(nextSend := Some(HkOf(rk)))
    {
      rk := Rk(rk, DhOf(dhs, peer), None);
      cks := Some(CkOf(rk));
      hk := hk.(nextSend := Some(HkOf(rk)));
    }

    method EncryptMessage(pt: Plain, salt: nat) returns (out: Option<(Header, Body)>)
      requires Valid()
      modifies this`cks, this`ns
      ensures Valid() && (out, Value()) == Encrypt(old(Value()), pt, salt)
    {
      if cks.None? || (he && hk.send.None?) {
        return None;
      }
      if |pt| > MAX_TEXT {
        return None;
      }
      var mk := Mk(cks.value);
      var typ := if !pq then TYPE_CLASSICAL else if kem.full then TYPE_PQ_FULL else TYPE_PQ_LITE;
      var hdr := if he then Boxed(hk.send.value, Pub(dhs), pn, ns, salt)
                 else Clear(1, typ, Pub(dhs), pn, ns,
                            if typ == TYPE_PQ_FULL
                            then Some(KemPart(kem.own, if kem.ct.Some? then 1 else 0, if kem.ct.Some? then kem.ct.value else PADDING))
                            else None);
      out := Some((hdr, Sealed(mk, ns, hdr, pt)));
      cks := Some(CkNext(cks.value));
      ns := (ns + 1) % U32;
    }

    /** Opens with a stashed key on a working copy. */
    method OpenFromStash(w: Session, i: nat, h: Header, body: Body) returns (o: Outcome)
      requires Valid() && w.Valid() && w != this && w.skipped != skipped && w.Value() == Value() && i < nSkipped
      modifies this, skipped, w, w.skipped
      ensures Valid() && (o, Value()) == OpenStashed(old(Value()), i, h, body)
    {
      assert w.skipped[..w.nSkipped][i] == w.skipped[i];
      assert w.Value().skipped[i] == w.skipped[i];
      o := OpenBody(w.skipped[i].mk, w.skipped[i].n, h, body);
      if o.Opened? {
        w.SkippedRemove(i);
        Commit(w);
      }
    }

    /** Skips to n on the working copy, derives the message key, opens, and commits on success. */
    method OpenFromChain(w: Session, n: nat, h: Header, body: Body) returns (o: Outcome)
      requires Valid() && w.Valid() && w != this && w.skipped != skipped
      modifies this, skipped, w, w.skipped
      ensures Valid() && (o, Value()) == OpenOnChain(old(Value()), old(w.Value()), n, h, body)
    {
      hide CkAt;
      var err := w.SkipMessageKeys(n);
      if err.Some? {
        return Fails(err.value);
      }
      if w.ckr.None? {
        return Fails(Integrity);
      }
      var mk := Mk(w.ckr.value);
      w.ckr := Some(CkNext(w.ckr.value));
      o := OpenBody(mk, n, h, body);
      if o.Opened? {
        w.nr := (w.nr + 1) % U32;
        Commit(w);
      }
    }

    method DecryptMessage(h: Header, body: Body, rnd: Rnd) returns (o: Outcome)
      requires Valid() && Sized(h)
      modifies this, skipped
      ensures Valid() && (o, Value()) == Decrypt(old(Value()), h, body, rnd)
    {
      if he {
        o := DecryptBoxed(h, body, rnd);
      } else {
        o := DecryptPlain(h, body, rnd);
      }
    }

    method DecryptPlain(h: Header, body: Body, rnd: Rnd) returns (o: Outcome)
      requires Valid() && Sized(h) && !he
      modifies this, skipped
      ensures Valid() && (o, Value()) == DecryptClear(old(Value()), h, body, rnd)
    {
      hide FindSkipped, SkipKeys, DhRatchet, OpenOnChain, OpenStashed;
      if !h.Clear? || h.ver != 1 {
        return Fails(InvalidInput);
      }
      if pq {
        if h.typ != TYPE_PQ_FULL && h.typ != TYPE_PQ_LITE {
          return Fails(InvalidInput);
        }
      } else if h.typ != TYPE_CLASSICAL {
        return Fails(InvalidInput);
      }
      var w := new Session.Copy(this);
      var i := w.SkippedFind(h.dh, h.n);
      if i.Some? {
        o := OpenFromStash(w, i.value, h, body);
        return;
      }
      if w.dhr != Some(h.dh) {
        var err := w.SkipMessageKeys(h.pn);
        if err.Some? {
          return Fails(err.value);
        }
        var ok := w.DhRatchetStep(h.dh, if h.typ == TYPE_PQ_FULL then h.kem else None, rnd);
        if !ok {
          DhFails(old(Value()), h.pn, h.dh, if h.typ == TYPE_PQ_FULL then h.kem else None, rnd);
          return Fails(CryptoError);
        }
      }
      o := OpenFromChain(w, h.n, h, body);
    }

    method DecryptBoxed(h: Header, body: Body, rnd: Rnd) returns (o: Outcome)
      requires Valid()
      modifies this, skipped
      ensures Valid() && (o, Value()) == DecryptHe(old(Value()), h, body, rnd)
    {
      hide FindBoxed, SkipKeys, DhRatchetHe, OpenOnChain, OpenStashed;
      var w := new Session.Copy(this);
      var i := w.BoxedFind(h);
      if i.Some? {
        o := OpenFromStash(w, i.value, h, body);
        return;
      }
      if HeaderOpens(w.hk.recv, h) {
      } else if HeaderOpens(w.hk.nextRecv, h) {
        var err := w.SkipMessageKeys(h.bpn);
        if err.Some? {
          return Fails(err.value);
        }
        var ok := w.DhRatchetHeStep(h.bdh, rnd);
        if !ok {
          DhHeFails(old(Value()), h.bpn, h.bdh, rnd);
          return Fails(CryptoError);
        }
      } else {
        return Fails(Integrity);
      }
      o := OpenFromChain(w, h.bn, h, body);
    }
  }

  function Plus(i: Option<nat>, k: nat): Option<nat>
  {
    if i.Some? then Some(i.value + k) else None
  }

  lemma FindSkippedUnfold(es: seq<Skipped>, dh: Pub, n: nat)
    ensures FindSkipped(es, dh, n) ==
            if es == [] then None else if es[0].n == n && es[0].dh == dh then Some(0) else Plus(FindSkipped(es[1..], dh, n), 1)
  {
  }

  lemma FindBoxedUnfold(es: seq<Skipped>, h: Header)
    ensures FindBoxed(es, h) ==
            if es == [] then None
            else if HeaderOpens(es[0].hk, h) && es[0].n == h.bn && es[0].dh == h.bdh then Some(0) else Plus(FindBoxed(es[1..], h), 1)
  {
  }

  lemma DhFails(s: State, pn: nat, dh: Pub, part: Option<KemPart>, rnd: Rnd)
    requires s.ckr.Some? ==> s.dhr.Some?
    ensures SkipKeys(s, pn).Ok? && DhRatchet(SkipKeys(s, pn).s, dh, part, rnd).Err? ==>
            DhRatchet(SkipKeys(s, pn).s, dh, part, rnd) == Err(CryptoError)
  {
  }

  lemma DhHeFails(s: State, pn: nat, dh: Pub, rnd: Rnd)
    requires s.ckr.Some? ==> s.dhr.Some?
    ensures SkipKeys(s, pn).Ok? && DhRatchetHe(SkipKeys(s, pn).s, dh, rnd).Err? ==>
            DhRatchetHe(SkipKeys(s, pn).s, dh, rnd) == Err(CryptoError)
  {
  }
}
