/** The Double Ratchet of src/ratchet.c in its classical, periodic-PQ and header-encrypted forms, with
    ideal cryptography: keys are terms, Diffie-Hellman commutes, decapsulation undoes encapsulation,
    and a box opens under its own key, nonce and header only. */
module Ratchet {
  import opened Common

  const MAX_SKIP: nat := 1000
  const KEM_EVERY: nat := 8

  const TYPE_CLASSICAL: nat := 2
  const TYPE_PQ_FULL: nat := 3
  const TYPE_PQ_LITE: nat := 4

  /** INT32_MAX: longer texts cannot be sent. */
  const MAX_TEXT: nat := 0x7fff_ffff

  type Plain = seq<byte>

  // ---------------------------------------------------------------------------
  // Terms
  // ---------------------------------------------------------------------------

  /** An X25519 public key; a key pair is known by its number. `Degenerate` keys make x25519 fail. */
  datatype Pub = Pub(id: nat) | Degenerate(tag: nat)

  /** The shared value of two key pairs, in either order. */
  datatype Dh = Dh(lo: nat, hi: nat)

  function DhOf(own: nat, peer: nat): Dh
  {
    if own <= peer then Dh(own, peer) else Dh(peer, own)
  }

  /** A KEM ciphertext: made by encapsulating secret `ss` to key pair `to`, or arbitrary bytes. */
  datatype KemCt = Encaps(to: nat, ss: nat) | Bytes(tag: nat)

  /** A KEM secret; decapsulating a foreign ciphertext gives an unrelated value. */
  datatype Kss = Shared(id: nat) | Reject(own: nat, ct: KemCt)

  function Decaps(own: nat, ct: KemCt): Kss
  {
    if ct.Encaps? && ct.to == own then Shared(ct.ss) else Reject(own, ct)
  }

  /** Exactly the ciphertexts encapsulated to a key pair decapsulate to the secret they were made with. */
  lemma DecapsIff(own: nat, ct: KemCt, ss: nat)
    ensures Decaps(own, ct) == Shared(ss) <==> ct == Encaps(own, ss)
  {
  }

  /** kdf_rk(rk, dh [|| kem]): the call is named by the root key it returns; its other two output
      blocks are CkOf and HkOf of that name. */
  datatype RootKey = Sk | Rk(rk: RootKey, dh: Dh, kem: Option<Kss>)
  datatype ChainKey = CkOf(root: RootKey) | CkNext(of: ChainKey)
  datatype MsgKey = Mk(of: ChainKey)
  datatype HeaderKey = HkA | NhkB | HkOf(root: RootKey)

  /** i steps of the chain. */
  function CkAt(ck: ChainKey, i: nat): ChainKey
  {
    if i == 0 then ck else CkNext(CkAt(ck, i - 1))
  }

  datatype KemPart = KemPart(pk: nat, haveCt: nat, ct: KemCt)

  /** A header on the wire: in clear, or an AEAD box under a header key. */
  datatype Header = Clear(ver: nat, typ: nat, dh: Pub, pn: nat, n: nat, kem: Option<KemPart>)
                  | Boxed(hk: HeaderKey, bdh: Pub, bpn: nat, bn: nat, salt: nat)
                  | JunkHeader(tag: nat)

  /** Callers pass as many header bytes as the type byte announces. */
  predicate Sized(h: Header)
  {
    h.Clear? ==> (h.typ == TYPE_PQ_FULL <==> h.kem.Some?)
  }

  /** ct || tag: sealed under a message key with the whole header as associated data, or other bytes. */
  datatype Body = Sealed(mk: MsgKey, n: nat, aad: Header, pt: Plain) | JunkBody(tag: nat) | TooShort

  datatype Rc = InvalidInput | Integrity | CryptoError
  datatype Outcome = Opened(pt: Plain) | Fails(rc: Rc)

  function OpenBody(mk: MsgKey, n: nat, h: Header, body: Body): Outcome
  {
    if body.TooShort? then Fails(InvalidInput)
    else if body.Sealed? && body.mk == mk && body.n == n && body.aad == h then Opened(body.pt)
    else Fails(Integrity)
  }

  // ---------------------------------------------------------------------------
  // Sessions
  // ---------------------------------------------------------------------------

  datatype Skipped = Skipped(dh: Pub, n: nat, mk: MsgKey, hk: Option<HeaderKey>)

  datatype HeaderKeys = HeaderKeys(send: Option<HeaderKey>, recv: Option<HeaderKey>,
                                   nextSend: Option<HeaderKey>, nextRecv: Option<HeaderKey>)

  datatype KemState = KemState(own: nat, peer: Option<nat>, ct: Option<KemCt>, ssSend: Option<Kss>,
                               ssRecv: Option<Kss>, full: bool, advertised: bool, steps: nat)

  datatype State = State(rk: RootKey, dhs: nat, dhr: Option<Pub>, cks: Option<ChainKey>, ckr: Option<ChainKey>,
                         ns: nat, nr: nat, pn: nat, he: bool, hk: HeaderKeys, pq: bool, kem: KemState,
                         skipped: seq<Skipped>)

  /** Randomness of one call: a DH key pair, a KEM key pair, an encapsulated secret. */
  datatype Rnd = Rnd(dh: nat, kem: nat, ss: nat)

  const NO_HEADER_KEYS := HeaderKeys(None, None, None, None)

  function NoKem(own: nat): KemState
  {
    KemState(own, None, None, None, None, false, false, 0)
  }

  /** The three pairs of init functions; `own` is the KEM key pair generated when pq is set. */
  function InitInitiator(he: bool, pq: bool, dh: nat, peer: nat, own: nat): State
  {
    var r := Rk(Sk, DhOf(dh, peer), None);
    State(r, dh, Some(Pub(peer)), Some(CkOf(r)), None, 0, 0, 0,
          he, if he then HeaderKeys(Some(HkA), None, Some(HkOf(r)), Some(NhkB)) else NO_HEADER_KEYS,
          pq, if pq then NoKem(own).(full := true, advertised := true) else NoKem(0), [])
  }

  function InitResponder(he: bool, pq: bool, dh: nat, own: nat): State
  {
    State(Sk, dh, None, None, None, 0, 0, 0,
          he, if he then HeaderKeys(None, None, Some(NhkB), Some(HkA)) else NO_HEADER_KEYS,
          pq, if pq then NoKem(own) else NoKem(0), [])
  }

  datatype Res = Ok(s: State) | Err(rc: Rc)

  /** The entries a chain key yields for indices from .. from + count - 1. */
  function Stash(dh: Pub, ck: ChainKey, from: nat, count: nat, hk: Option<HeaderKey>): (es: seq<Skipped>)
    ensures |es| == count
  {
    seq(count, i requires 0 <= i < count => Skipped(dh, from + i, Mk(CkAt(ck, i)), hk))
  }

  function SkipKeys(s: State, until: nat): Res
    requires s.ckr.Some? ==> s.dhr.Some?
  {
    if s.ckr.None? then Ok(s)
    else if until < s.nr then Err(Integrity)
    else if until - s.nr > MAX_SKIP || |s.skipped| + (until - s.nr) > MAX_SKIP then Err(InvalidInput)
    else Ok(s.(skipped := s.skipped + Stash(s.dhr.value, s.ckr.value, s.nr, until - s.nr, if s.he then s.hk.recv else None),
               ckr := Some(CkAt(s.ckr.value, until - s.nr)),
               nr := until))
  }

  /** The KEM half of the receiving step: learn the peer's key, decapsulate if a ciphertext came. */
  function KemReceive(k: KemState, part: Option<KemPart>): KemState
  {
    if part.None? then k
    else k.(peer := Some(part.value.pk),
            ssRecv := if part.value.haveCt != 0 then Some(Decaps(k.own, part.value.ct)) else k.ssRecv)
  }

  /** The KEM half of the sending step: rotate by cadence, encapsulate on full runs. */
  function KemSend(k: KemState, rnd: Rnd): KemState
  {
    var steps := (k.steps + 1) % U32;
    var rotate := steps % KEM_EVERY == 0;
    var full := rotate || !k.advertised;
    var renew := full && k.peer.Some?;
    KemState(if rotate then rnd.kem else k.own, k.peer,
             if renew then Some(Encaps(k.peer.value, rnd.ss)) else None,
             if renew then Some(Shared(rnd.ss)) else k.ssSend,
             k.ssRecv, full, k.advertised || full, steps)
  }

  function DhRatchet(s: State, dh: Pub, part: Option<KemPart>, rnd: Rnd): Res
  {
    if dh.Degenerate? then Err(CryptoError)
    else
      var kr := if s.pq then KemReceive(s.kem, part) else s.kem;
      var r1 := Rk(s.rk, DhOf(s.dhs, dh.id), kr.ssRecv);
      var ks := if s.pq then KemSend(kr, rnd) else kr;
      var r2 := Rk(r1, DhOf(rnd.dh, dh.id), ks.ssSend);
      Ok(s.(rk := r2, dhs := rnd.dh, dhr := Some(dh), cks := Some(CkOf(r2)), ckr := Some(CkOf(r1)),
            pn := s.ns, ns := 0, nr := 0, kem := ks))
  }

  function DhRatchetHe(s: State, dh: Pub, rnd: Rnd): Res
  {
    if dh.Degenerate? then Err(CryptoError)
    else
      var r1 := Rk(s.rk, DhOf(s.dhs, dh.id), None);
      var r2 := Rk(r1, DhOf(rnd.dh, dh.id), None);
      Ok(s.(rk := r2, dhs := rnd.dh, dhr := Some(dh), cks := Some(CkOf(r2)), ckr := Some(CkOf(r1)),
            pn := s.ns, ns := 0, nr := 0,
            hk := HeaderKeys(s.hk.nextSend, s.hk.nextRecv, Some(HkOf(r2)), Some(HkOf(r1)))))
  }

  // ---------------------------------------------------------------------------
  // Messages
  // ---------------------------------------------------------------------------

  function TypeOf(s: State): nat
  {
    if !s.pq then TYPE_CLASSICAL else if s.kem.full then TYPE_PQ_FULL else TYPE_PQ_LITE
  }

  const PADDING: KemCt := Bytes(0)

  /** The header of the next message. */
  function NextHeader(s: State, salt: nat): Header
  {
    if s.he then Boxed(if s.hk.send.Some? then s.hk.send.value else HkA, Pub(s.dhs), s.pn, s.ns, salt)
    else Clear(1, TypeOf(s), Pub(s.dhs), s.pn, s.ns,
               if TypeOf(s) == TYPE_PQ_FULL
               then Some(KemPart(s.kem.own, if s.kem.ct.Some? then 1 else 0, if s.kem.ct.Some? then s.kem.ct.value else PADDING))
               else None)
  }

  function Encrypt(s: State, pt: Plain, salt: nat): (Option<(Header, Body)>, State)
  {
    if s.cks.None? || (s.he && s.hk.send.None?) || |pt| > MAX_TEXT then (None, s)
    else
      var h := NextHeader(s, salt);
      (Some((h, Sealed(Mk(s.cks.value), s.ns, h, pt))),
       s.(cks := Some(CkNext(s.cks.value)), ns := (s.ns + 1) % U32))
  }

  function FindSkipped(es: seq<Skipped>, dh: Pub, n: nat): (i: Option<nat>)
    ensures i.Some? ==> i.value < |es| && es[i.value].n == n && es[i.value].dh == dh
    ensures i.None? ==> forall j :: 0 <= j < |es| ==> !(es[j].n == n && es[j].dh == dh)
    decreases |es|
  {
    if es == [] then None
    else if es[0].n == n && es[0].dh == dh then Some(0)
    else
      var k := FindSkipped(es[1..], dh, n);
      assert forall j :: 1 <= j < |es| ==> es[j] == es[1..][j - 1];
      if k.Some? then Some(k.value + 1) else None
  }

  /** Opens under a stashed key; the entry is spent only if the tag verifies. */
  function OpenStashed(s: State, i: nat, h: Header, body: Body): (Outcome, State)
    requires i < |s.skipped|
  {
    var o := OpenBody(s.skipped[i].mk, s.skipped[i].n, h, body);
    (o, if o.Opened? then s.(skipped := RemoveAt(s.skipped, i)) else s)
  }

  /** Steps 3 and 4 of decryption: skip to n, derive the message key, open; `s` is what stays on
      failure, `w` the working copy. */
  function OpenOnChain(s: State, w: State, n: nat, h: Header, body: Body): (Outcome, State)
    requires w.ckr.Some? ==> w.dhr.Some?
  {
    match SkipKeys(w, n)
    case Err(rc) => (Fails(rc), s)
    case Ok(v) =>
      if v.ckr.None? then (Fails(Integrity), s)
      else
        var o := OpenBody(Mk(v.ckr.value), n, h, body);
        (o, if o.Opened? then v.(ckr := Some(CkNext(v.ckr.value)), nr := (v.nr + 1) % U32) else s)
  }

  /** Step 2: a new ratchet key finishes the old chain and steps the ratchet. */
  function AdvanceClear(s: State, h: Header, rnd: Rnd): (w: Res)
    requires h.Clear? && (s.ckr.Some? ==> s.dhr.Some?)
    ensures w.Ok? ==> (w.s.ckr.Some? ==> w.s.dhr.Some?)
  {
    if s.dhr == Some(h.dh) then Ok(s)
    else
      match SkipKeys(s, h.pn)
      case Err(rc) => Err(rc)
      case Ok(v) => DhRatchet(v, h.dh, if h.typ == TYPE_PQ_FULL then h.kem else None, rnd)
  }

  function DecryptClear(s: State, h: Header, body: Body, rnd: Rnd): (Outcome, State)
    requires Sized(h) && !s.he && (s.ckr.Some? ==> s.dhr.Some?)
  {
    if !h.Clear? || h.ver != 1 then (Fails(InvalidInput), s)
    else if s.pq && h.typ != TYPE_PQ_FULL && h.typ != TYPE_PQ_LITE then (Fails(InvalidInput), s)
    else if !s.pq && h.typ != TYPE_CLASSICAL then (Fails(InvalidInput), s)
    else
      var i := FindSkipped(s.skipped, h.dh, h.n);
      if i.Some? then OpenStashed(s, i.value, h, body)
      else
        match AdvanceClear(s, h, rnd)
        case Err(rc) => (Fails(rc), s)
        case Ok(w) => OpenOnChain(s, w, h.n, h, body)
  }

  /** he_header_open */
  predicate HeaderOpens(hk: Option<HeaderKey>, h: Header)
  {
    h.Boxed? && hk == Some(h.hk)
  }

  /** First stashed entry whose header key opens the header and whose key and index it names. */
  function FindBoxed(es: seq<Skipped>, h: Header): (i: Option<nat>)
    ensures i.Some? ==> i.value < |es| && HeaderOpens(es[i.value].hk, h) && es[i.value].n == h.bn && es[i.value].dh == h.bdh
    ensures i.None? ==> forall j :: 0 <= j < |es| ==> !(HeaderOpens(es[j].hk, h) && es[j].n == h.bn && es[j].dh == h.bdh)
    decreases |es|
  {
    if es == [] then None
    else if HeaderOpens(es[0].hk, h) && es[0].n == h.bn && es[0].dh == h.bdh then Some(0)
    else
      var k := FindBoxed(es[1..], h);
      assert forall j :: 1 <= j < |es| ==> es[j] == es[1..][j - 1];
      if k.Some? then Some(k.value + 1) else None
  }

  function AdvanceBoxed(s: State, h: Header, rnd: Rnd): (w: Res)
    requires s.ckr.Some? ==> s.dhr.Some?
    ensures w.Ok? ==> h.Boxed? && (w.s.ckr.Some? ==> w.s.dhr.Some?)
  {
    if HeaderOpens(s.hk.recv, h) then Ok(s)
    else if HeaderOpens(s.hk.nextRecv, h) then
      match SkipKeys(s, h.bpn)
      case Err(rc) => Err(rc)
      case Ok(v) => DhRatchetHe(v, h.bdh, rnd)
    else Err(Integrity)
  }

  function DecryptHe(s: State, h: Header, body: Body, rnd: Rnd): (Outcome, State)
    requires s.ckr.Some? ==> s.dhr.Some?
  {
    var i := FindBoxed(s.skipped, h);
    if i.Some? then OpenStashed(s, i.value, h, body)
    else
      match AdvanceBoxed(s, h, rnd)
      case Err(rc) => (Fails(rc), s)
      case Ok(w) => OpenOnChain(s, w, h.bn, h, body)
  }

  function Decrypt(s: State, h: Header, body: Body, rnd: Rnd): (Outcome, State)
    requires Sized(h) && (s.ckr.Some? ==> s.dhr.Some?)
  {
    if s.he then DecryptHe(s, h, body, rnd) else DecryptClear(s, h, body, rnd)
  }
}
