/** The plaintext stream inside a container (src/crypto_utils.c): metadata, contents, an optional
    signature trailer, optional padding. How the encryptor builds it and how it is taken apart. */
module Container {
  import opened Bytes
  import opened Common
  import opened Framing

  const META: nat := 288
  const INFO: nat := 271
  const PK: nat := 2592
  const SIG_MAX: nat := 4627
  const TRAILER: nat := PK + 2 + SIG_MAX
  const UNKNOWN: nat := U64 - 1

  /** Signatures: secret key and message; public key, message and signature. */
  datatype Signer = Signer(
    sign: (seq<byte>, seq<byte>) -> seq<byte>,
    verify: (seq<byte>, seq<byte>, seq<byte>) -> bool)

  // ---------------------------------------------------------------------------
  // Metadata
  // ---------------------------------------------------------------------------

  /** What the metadata says about the rest of the stream. */
  datatype Layout = Layout(signed: bool, padded: bool, contentLen: nat, padLen: nat)

  function LayoutOf(meta: seq<byte>): (l: Layout)
    requires |meta| == META
  {
    Layout(meta[0] / 2 % 2 == 1, meta[0] / 4 % 2 == 1, FromLittleEndian(meta[272..280]), FromLittleEndian(meta[280..288]))
  }

  /** Padding needs a declared length to strip, and flag and length must agree. */
  predicate Consistent(l: Layout)
  {
    !(l.padded && (l.contentLen == UNKNOWN || l.padLen == 0)) && !(!l.padded && l.padLen != 0)
  }

  /** The block the encryptor writes: flags, the file's name and attributes, the two lengths. */
  function MetaOf(l: Layout, named: bool, info: seq<byte>): (m: seq<byte>)
    requires |info| == INFO
    ensures |m| == META
  {
    [((if named then 1 else 0) + (if l.signed then 2 else 0) + (if l.padded then 4 else 0)) as byte]
    + info + LittleEndian(l.contentLen, 8) + LittleEndian(l.padLen, 8)
  }

  lemma MetaRoundTrip(l: Layout, named: bool, info: seq<byte>)
    requires |info| == INFO && l.contentLen < U64 && l.padLen < U64
    ensures LayoutOf(MetaOf(l, named, info)) == l
    ensures MetaOf(l, named, info)[0] % 2 == (if named then 1 else 0) && MetaOf(l, named, info)[1..1 + INFO] == info
  {
    hide LittleEndian, FromLittleEndian;
    ReadsBackLittle64(l.contentLen);
    ReadsBackLittle64(l.padLen);
    var m := MetaOf(l, named, info);
    assert m[272..280] == LittleEndian(l.contentLen, 8) && m[280..288] == LittleEndian(l.padLen, 8);
  }

  // ---------------------------------------------------------------------------
  // Taking a stream apart
  // ---------------------------------------------------------------------------

  function Min(a: nat, b: nat): nat
  {
    if a < b then a else b
  }

  /** A plain payload: contents up to the end. */
  predicate Pure(l: Layout)
  {
    !l.signed && !l.padded && l.contentLen == UNKNOWN
  }

  /** The parts of what follows the metadata: contents, trailer (or held-back tail), padding. */
  datatype Parts = Parts(contents: seq<byte>, held: seq<byte>, pad: nat)

  function Split(l: Layout, body: seq<byte>): Parts
  {
    if Pure(l) then Parts(body, [], 0)
    else if l.contentLen != UNKNOWN then
      var c := Min(|body|, l.contentLen);
      var t := if l.signed then Min(|body| - c, TRAILER) else 0;
      Parts(body[..c], body[c..c + t], |body| - c - t)
    else
      var h := Min(|body|, TRAILER);
      Parts(body[..|body| - h], body[|body| - h..], 0)
  }

  /** More payload than the metadata declares. */
  predicate Overlong(l: Layout, body: seq<byte>)
  {
    l.contentLen != UNKNOWN && Split(l, body).pad > l.padLen
  }

  /** The payload has every declared byte. */
  predicate Complete(l: Layout, body: seq<byte>)
  {
    if l.contentLen != UNKNOWN then
      |Split(l, body).contents| == l.contentLen && (l.signed ==> |Split(l, body).held| == TRAILER) && Split(l, body).pad == l.padLen
    else l.signed ==> |Split(l, body).held| == TRAILER
  }

  datatype Verdict = Good | Invalid | Forged

  /** The embedded signature against the header, the metadata and the contents; `pin` is the signer
      the caller insists on. */
  function Judge(s: Signer, header: seq<byte>, meta: seq<byte>, contents: seq<byte>, trailer: seq<byte>, pin: Option<seq<byte>>): Verdict
    requires |trailer| == TRAILER
  {
    var sl := FromLittleEndian(trailer[PK..PK + 2]);
    if sl == 0 || sl > SIG_MAX then Invalid
    else if !s.verify(trailer[..PK], header + meta + contents, trailer[PK + 2..PK + 2 + sl]) then Verdict.Forged
    else if pin.Some? && pin.value != trailer[..PK] then Verdict.Forged
    else Good
  }

  /** What a whole stream gives: the contents that reach the output, and the final verdict. */
  function TakeApart(s: Signer, header: seq<byte>, pin: Option<seq<byte>>, stream: seq<byte>): (seq<byte>, Verdict)
  {
    if |stream| < META then ([], Invalid)
    else
      var meta, body := stream[..META], stream[META..];
      var l := LayoutOf(meta);
      if !Consistent(l) then ([], Invalid)
      else
        var parts := Split(l, body);
        if Overlong(l, body) || !Complete(l, body) then (parts.contents, Invalid)
        else if !l.signed then (parts.contents, Good)
        else (parts.contents, Judge(s, header, meta, parts.contents, parts.held, pin))
  }

  // ---------------------------------------------------------------------------
  // Building a stream
  // ---------------------------------------------------------------------------

  /** signer_pub | u16 sig_len | sig, zero-padded */
  function TrailerOf(pk: seq<byte>, sig: seq<byte>): (t: seq<byte>)
    requires |pk| == PK && |sig| <= SIG_MAX
    ensures |t| == TRAILER
  {
    pk + LittleEndian(|sig|, 2) + sig + Zeros(SIG_MAX - |sig|)
  }

  datatype Identity = Identity(sk: seq<byte>, pk: seq<byte>)

  ghost predicate Lawful(s: Signer, id: Identity)
  {
    && |id.pk| == PK
    && forall m :: 0 < |s.sign(id.sk, m)| <= SIG_MAX && s.verify(id.pk, m, s.sign(id.sk, m))
  }

  /** The trailer of a stream, nothing when it is not signed. */
  function TrailerFor(s: Signer, id: Option<Identity>, header: seq<byte>, meta: seq<byte>, contents: seq<byte>): (t: seq<byte>)
    requires id.Some? ==> |id.value.pk| == PK && |s.sign(id.value.sk, header + meta + contents)| <= SIG_MAX
    ensures |t| == if id.Some? then TRAILER else 0
  {
    if id.None? then [] else TrailerOf(id.value.pk, s.sign(id.value.sk, header + meta + contents))
  }

  /** The stream the encryptor seals. */
  function StreamOf(meta: seq<byte>, contents: seq<byte>, trailer: seq<byte>, pad: seq<byte>): seq<byte>
  {
    meta + contents + trailer + pad
  }

  /** The layout declares what the stream holds; contents of unknown length are not padded. */
  predicate Declares(l: Layout, signed: bool, contents: seq<byte>, pad: seq<byte>)
  {
    && l.signed == signed && l.padded == (|pad| > 0) && l.padLen == |pad| < U64
    && (l.contentLen == UNKNOWN || l.contentLen == |contents|)
    && (l.contentLen == UNKNOWN ==> |pad| == 0)
    && l.contentLen < U64
  }

  /** For every content length, signed or not, padded or not, of known or unknown length: taking the
      encryptor's stream apart releases exactly the contents and accepts. */
  lemma StreamRoundTrip(s: Signer, id: Option<Identity>, header: seq<byte>, l: Layout, named: bool, info: seq<byte>,
      contents: seq<byte>, pad: seq<byte>, pin: Option<seq<byte>>)
    requires |info| == INFO && Declares(l, id.Some?, contents, pad)
    requires id.Some? ==> Lawful(s, id.value)
    requires pin.Some? && id.Some? ==> pin.value == id.value.pk
    ensures var meta := MetaOf(l, named, info);
      TakeApart(s, header, pin, StreamOf(meta, contents, TrailerFor(s, id, header, meta, contents), pad)) == (contents, Good)
  {
    hide MetaOf, TrailerFor, Judge, LayoutOf, Lawful;
    var meta := MetaOf(l, named, info);
    TrailerSized(s, id, header + meta + contents);
    var trailer := TrailerFor(s, id, header, meta, contents);
    var stream := StreamOf(meta, contents, trailer, pad);
    var body := contents + trailer + pad;
    MetaRoundTrip(l, named, info);
    assert stream[..META] == meta && stream[META..] == body;
    PartsOfStream(l, contents, trailer, pad);
    if id.Some? {
      JudgeGood(s, id.value, header, meta, contents, pin);
    }
  }

  lemma TrailerSized(s: Signer, id: Option<Identity>, m: seq<byte>)
    requires id.Some? ==> Lawful(s, id.value)
    ensures id.Some? ==> |id.value.pk| == PK && |s.sign(id.value.sk, m)| <= SIG_MAX
  {
  }

  lemma PartsOfStream(l: Layout, contents: seq<byte>, trailer: seq<byte>, pad: seq<byte>)
    requires Declares(l, l.signed, contents, pad) && |trailer| == if l.signed then TRAILER else 0
    ensures var body := contents + trailer + pad;
      Split(l, body) == Parts(contents, trailer, |pad|) && !Overlong(l, body) && Complete(l, body) && Consistent(l)
  {
    var body := contents + trailer + pad;
    assert body[..|contents|] == contents && body[|contents|..|contents| + |trailer|] == trailer;
  }

  lemma JudgeGood(s: Signer, id: Identity, header: seq<byte>, meta: seq<byte>, contents: seq<byte>, pin: Option<seq<byte>>)
    requires Lawful(s, id) && (pin.Some? ==> pin.value == id.pk)
    requires |s.sign(id.sk, header + meta + contents)| <= SIG_MAX
    ensures Judge(s, header, meta, contents, TrailerFor(s, Some(id), header, meta, contents), pin) == Good
  {
    hide LittleEndian, FromLittleEndian;
    var sig := s.sign(id.sk, header + meta + contents);
    var t := TrailerFor(s, Some(id), header, meta, contents);
    ReadsBackLittle16(|sig|);
    assert t[..PK] == id.pk && t[PK..PK + 2] == LittleEndian(|sig|, 2) && t[PK + 2..PK + 2 + |sig|] == sig;
  }

  /** Decrypting what was encrypted gives the contents: the frames open to the stream and the stream
      comes apart into the contents, accepted. */
  lemma DecryptsToContents(a: Aead, key: Key, s: Signer, id: Option<Identity>, header: seq<byte>, l: Layout, named: bool,
      info: seq<byte>, contents: seq<byte>, pad: seq<byte>, pin: Option<seq<byte>>)
    requires Exact(a) && |info| == INFO && Declares(l, id.Some?, contents, pad)
    requires id.Some? ==> Lawful(s, id.value)
    requires pin.Some? && id.Some? ==> pin.value == id.value.pk
    ensures id.Some? ==> |id.value.pk| == PK && |s.sign(id.value.sk, header + MetaOf(l, named, info) + contents)| <= SIG_MAX
    ensures var meta := MetaOf(l, named, info);
      var stream := StreamOf(meta, contents, TrailerFor(s, id, header, meta, contents), pad);
      var (got, status) := OpenFrom(a, key, header, 0, SealFrom(a, key, header, 0, stream));
      status == Done && TakeApart(s, header, pin, got) == (contents, Good)
  {
    hide MetaOf, TrailerFor, TakeApart, StreamOf, OpenFrom, SealFrom, Lawful;
    var meta := MetaOf(l, named, info);
    TrailerSized(s, id, header + meta + contents);
    OpensToStream(a, key, header, 0, StreamOf(meta, contents, TrailerFor(s, id, header, meta, contents), pad));
    StreamRoundTrip(s, id, header, l, named, info, contents, pad, pin);
  }

  // ---------------------------------------------------------------------------
  // Growing streams
  // ---------------------------------------------------------------------------

  /** The stream seen so far already breaks a declared rule: no later bytes repair it. */
  predicate Broken(stream: seq<byte>)
  {
    |stream| >= META
    && (!Consistent(LayoutOf(stream[..META])) || Overlong(LayoutOf(stream[..META]), stream[META..]))
  }

  /** The contents a stream seen so far has released. */
  function Released(stream: seq<byte>): seq<byte>
  {
    if |stream| < META || !Consistent(LayoutOf(stream[..META])) then []
    else Split(LayoutOf(stream[..META]), stream[META..]).contents
  }

  lemma OverlongStays(l: Layout, body: seq<byte>, more: seq<byte>)
    requires Overlong(l, body)
    ensures Overlong(l, body + more) && Split(l, body + more).contents == Split(l, body).contents
  {
    assert (body + more)[..l.contentLen] == body[..l.contentLen];
  }

  /** A broken stream stays broken and releases nothing more, so stopping at the first error loses
      nothing. */
  lemma BrokenStays(s: Signer, header: seq<byte>, pin: Option<seq<byte>>, stream: seq<byte>, more: seq<byte>)
    requires Broken(stream)
    ensures TakeApart(s, header, pin, stream + more) == (Released(stream), Invalid)
  {
    hide LayoutOf, Split, Judge;
    var all := stream + more;
    assert all[..META] == stream[..META] && all[META..] == stream[META..] + more;
    var l := LayoutOf(stream[..META]);
    if Consistent(l) {
      OverlongStays(l, stream[META..], more);
    }
  }

  lemma ReleasedOfPrefix(l: Layout, named: bool, info: seq<byte>, contents: seq<byte>, trailer: seq<byte>, pad: seq<byte>,
      seen: seq<byte>)
    requires |info| == INFO && Declares(l, l.signed, contents, pad) && |trailer| == if l.signed then TRAILER else 0
    requires seen <= StreamOf(MetaOf(l, named, info), contents, trailer, pad)
    ensures Released(seen) <= contents
  {
    hide MetaOf, LayoutOf;
    var meta := MetaOf(l, named, info);
    MetaRoundTrip(l, named, info);
    if |seen| >= META {
      var body := contents + trailer + pad;
      var stream := StreamOf(meta, contents, trailer, pad);
      assert stream[..META] == meta && stream[META..] == body;
      assert seen[..META] == meta && seen[META..] == body[..|seen| - META];
      assert body[..|contents|] == contents;
    }
  }

  /** Against any bytes without a forgery, the output holds at every moment a prefix of the contents,
      and the container is accepted only when the bytes are the encryptor's own. */
  lemma OnlyContentsReleased(a: Aead, key: Key, s: Signer, header: seq<byte>, l: Layout, named: bool, info: seq<byte>,
      contents: seq<byte>, trailer: seq<byte>, pad: seq<byte>, bytes: seq<byte>)
    requires Exact(a) && |info| == INFO && Declares(l, l.signed, contents, pad) && |trailer| == if l.signed then TRAILER else 0
    requires |bytes| < U64
    requires NoForgery(a, key, header, 0, StreamOf(MetaOf(l, named, info), contents, trailer, pad), bytes)
    ensures var stream := StreamOf(MetaOf(l, named, info), contents, trailer, pad);
      var (got, status) := OpenFrom(a, key, header, 0, bytes);
      && Released(got) <= contents
      && (status == Done <==> bytes == SealFrom(a, key, header, 0, stream))
  {
    hide MetaOf, OpenFrom, SealFrom, NoForgery, StreamOf, Released;
    var stream := StreamOf(MetaOf(l, named, info), contents, trailer, pad);
    ReaderExact(a, key, header, 0, stream, bytes);
    ReleasedOfPrefix(l, named, info, contents, trailer, pad, OpenFrom(a, key, header, 0, bytes).0);
  }
}
