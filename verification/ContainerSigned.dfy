/** What the verdict of the streaming sink (src/crypto_utils.c) says about the embedded sender signature: which
    streams are accepted, exactly, and what acceptance means when a key signs only what its owner signed. */
module ContainerSigned {
  import opened Bytes
  import opened Common
  import opened Container
  import opened Framing

  // ---------------------------------------------------------------------------
  // The trailer
  // ---------------------------------------------------------------------------

  /** The trailer begins with this key, the signature's length and the signature; the rest is not read. */
  ghost predicate Carries(trailer: seq<byte>, pk: seq<byte>, sig: seq<byte>)
  {
    |trailer| == TRAILER && |pk| == PK && 0 < |sig| <= 4627 && pk + LittleEndian(|sig|, 2) + sig <= trailer
  }

  /** A trailer that carries a signature is good exactly if that verifies under the carried key over header,
      metadata and contents, and the key is the pinned one; otherwise it is forged. */
  lemma JudgeExact(s: Signer, header: seq<byte>, meta: seq<byte>, contents: seq<byte>, trailer: seq<byte>,
                   pin: Option<seq<byte>>, pk: seq<byte>, sig: seq<byte>)
    requires Carries(trailer, pk, sig)
    ensures Judge(s, header, meta, contents, trailer, pin)
         == if s.verify(pk, header + meta + contents, sig) && pin in {None, Some(pk)} then Good else Verdict.Forged
  {
    hide LittleEndian, FromLittleEndian;
    ReadsBackLittle16(|sig|);
    var t := pk + LittleEndian(|sig|, 2) + sig;
    assert trailer[..PK] == t[..PK] == pk;
    assert trailer[PK..PK + 2] == t[PK..PK + 2] == LittleEndian(|sig|, 2);
    assert trailer[PK + 2..PK + 2 + |sig|] == t[PK + 2..] == sig;
  }

  /** A trailer is invalid exactly if it carries nothing. */
  lemma JudgeInvalidIff(s: Signer, header: seq<byte>, meta: seq<byte>, contents: seq<byte>, trailer: seq<byte>, pin: Option<seq<byte>>)
    requires |trailer| == TRAILER
    ensures Judge(s, header, meta, contents, trailer, pin) == Invalid <==> forall pk, sig :: !Carries(trailer, pk, sig)
  {
    hide LittleEndian, FromLittleEndian, Carries;
    if pk, sig :| Carries(trailer, pk, sig) {
      JudgeExact(s, header, meta, contents, trailer, pin, pk, sig);
    }
    if Judge(s, header, meta, contents, trailer, pin) != Invalid {
      var sl := FromLittleEndian(trailer[PK..PK + 2]);
      CarriesOwn(trailer, sl);
    }
  }

  lemma CarriesOwn(trailer: seq<byte>, sl: nat)
    requires |trailer| == TRAILER && sl == FromLittleEndian(trailer[PK..PK + 2]) && 0 < sl <= SIG_MAX
    ensures Carries(trailer, trailer[..PK], trailer[PK + 2..PK + 2 + sl])
  {
    hide LittleEndian, FromLittleEndian;
    WritesBackLittle(trailer[PK..PK + 2]);
    assert trailer[..PK] + trailer[PK..PK + 2] + trailer[PK + 2..PK + 2 + sl] == trailer[..PK + 2 + sl];
  }

  ghost predicate Signs(s: Signer, header: seq<byte>, meta: seq<byte>, contents: seq<byte>, trailer: seq<byte>, pin: Option<seq<byte>>)
  {
    exists pk, sig :: Carries(trailer, pk, sig) && s.verify(pk, header + meta + contents, sig) && pin in {None, Some(pk)}
  }

  lemma JudgeGoodIff(s: Signer, header: seq<byte>, meta: seq<byte>, contents: seq<byte>, trailer: seq<byte>, pin: Option<seq<byte>>)
    requires |trailer| == TRAILER
    ensures Judge(s, header, meta, contents, trailer, pin) == Good <==> Signs(s, header, meta, contents, trailer, pin)
  {
    hide Judge, Carries;
    JudgeInvalidIff(s, header, meta, contents, trailer, pin);
    forall pk, sig | Carries(trailer, pk, sig)
      ensures Judge(s, header, meta, contents, trailer, pin)
           == if s.verify(pk, header + meta + contents, sig) && pin in {None, Some(pk)} then Good else Verdict.Forged
    {
      JudgeExact(s, header, meta, contents, trailer, pin, pk, sig);
    }
  }

  // ---------------------------------------------------------------------------
  // Whole streams
  // ---------------------------------------------------------------------------

  /** The stream is these parts, and its metadata declares them. */
  ghost predicate Assembled(stream: seq<byte>, meta: seq<byte>, contents: seq<byte>, trailer: seq<byte>, pad: seq<byte>)
  {
    && |meta| == META && stream == StreamOf(meta, contents, trailer, pad)
    && var l := LayoutOf(meta);
    && Declares(l, l.signed, contents, pad) && |trailer| == if l.signed then TRAILER else 0
  }

  /** A declared stream releases its contents, and its trailer decides. */
  lemma TakesApart(s: Signer, header: seq<byte>, pin: Option<seq<byte>>, stream: seq<byte>,
                   meta: seq<byte>, contents: seq<byte>, trailer: seq<byte>, pad: seq<byte>)
    requires Assembled(stream, meta, contents, trailer, pad)
    ensures TakeApart(s, header, pin, stream)
         == (contents, if LayoutOf(meta).signed then Judge(s, header, meta, contents, trailer, pin) else Good)
  {
    hide LayoutOf, Judge;
    assert stream[..META] == meta && stream[META..] == contents + trailer + pad;
    PartsOfStream(LayoutOf(meta), contents, trailer, pad);
  }

  lemma LengthsFit(meta: seq<byte>)
    requires |meta| == META
    ensures LayoutOf(meta).contentLen < U64 && LayoutOf(meta).padLen < U64
  {
    hide FromLittleEndian;
    Widths();
    WritesBackLittle(meta[272..280]);
    WritesBackLittle(meta[280..288]);
  }

  /** A complete body that is not too long is contents, trailer and padding as declared. */
  lemma SplitParts(l: Layout, body: seq<byte>)
    requires Consistent(l) && l.contentLen < U64 && l.padLen < U64 && !Overlong(l, body) && Complete(l, body)
    ensures var parts := Split(l, body);
      && |parts.contents| + |parts.held| <= |body|
      && var pad := body[|parts.contents| + |parts.held|..];
         && body == parts.contents + parts.held + pad
         && Declares(l, l.signed, parts.contents, pad) && |parts.held| == if l.signed then TRAILER else 0
  {
    var parts := Split(l, body);
    assert body == parts.contents + parts.held + body[|parts.contents| + |parts.held|..];
  }

  /** Every other stream is invalid. */
  lemma OnlyAssembled(s: Signer, header: seq<byte>, pin: Option<seq<byte>>, stream: seq<byte>)
      returns (meta: seq<byte>, contents: seq<byte>, trailer: seq<byte>, pad: seq<byte>)
    requires TakeApart(s, header, pin, stream).1 != Invalid
    ensures Assembled(stream, meta, contents, trailer, pad)
  {
    hide Judge, LayoutOf, Split, Overlong, Complete, Declares, Consistent;
    meta := stream[..META];
    var body := stream[META..];
    var l := LayoutOf(meta);
    LengthsFit(meta);
    SplitParts(l, body);
    contents, trailer := Split(l, body).contents, Split(l, body).held;
    pad := body[|contents| + |trailer|..];
    assert stream == meta + body;
  }

  /** The stream is declared, has these contents, and is signed for header and pin if it says it is signed. */
  ghost predicate Genuine(s: Signer, header: seq<byte>, pin: Option<seq<byte>>, stream: seq<byte>, contents: seq<byte>)
  {
    exists meta, trailer, pad ::
      Assembled(stream, meta, contents, trailer, pad)
      && (LayoutOf(meta).signed ==> Signs(s, header, meta, contents, trailer, pin))
  }

  /** Exactly the genuine streams are accepted, with their contents. */
  lemma AcceptedIff(s: Signer, header: seq<byte>, pin: Option<seq<byte>>, stream: seq<byte>, contents: seq<byte>)
    ensures TakeApart(s, header, pin, stream) == (contents, Good) <==> Genuine(s, header, pin, stream, contents)
  {
    hide TakeApart, Judge, Signs, Assembled, LayoutOf;
    if TakeApart(s, header, pin, stream) == (contents, Good) {
      var meta, c, trailer, pad := OnlyAssembled(s, header, pin, stream);
      TakesApart(s, header, pin, stream, meta, c, trailer, pad);
      AssembledSizes(stream, meta, c, trailer, pad);
      if LayoutOf(meta).signed {
        JudgeGoodIff(s, header, meta, c, trailer, pin);
      }
    }
    if Genuine(s, header, pin, stream, contents) {
      var meta, trailer, pad :|
        Assembled(stream, meta, contents, trailer, pad)
        && (|meta| == META && LayoutOf(meta).signed ==> Signs(s, header, meta, contents, trailer, pin));
      TakesApart(s, header, pin, stream, meta, contents, trailer, pad);
      AssembledSizes(stream, meta, contents, trailer, pad);
      if LayoutOf(meta).signed {
        JudgeGoodIff(s, header, meta, contents, trailer, pin);
      }
    }
  }

  lemma AssembledSizes(stream: seq<byte>, meta: seq<byte>, contents: seq<byte>, trailer: seq<byte>, pad: seq<byte>)
    requires Assembled(stream, meta, contents, trailer, pad)
    ensures |meta| == META && |trailer| == if LayoutOf(meta).signed then TRAILER else 0
  {
  }

  /** The bytes are the frames of a genuine stream with these contents. */
  ghost predicate GenuineBytes(a: Aead, key: Key, s: Signer, header: seq<byte>, pin: Option<seq<byte>>, bytes: seq<byte>, contents: seq<byte>)
  {
    exists stream :: bytes == SealFrom(a, key, header, 0, stream) && Genuine(s, header, pin, stream, contents)
  }

  /** Decryption succeeds with the given contents exactly on such bytes. */
  lemma DecryptsIff(a: Aead, key: Key, s: Signer, header: seq<byte>, pin: Option<seq<byte>>, bytes: seq<byte>, contents: seq<byte>)
    requires Exact(a)
    ensures var (stream, status) := OpenFrom(a, key, header, 0, bytes);
      (status == Done && TakeApart(s, header, pin, stream) == (contents, Good))
      <==> GenuineBytes(a, key, s, header, pin, bytes, contents)
  {
    hide OpenFrom, SealFrom, TakeApart, Genuine;
    var (stream, status) := OpenFrom(a, key, header, 0, bytes);
    if status == Done && TakeApart(s, header, pin, stream) == (contents, Good) {
      AcceptsOnlyWritten(a, key, header, 0, bytes);
      AcceptedIff(s, header, pin, stream, contents);
    }
    if GenuineBytes(a, key, s, header, pin, bytes, contents) {
      var p :| bytes == SealFrom(a, key, header, 0, p) && Genuine(s, header, pin, p, contents);
      OpensToStream(a, key, header, 0, p);
      AcceptedIff(s, header, pin, p, contents);
    }
  }

  // ---------------------------------------------------------------------------
  // Whose contents, for whom
  // ---------------------------------------------------------------------------

  /** One recipient record: ephemeral key, KEM ciphertext, nonce, wrapped content key and tag. */
  const RECORD: nat := 32 + 1568 + 12 + 32 + 16

  /** magic(8) | count(1) | records */
  predicate HeaderOk(header: seq<byte>)
  {
    |header| >= 9 && |header| == 9 + header[8] as nat * RECORD
  }

  /** The signed message determines its three parts. */
  lemma SameParts(h: seq<byte>, m: seq<byte>, c: seq<byte>, h': seq<byte>, m': seq<byte>, c': seq<byte>)
    requires HeaderOk(h) && HeaderOk(h') && |m| == |m'| == META && h + m + c == h' + m' + c'
    ensures h == h' && m == m' && c == c'
  {
    var (t, t') := (h + m + c, h' + m' + c');
    assert t[8] == h[8] && t'[8] == h'[8];
    assert |h| == |h'|;
    assert t[..|h|] == h && t'[..|h|] == h';
    assert t[|h|..|h| + META] == m && t'[|h|..|h| + META] == m';
    assert t[|h| + META..] == c && t'[|h| + META..] == c';
  }

  /** Under pk the verifier accepts only what its owner signed: headers, metadata and contents. */
  ghost predicate OnlySigned(s: Signer, pk: seq<byte>, signed: set<(seq<byte>, seq<byte>, seq<byte>)>)
  {
    forall msg, sig :: s.verify(pk, msg, sig) ==>
      exists t :: t in signed && HeaderOk(t.0) && |t.1| == META && msg == t.0 + t.1 + t.2
  }

  /** The trailer of a signed stream names pk as the signer. */
  ghost predicate Names(stream: seq<byte>, meta: seq<byte>, contents: seq<byte>, trailer: seq<byte>, pad: seq<byte>, pk: seq<byte>)
  {
    Assembled(stream, meta, contents, trailer, pad) && LayoutOf(meta).signed && exists sig :: Carries(trailer, pk, sig)
  }

  /** A stream that names pk is accepted only with contents and metadata that pk's owner signed for this very
      header, and under this very pin if there is one; everything else is forged, and it is never invalid. */
  lemma NamedSigner(s: Signer, header: seq<byte>, pin: Option<seq<byte>>, stream: seq<byte>, meta: seq<byte>,
                    contents: seq<byte>, trailer: seq<byte>, pad: seq<byte>, pk: seq<byte>,
                    signed: set<(seq<byte>, seq<byte>, seq<byte>)>)
    requires Names(stream, meta, contents, trailer, pad, pk) && OnlySigned(s, pk, signed) && HeaderOk(header)
    ensures TakeApart(s, header, pin, stream) in {(contents, Good), (contents, Verdict.Forged)}
    ensures (header, meta, contents) !in signed || pin !in {None, Some(pk)} ==>
      TakeApart(s, header, pin, stream) == (contents, Verdict.Forged)
  {
    hide TakeApart, Judge, Assembled, LayoutOf, HeaderOk, Carries;
    AssembledSizes(stream, meta, contents, trailer, pad);
    TakesApart(s, header, pin, stream, meta, contents, trailer, pad);
    var sig :| Carries(trailer, pk, sig);
    JudgeExact(s, header, meta, contents, trailer, pin, pk, sig);
    if s.verify(pk, header + meta + contents, sig) {
      var t :| t in signed && HeaderOk(t.0) && |t.1| == META && header + meta + contents == t.0 + t.1 + t.2;
      SameParts(header, meta, contents, t.0, t.1, t.2);
    }
  }

  /** With a pin, acceptance says that the pinned key's owner signed these contents for this header exactly
      if the metadata says the stream is signed: an unsigned stream is not asked for a signer. */
  lemma PinnedIsSigned(s: Signer, header: seq<byte>, pk: seq<byte>, stream: seq<byte>, meta: seq<byte>, contents: seq<byte>,
                       trailer: seq<byte>, pad: seq<byte>, signed: set<(seq<byte>, seq<byte>, seq<byte>)>)
    requires Assembled(stream, meta, contents, trailer, pad) && OnlySigned(s, pk, signed) && HeaderOk(header)
    ensures |meta| == META
    ensures TakeApart(s, header, Some(pk), stream).1 == Good ==>
      (LayoutOf(meta).signed <==> exists sig :: Carries(trailer, pk, sig) && s.verify(pk, header + meta + contents, sig))
    ensures TakeApart(s, header, Some(pk), stream).1 == Good && LayoutOf(meta).signed ==> (header, meta, contents) in signed
  {
    hide TakeApart, Judge, Assembled, LayoutOf, HeaderOk, Carries;
    AssembledSizes(stream, meta, contents, trailer, pad);
    TakesApart(s, header, Some(pk), stream, meta, contents, trailer, pad);
    if LayoutOf(meta).signed && TakeApart(s, header, Some(pk), stream).1 == Good {
      JudgeGoodIff(s, header, meta, contents, trailer, Some(pk));
      var k, sig :| Carries(trailer, k, sig) && s.verify(k, header + meta + contents, sig) && Some(pk) in {None, Some(k)};
      assert Names(stream, meta, contents, trailer, pad, pk);
      NamedSigner(s, header, Some(pk), stream, meta, contents, trailer, pad, pk, signed);
    } else if !LayoutOf(meta).signed {
      NothingCarried(trailer, pk);
    }
  }

  lemma NothingCarried(trailer: seq<byte>, pk: seq<byte>)
    requires |trailer| != TRAILER
    ensures forall sig :: !Carries(trailer, pk, sig)
  {
  }

  /** Any contents, unsigned, are accepted under any pin. */
  lemma UnsignedPassesPin(s: Signer, header: seq<byte>, pin: Option<seq<byte>>, contents: seq<byte>, info: seq<byte>)
      returns (stream: seq<byte>)
    requires |info| == INFO && |contents| < UNKNOWN
    ensures TakeApart(s, header, pin, stream) == (contents, Good)
  {
    hide MetaOf, LayoutOf, TakeApart;
    var l := Layout(false, false, |contents|, 0);
    MetaRoundTrip(l, false, info);
    stream := StreamOf(MetaOf(l, false, info), contents, [], []);
    TakesApart(s, header, pin, stream, MetaOf(l, false, info), contents, [], []);
  }
}
