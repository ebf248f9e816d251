/** The encryptor's frame loop (src/crypto_utils.c): every frame is filled from four sources in turn,
    the metadata, the file, the signature trailer and the padding, and sealed. */
module ContainerWriter {
  import opened Common
  import opened Container
  import opened Framing

  /** The sealed full frames of a plaintext that is a whole number of frames. */
  function FullFrames(a: Aead, key: Key, aad: seq<byte>, p: seq<byte>): seq<byte>
  {
    if |p| < FRAME then []
    else FullFrames(a, key, aad, p[..|p| - FRAME]) + SealFrame(a, key, aad, |p| / FRAME - 1, p[|p| - FRAME..])
  }

  /** Sealing a stream is sealing its full frames and then the rest. */
  lemma {:induction false} FullThenRest(a: Aead, key: Key, aad: seq<byte>, p: seq<byte>, rest: seq<byte>)
    requires |p| % FRAME == 0
    ensures SealFrom(a, key, aad, 0, p + rest) == FullFrames(a, key, aad, p) + SealFrom(a, key, aad, |p| / FRAME, rest)
    decreases |p|
  {
    hide SealFrame;
    if |p| < FRAME {
      assert p + rest == rest;
    } else {
      var (q, f) := (p[..|p| - FRAME], p[|p| - FRAME..]);
      assert p + rest == q + (f + rest) && (f + rest)[..FRAME] == f && (f + rest)[FRAME..] == rest;
      FullThenRest(a, key, aad, q, f + rest);
      assert |q| / FRAME + 1 == |p| / FRAME;
    }
  }

  /** fread: at least one byte when one is wanted and left, never more than wanted. */
  method Fread(file: seq<byte>, pos: nat, want: nat) returns (n: nat)
    requires pos <= |file|
    ensures n <= want && pos + n <= |file|
    ensures n == 0 <==> want == 0 || pos == |file|
  {
    n := Min(want, |file| - pos);
  }

  lemma Grown(front: seq<byte>, t: seq<byte>, off: nat, take: nat)
    requires off + take <= |t|
    ensures front + t[..off + take] == front + t[..off] + t[off..off + take]
  {
  }

  /** The sources of a stream and how much of each was taken; `frame` is the frame being filled. */
  class Filler {
    const meta: seq<byte>
    const file: seq<byte>
    const declared: nat
    const pad: seq<byte>
    const s: Signer
    const id: Option<Identity>
    const header: seq<byte>
    var metaOff: nat
    var pos: nat
    var contentDone: bool
    var trailer: Option<seq<byte>>
    var trailerOff: nat
    var padOff: nat
    var frame: seq<byte>

    ghost predicate Valid()
      reads this
    {
      && |meta| == META && metaOff <= META && pos <= |file| && padOff <= |pad| && |frame| <= FRAME
      && (id.Some? ==> Lawful(s, id.value))
      && (declared != UNKNOWN ==> pos <= declared)
      && (contentDone ==> if declared != UNKNOWN then pos == declared else pos == |file|)
      && (trailer.Some? ==> contentDone && |trailer.value| == TRAILER && id.Some? && trailer.value == Trailer())
      && (trailerOff > 0 ==> trailer.Some? && trailerOff <= TRAILER)
      && (pos > 0 || contentDone ==> metaOff == META)
      && (padOff > 0 ==> contentDone && (id.Some? ==> trailerOff == TRAILER))
    }

    /** The trailer for the contents read so far. */
    ghost function Trailer(): (t: seq<byte>)
      reads this
      requires pos <= |file| && (id.Some? ==> Lawful(s, id.value))
      ensures |t| == if id.Some? then TRAILER else 0
    {
      TrailerSized(s, id, header + meta + file[..pos]);
      TrailerFor(s, id, header, meta, file[..pos])
    }

    /** What was taken of the sources before the padding. */
    ghost function Front(): seq<byte>
      requires Valid()
      reads this
    {
      meta[..metaOff] + file[..pos] + if trailer.Some? then trailer.value[..trailerOff] else []
    }

    /** Everything put into frames so far. */
    ghost function Consumed(): seq<byte>
      requires Valid()
      reads this
    {
      Front() + pad[..padOff]
    }

    /** All four sources are exhausted. */
    ghost predicate Finished()
      requires Valid()
      reads this
    {
      contentDone && (id.Some? ==> trailer.Some? && trailerOff == TRAILER) && padOff == |pad|
    }

    lemma ConsumedBound()
      requires Valid()
      ensures |Consumed()| <= META + |file| + TRAILER + |pad|
    {
      hide Lawful, TrailerFor;
    }

    lemma FinishedStream()
      requires Valid() && Finished()
      ensures !(declared != UNKNOWN && |file| < declared) && file[..pos] == Taken(file, declared)
      ensures Consumed() == StreamOf(meta, Taken(file, declared), Trailer(), pad)
    {
      hide Lawful, TrailerFor;
      assert file[..|file|] == file;
      assert id.Some? ==> trailer.value[..TRAILER] == trailer.value;
    }

    constructor (meta: seq<byte>, file: seq<byte>, declared: nat, pad: seq<byte>, s: Signer, id: Option<Identity>, header: seq<byte>)
      requires |meta| == META && (id.Some? ==> Lawful(s, id.value))
      ensures Valid() && Consumed() == [] && frame == []
      ensures this.meta == meta && this.file == file && this.declared == declared && this.pad == pad
      ensures this.s == s && this.id == id && this.header == header
    {
      this.meta, this.file, this.declared, this.pad, this.s, this.id, this.header := meta, file, declared, pad, s, id, header;
      metaOff, pos, contentDone, trailer, trailerOff, padOff, frame := 0, 0, false, None, 0, 0, [];
    }

    method FillMeta()
      requires Valid() && frame == []
      modifies `metaOff, `frame
      ensures Valid() && metaOff == META && Consumed() == old(Consumed()) + frame && |frame| < FRAME
    {
      if metaOff < META {
        frame := meta[metaOff..];
        metaOff := META;
      }
    }

    lemma BeforeEnd()
      requires Valid() && trailer.None? && padOff == 0 && metaOff == META
      ensures Consumed() == meta + file[..pos]
    {
      hide Lawful, TrailerFor;
    }

    lemma BeforePadding()
      requires Valid() && trailer.Some? && padOff == 0
      ensures Consumed() == meta + file[..pos] + trailer.value[..trailerOff]
    {
      hide Lawful, TrailerFor;
    }

    /** One fread into the frame. */
    method ReadSome() returns (ok: bool)
      requires Valid() && metaOff == META && !contentDone && |frame| < FRAME
      modifies `pos, `contentDone, `frame
      ensures Valid()
      ensures ok ==> old(frame) <= frame && Consumed() == old(Consumed()) + frame[|old(frame)|..]
      ensures ok ==> contentDone || pos > old(pos)
      ensures !ok ==> declared != UNKNOWN && |file| < declared
    {
      hide Lawful, TrailerFor;
      var want := FRAME - |frame|;
      if declared != UNKNOWN && declared - pos < want {
        want := declared - pos;
      }
      var n := Fread(file, pos, want);
      if n == 0 {
        if declared != UNKNOWN && declared - pos != 0 {
          return false;
        }
        contentDone := true;
        return true;
      }
      BeforeEnd();
      Grown(meta, file, pos, n);
      frame := frame + file[pos..pos + n];
      pos := pos + n;
      BeforeEnd();
      if declared != UNKNOWN && pos == declared {
        contentDone := true;
      }
      ok := true;
    }

    /** Reads until the frame is full or the contents end; fails when the file is shorter than declared. */
    method FillContents() returns (ok: bool)
      requires Valid() && metaOff == META
      modifies `pos, `contentDone, `frame
      ensures Valid()
      ensures ok ==> (contentDone || |frame| == FRAME) && old(frame) <= frame
      ensures ok ==> Consumed() == old(Consumed()) + frame[|old(frame)|..]
      ensures !ok ==> declared != UNKNOWN && |file| < declared
    {
      hide Lawful, TrailerFor;
      ghost var first, was := frame, Consumed();
      ghost var read: seq<byte> := [];
      while !contentDone && |frame| < FRAME
        invariant Valid() && frame == first + read && Consumed() == was + read
        decreases |file| - pos, !contentDone
      {
        ghost var before := frame;
        var more := ReadSome();
        if !more {
          return false;
        }
        read := read + frame[|before|..];
      }
      ok := true;
    }

    /** Builds the trailer once the contents are complete. */
    method BuildTrailer()
      requires Valid() && contentDone && id.Some?
      modifies `trailer
      ensures Valid() && trailer.Some? && Consumed() == old(Consumed()) && (old(trailer).Some? ==> trailer == old(trailer))
    {
      if trailer.None? {
        TrailerSized(s, id, header + meta + file[..pos]);
        trailer := Some(TrailerFor(s, id, header, meta, file[..pos]));
      }
    }

    /** Takes what fits of the trailer. */
    method TakeTrailer()
      requires Valid() && trailer.Some? && trailerOff < TRAILER && |frame| < FRAME
      modifies `trailerOff, `frame
      ensures Valid() && old(frame) <= frame && Consumed() == old(Consumed()) + frame[|old(frame)|..]
      ensures |frame| < FRAME ==> trailerOff == TRAILER
    {
      hide Lawful, TrailerFor;
      var take := Min(TRAILER - trailerOff, FRAME - |frame|);
      ghost var t := trailer.value;
      BeforePadding();
      Grown(meta + file[..pos], t, trailerOff, take);
      frame := frame + trailer.value[trailerOff..trailerOff + take];
      trailerOff := trailerOff + take;
      BeforePadding();
    }

    method FillTrailer()
      requires Valid() && (contentDone || |frame| == FRAME)
      modifies `trailer, `trailerOff, `frame
      ensures Valid() && old(frame) <= frame && Consumed() == old(Consumed()) + frame[|old(frame)|..]
      ensures |frame| < FRAME ==> contentDone && (id.Some? ==> trailer.Some? && trailerOff == TRAILER)
    {
      if contentDone && id.Some? {
        BuildTrailer();
        if trailerOff < TRAILER && |frame| < FRAME {
          TakeTrailer();
        }
      }
    }

    method FillPadding()
      requires Valid() && (|frame| < FRAME ==> contentDone && (id.Some? ==> trailer.Some? && trailerOff == TRAILER))
      modifies `padOff, `frame
      ensures Valid() && old(frame) <= frame && Consumed() == old(Consumed()) + frame[|old(frame)|..]
      ensures |frame| < FRAME ==> contentDone && (id.Some? ==> trailer.Some? && trailerOff == TRAILER) && padOff == |pad|
    {
      hide Lawful, TrailerFor;
      if contentDone && (id.None? || trailerOff == TRAILER) && |frame| < FRAME && padOff < |pad| {
        var take := Min(FRAME - |frame|, |pad| - padOff);
        Grown(Front(), pad, padOff, take);
        frame := frame + pad[padOff..padOff + take];
        padOff := padOff + take;
      }
    }

    /** One frame from the four sources. */
    method FillFrame() returns (ok: bool)
      requires Valid()
      modifies `metaOff, `pos, `contentDone, `trailer, `trailerOff, `padOff, `frame
      ensures Valid() && (ok ==> Consumed() == old(Consumed()) + frame && (|frame| < FRAME ==> Finished()))
      ensures !ok ==> declared != UNKNOWN && |file| < declared
    {
      hide Lawful, TrailerFor;
      frame := [];
      FillMeta();
      ghost var f1 := frame;
      ok := FillContents();
      if !ok {
        return;
      }
      ghost var f2 := frame;
      FillTrailer();
      ghost var f3 := frame;
      FillPadding();
      Joined(old(Consumed()), f1, f2, f3, frame);
    }
  }

  lemma Joined(front: seq<byte>, a: seq<byte>, b: seq<byte>, c: seq<byte>, d: seq<byte>)
    requires a <= b <= c <= d
    ensures front + a + b[|a|..] + c[|b|..] + d[|c|..] == front + d
  {
  }

  /** The contents a run takes from the file. */
  function Taken(file: seq<byte>, declared: nat): seq<byte>
  {
    if declared == UNKNOWN || |file| < declared then file else file[..declared]
  }

  /** The whole encryption after the header: fill, seal, until a frame is not full. Fails exactly when
      the file is shorter than declared. */
  method EncryptStream(a: Aead, key: Key, header: seq<byte>, s: Signer, id: Option<Identity>, meta: seq<byte>,
      file: seq<byte>, declared: nat, pad: seq<byte>) returns (r: Option<seq<byte>>)
    requires |meta| == META && (id.Some? ==> Lawful(s, id.value))
    ensures r.None? <==> declared != UNKNOWN && |file| < declared
    ensures id.Some? ==> |id.value.pk| == PK && |s.sign(id.value.sk, header + meta + Taken(file, declared))| <= SIG_MAX
    ensures r.Some? ==>
      var contents := Taken(file, declared);
      r.value == SealFrom(a, key, header, 0, StreamOf(meta, contents, TrailerFor(s, id, header, meta, contents), pad))
  {
    hide Lawful, TrailerFor, SealFrame, SealFrom, FullFrames;
    TrailerSized(s, id, header + meta + Taken(file, declared));
    var f := new Filler(meta, file, declared, pad, s, id, header);
    var out: seq<byte> := [];
    var ctr: nat := 0;
    var last := false;
    NoFrames(a, key, header);
    while !last
      invariant f.Valid() && fresh(f)
      invariant f.meta == meta && f.file == file && f.declared == declared && f.pad == pad
      invariant f.s == s && f.id == id && f.header == header
      invariant !last ==> |f.Consumed()| == ctr * FRAME && out == FullFrames(a, key, header, f.Consumed())
      invariant !last ==> ctr * FRAME <= META + |file| + TRAILER + |pad|
      invariant last ==> f.Finished() && out == SealFrom(a, key, header, 0, f.Consumed())
      decreases if last then 0 else META + |file| + TRAILER + |pad| + FRAME - ctr * FRAME, !last
    {
      ghost var was := f.Consumed();
      var ok := f.FillFrame();
      if !ok {
        return None;
      }
      last := |f.frame| < FRAME;
      f.ConsumedBound();
      var sealed := a.seal(key, Nonce(ctr, last), Bound(header, ctr), f.frame);
      FrameSealed(a, key, header, was, f.frame, ctr, sealed);
      out := out + sealed;
      ctr := ctr + 1;
    }
    f.FinishedStream();
    r := Some(out);
  }

  lemma NoFrames(a: Aead, key: Key, aad: seq<byte>)
    ensures FullFrames(a, key, aad, []) == []
  {
  }

  lemma FrameSealed(a: Aead, key: Key, aad: seq<byte>, p: seq<byte>, frame: seq<byte>, ctr: nat, sealed: seq<byte>)
    requires |p| == ctr * FRAME && |frame| <= FRAME
    requires sealed == a.seal(key, Nonce(ctr, |frame| < FRAME), Bound(aad, ctr), frame)
    ensures |frame| == FRAME ==> FullFrames(a, key, aad, p + frame) == FullFrames(a, key, aad, p) + sealed
    ensures |frame| < FRAME ==> SealFrom(a, key, aad, 0, p + frame) == FullFrames(a, key, aad, p) + sealed
  {
    hide Nonce;
    if |frame| == FRAME {
      assert (p + frame)[..|p + frame| - FRAME] == p && (p + frame)[|p + frame| - FRAME..] == frame;
      assert |p + frame| / FRAME - 1 == ctr;
    } else {
      FullThenRest(a, key, aad, p, frame);
      assert |p| / FRAME == ctr;
    }
  }
}
