/** The streaming sink of src/crypto_utils.c: fed in pieces of any size, it keeps the metadata, releases
    contents, and holds back what may be the signature trailer. */
module ContainerSink {
  import opened Common
  import opened Container

  class Sink {
    var meta: seq<byte>
    var metaDone: bool
    var layout: Layout
    var contentWritten: nat
    var padSeen: nat
    const tbuf: array<byte>
    var tlen: nat
    var released: seq<byte>

    ghost predicate Valid()
      reads this
    {
      && tbuf.Length == TRAILER && tlen <= TRAILER
      && (metaDone ==> |meta| == META && layout == LayoutOf(meta) && Consistent(layout))
      && (!metaDone ==> |meta| <= META && released == [] && contentWritten == 0 && padSeen == 0 && tlen == 0)
    }

    ghost function Held(): Parts
      requires Valid()
      reads this, tbuf
    {
      Parts(released, tbuf[..tlen], padSeen)
    }

    /** The sink's fields are those of the direct split of everything fed so far. */
    ghost predicate Follows(fed: seq<byte>)
      requires Valid()
      reads this, tbuf
    {
      if !metaDone then fed == meta && |meta| < META
      else
        && |fed| >= META && meta == fed[..META]
        && Held() == Split(layout, fed[META..])
        && !Overlong(layout, fed[META..])
        && (!Pure(layout) ==> contentWritten == |released|)
    }

    constructor ()
      ensures Valid() && Follows([]) && released == [] && fresh(tbuf)
    {
      meta, metaDone, layout, contentWritten, padSeen, tlen, released := [], false, Layout(false, false, UNKNOWN, 0), 0, 0, 0, [];
      tbuf := new byte[TRAILER](_ => 0);
    }

    /** dec_sink_content. */
    method Emit(p: seq<byte>)
      modifies `contentWritten, `released
      ensures contentWritten == old(contentWritten) + |p| && released == old(released) + p
    {
      contentWritten := contentWritten + |p|;
      released := released + p;
    }

    /** Appends to the trailer buffer. */
    method Hold(p: seq<byte>)
      requires Valid() && tlen + |p| <= TRAILER
      modifies `tlen, tbuf
      ensures tlen == old(tlen) + |p| && tbuf[..tlen] == old(tbuf[..tlen]) + p
    {
      forall i | 0 <= i < |p| {
        tbuf[tlen + i] := p[i];
      }
      tlen := tlen + |p|;
    }

    /** Moves the tail of the trailer buffer to its front. */
    method DropFront(n: nat)
      requires Valid() && n <= tlen
      modifies `tlen, tbuf
      ensures tlen == old(tlen) - n && tbuf[..tlen] == old(tbuf[..tlen])[n..]
    {
      forall i | 0 <= i < tlen - n {
        tbuf[i] := tbuf[n + i];
      }
      tlen := tlen - n;
    }

    /** The fields are the split of the payload `body`, within what is declared. */
    ghost predicate At(body: seq<byte>)
      requires Valid()
      reads this, tbuf
    {
      Held() == Split(layout, body) && !Overlong(layout, body) && contentWritten == |released|
    }

    /** Routes the front of p to contents, trailer or padding; none when the payload is over. */
    method TakeSome(ghost body: seq<byte>, p: seq<byte>) returns (take: nat)
      requires Valid() && metaDone && layout.contentLen != UNKNOWN && At(body) && |p| > 0
      modifies `contentWritten, `released, `tlen, `padSeen, tbuf
      ensures Valid() && take <= |p|
      ensures take > 0 ==> At(body + p[..take])
      ensures take == 0 ==> Overlong(layout, body + p) && released == Split(layout, body + p).contents
    {
      hide LayoutOf, Consistent;
      if contentWritten < layout.contentLen {
        take := Min(|p|, layout.contentLen - contentWritten);
        Emit(p[..take]);
      } else if layout.signed && tlen < TRAILER {
        take := Min(|p|, TRAILER - tlen);
        TakeTrailer(layout, body, p[..take]);
        Hold(p[..take]);
      } else if padSeen < layout.padLen {
        take := Min(|p|, layout.padLen - padSeen);
        padSeen := padSeen + take;
      } else {
        TooLong(layout, body, p);
        take := 0;
      }
    }

    /** Known length: contents, trailer and padding in turn. */
    method WriteKnown(ghost body: seq<byte>, q: seq<byte>) returns (ok: bool)
      requires Valid() && metaDone && layout.contentLen != UNKNOWN && At(body)
      modifies `contentWritten, `released, `tlen, `padSeen, tbuf
      ensures Valid() && (ok <==> !Overlong(layout, body + q))
      ensures ok ==> At(body + q)
      ensures released == Split(layout, body + q).contents
    {
      hide LayoutOf, Consistent, Split, Overlong;
      ghost var taken: seq<byte> := [];
      var p := q;
      assert body + taken == body;
      while |p| > 0
        invariant Valid() && metaDone && layout == old(layout)
        invariant q == taken + p && At(body + taken)
        decreases |p|
      {
        var take := TakeSome(body + taken, p);
        if take == 0 {
          assert body + q == body + taken + p;
          return false;
        }
        assert body + (taken + p[..take]) == body + taken + p[..take];
        taken := taken + p[..take];
        p := p[take..];
      }
      assert taken == q;
      ok := true;
    }

    /** Unknown length, signed: everything but the last TRAILER bytes is contents. */
    method WriteRolling(ghost body: seq<byte>, q: seq<byte>)
      requires Valid() && metaDone && layout.contentLen == UNKNOWN && layout.signed && At(body)
      modifies `contentWritten, `released, `tlen, tbuf
      ensures Valid() && At(body + q)
    {
      hide LayoutOf, Consistent, Split;
      var p := q;
      ghost var held := tbuf[..tlen];
      var total := tlen + |p|;
      if total > TRAILER {
        var release := total - TRAILER;
        var fromBuf := Min(release, tlen);
        Emit(tbuf[..fromBuf]);
        DropFront(fromBuf);
        release := release - fromBuf;
        Emit(p[..release]);
        p := p[release..];
        RollingUnpadded(layout, body);
        RollsOver(layout, body, held, q, fromBuf, release);
      } else {
        RollsIn(layout, body, q);
      }
      Hold(p);
    }

    /** The payload that follows the metadata, once that is parsed. */
    method WriteBody(ghost body: seq<byte>, q: seq<byte>) returns (ok: bool)
      requires Valid() && metaDone && Held() == Split(layout, body) && !Overlong(layout, body)
      requires !Pure(layout) ==> contentWritten == |released|
      modifies `contentWritten, `released, `tlen, `padSeen, tbuf
      ensures Valid() && (ok <==> !Overlong(layout, body + q))
      ensures ok ==> Held() == Split(layout, body + q) && (!Pure(layout) ==> contentWritten == |released|)
      ensures released == Split(layout, body + q).contents
    {
      hide LayoutOf, Consistent;
      if |q| == 0 {
        assert body + q == body;
        return true;
      }
      if Pure(layout) {
        released := released + q;
        return true;
      }
      if layout.contentLen != UNKNOWN {
        ok := WriteKnown(body, q);
      } else {
        UnknownSigned(layout, body, q);
        WriteRolling(body, q);
        ok := true;
      }
    }

    /** Parses a complete metadata block. */
    method ParseMeta() returns (ok: bool)
      requires Valid() && !metaDone && |meta| == META
      modifies `metaDone, `layout
      ensures Valid() && ok == Consistent(LayoutOf(meta)) && metaDone == ok
      ensures ok ==> layout == LayoutOf(meta)
    {
      hide LayoutOf;
      var l := LayoutOf(meta);
      if (l.padded && (l.contentLen == UNKNOWN || l.padLen == 0)) || (!l.padded && l.padLen != 0) {
        return false;
      }
      layout := l;
      metaDone := true;
      ok := true;
    }

    /** dec_sink_write: metadata first, then the payload. */
    method Write(ghost fed: seq<byte>, q: seq<byte>) returns (ok: bool)
      requires Valid() && Follows(fed) && !Broken(fed)
      modifies this, tbuf
      ensures Valid() && (ok <==> !Broken(fed + q))
      ensures ok ==> Follows(fed + q)
      ensures released == Released(fed + q)
    {
      hide LayoutOf, Consistent, Split, Overlong, Pure;
      var p := q;
      ghost var body: seq<byte>;
      if !metaDone {
        var take := Min(|p|, META - |meta|);
        meta := meta + p[..take];
        p := p[take..];
        assert meta == (fed + q)[..|meta|] && fed + q == meta + p;
        if |meta| < META {
          assert p == [];
          return true;
        }
        ok := ParseMeta();
        if !ok {
          return;
        }
        body := [];
        NothingYet(layout);
        assert tbuf[..tlen] == [];
        assert (fed + q)[META..] == body + p;
      } else {
        body := fed[META..];
        assert (fed + q)[..META] == fed[..META] && (fed + q)[META..] == body + p;
      }
      ok := WriteBody(body, p);
    }

    /** dec_sink_finish, with the check that the metadata was complete. */
    method Finish(ghost fed: seq<byte>, s: Signer, header: seq<byte>, pin: Option<seq<byte>>) returns (v: Verdict)
      requires Valid() && Follows(fed)
      ensures v == TakeApart(s, header, pin, fed).1
    {
      hide LayoutOf, Judge;
      if !metaDone {
        return Invalid;
      }
      if layout.contentLen != UNKNOWN {
        if contentWritten != layout.contentLen || (layout.signed && tlen != TRAILER) || padSeen != layout.padLen {
          return Invalid;
        }
      } else if layout.signed && tlen != TRAILER {
        return Invalid;
      }
      if !layout.signed {
        return Good;
      }
      v := Judge(s, header, meta, released, tbuf[..tlen], pin);
    }
  }

  lemma NothingYet(l: Layout)
    ensures Split(l, []) == Parts([], [], 0) && !Overlong(l, [])
  {
  }

  lemma UnknownSigned(l: Layout, body: seq<byte>, q: seq<byte>)
    requires !Pure(l) && l.contentLen == UNKNOWN && Consistent(l)
    ensures l.signed && !Overlong(l, body + q)
  {
  }

  function Concat(chunks: seq<seq<byte>>): seq<byte>
  {
    if |chunks| == 0 then [] else Concat(chunks[..|chunks| - 1]) + chunks[|chunks| - 1]
  }

  lemma {:induction false} ConcatSplits(chunks: seq<seq<byte>>, i: nat)
    requires i <= |chunks|
    ensures Concat(chunks) == Concat(chunks[..i]) + Concat(chunks[i..])
    decreases |chunks|
  {
    if i == |chunks| {
      assert chunks[..i] == chunks;
    } else {
      var n := |chunks| - 1;
      ConcatSplits(chunks[..n], i);
      assert chunks[..n][..i] == chunks[..i] && chunks[..n][i..] == chunks[i..][..n - i];
    }
  }

  /** However a stream is cut into writes, the contents released and the verdict are those of taking
      the whole stream apart at once. */
  method Consume(chunks: seq<seq<byte>>, s: Signer, header: seq<byte>, pin: Option<seq<byte>>)
    returns (contents: seq<byte>, v: Verdict)
    ensures (contents, v) == TakeApart(s, header, pin, Concat(chunks))
  {
    hide Broken, Released, TakeApart;
    var sink := new Sink();
    NotBrokenYet();
    var i: nat := 0;
    while i < |chunks|
      invariant i <= |chunks| && fresh(sink) && fresh(sink.tbuf)
      invariant sink.Valid() && sink.Follows(Concat(chunks[..i])) && !Broken(Concat(chunks[..i]))
      invariant sink.released == Released(Concat(chunks[..i]))
    {
      ghost var fed := Concat(chunks[..i]);
      assert chunks[..i + 1][..i] == chunks[..i];
      var ok := sink.Write(fed, chunks[i]);
      i := i + 1;
      if !ok {
        ConcatSplits(chunks, i);
        BrokenStays(s, header, pin, fed + chunks[i - 1], Concat(chunks[i..]));
        return sink.released, Invalid;
      }
    }
    assert chunks[..i] == chunks;
    v := sink.Finish(Concat(chunks), s, header, pin);
    FinalContents(s, header, pin, Concat(chunks));
    contents := sink.released;
  }

  lemma NotBrokenYet()
    ensures !Broken([]) && Released([]) == []
  {
  }

  lemma FinalContents(s: Signer, header: seq<byte>, pin: Option<seq<byte>>, stream: seq<byte>)
    ensures TakeApart(s, header, pin, stream).0 == Released(stream)
  {
    hide LayoutOf, Judge, Split;
  }

  lemma RollsIn(l: Layout, body: seq<byte>, q: seq<byte>)
    requires l.contentLen == UNKNOWN && l.signed && |Split(l, body).held| + |q| <= TRAILER
    ensures Split(l, body + q) == Split(l, body).(held := Split(l, body).held + q)
  {
  }

  lemma RollingUnpadded(l: Layout, body: seq<byte>)
    requires l.contentLen == UNKNOWN
    ensures Split(l, body).pad == 0
  {
  }

  lemma RollsOver(l: Layout, body: seq<byte>, held: seq<byte>, q: seq<byte>, fromBuf: nat, rest: nat)
    requires l.contentLen == UNKNOWN && l.signed && held == Split(l, body).held && |held| + |q| > TRAILER
    requires fromBuf == Min(|held| + |q| - TRAILER, |held|) && rest == |held| + |q| - TRAILER - fromBuf
    ensures rest <= |q|
    ensures Split(l, body + q)
      == Parts(Split(l, body).contents + held[..fromBuf] + q[..rest], held[fromBuf..] + q[rest..], 0)
  {
    var all := body + q;
    assert body == Split(l, body).contents + held;
    assert all == Split(l, body).contents + held[..fromBuf] + (held[fromBuf..] + q);
    if fromBuf < |held| {
      assert rest == 0;
      assert q[..rest] == [] && q[rest..] == q;
      assert all[..|all| - TRAILER] == Split(l, body).contents + held[..fromBuf];
    } else {
      assert held[fromBuf..] == [] && held[..fromBuf] == held;
      assert all == Split(l, body).contents + held + q[..rest] + q[rest..];
      assert all[..|all| - TRAILER] == Split(l, body).contents + held + q[..rest];
    }
  }

  lemma TakeTrailer(l: Layout, body: seq<byte>, p: seq<byte>)
    requires l.contentLen != UNKNOWN && !Overlong(l, body) && |Split(l, body).contents| == l.contentLen
    requires l.signed && |Split(l, body).held| + |p| <= TRAILER && |p| > 0
    ensures Split(l, body + p) == Split(l, body).(held := Split(l, body).held + p) && !Overlong(l, body + p)
  {
  }

  lemma TooLong(l: Layout, body: seq<byte>, p: seq<byte>)
    requires l.contentLen != UNKNOWN && |Split(l, body).contents| == l.contentLen
    requires (l.signed ==> |Split(l, body).held| == TRAILER) && Split(l, body).pad >= l.padLen && |p| > 0
    ensures Overlong(l, body + p) && Split(l, body + p).contents == Split(l, body).contents
  {
    assert (body + p)[..l.contentLen] == body[..l.contentLen];
  }
}
