/** The decryptor's frame loop (src/crypto_utils.c): each frame is verified, then fed to the sink. */
module ContainerReader {
  import opened Common
  import opened Container
  import opened ContainerSigned
  import opened ContainerSink
  import opened Framing

  lemma OpenStep(a: Aead, key: Key, aad: seq<byte>, ctr: nat, c: seq<byte>, n: nat, last: bool)
    requires n == Min(|c|, FRAME + TAG) && last == (n < FRAME + TAG)
    ensures n < TAG ==> OpenFrom(a, key, aad, ctr, c) == ([], Truncated)
    ensures n >= TAG ==>
      match a.open(key, Nonce(ctr, last), Bound(aad, ctr), c[..n])
      case None => OpenFrom(a, key, aad, ctr, c) == ([], Status.Forged)
      case Some(p) =>
        if last then OpenFrom(a, key, aad, ctr, c) == (p, Done)
        else
          var (rest, status) := OpenFrom(a, key, aad, ctr + 1, c[n..]);
          OpenFrom(a, key, aad, ctr, c) == (p + rest, status)
  {
    hide Nonce;
  }

  lemma ReleasedStays(s: Signer, header: seq<byte>, pin: Option<seq<byte>>, stream: seq<byte>, more: seq<byte>)
    requires Broken(stream)
    ensures Released(stream + more) == Released(stream) && TakeApart(s, header, pin, stream + more).1 == Invalid
  {
    hide TakeApart, Released, Broken;
    BrokenStays(s, header, pin, stream, more);
    FinalContents(s, header, pin, stream + more);
  }

  lemma AcceptedBytes(a: Aead, key: Key, header: seq<byte>, bytes: seq<byte>, s: Signer, pin: Option<seq<byte>>)
    requires Exact(a)
    ensures var (stream, status) := OpenFrom(a, key, header, 0, bytes);
      (status == Done && TakeApart(s, header, pin, stream).1 == Good)
      <==> GenuineBytes(a, key, s, header, pin, bytes, Released(stream))
  {
    hide OpenFrom, TakeApart, GenuineBytes, Released;
    var stream := OpenFrom(a, key, header, 0, bytes).0;
    FinalContents(s, header, pin, stream);
    DecryptsIff(a, key, s, header, pin, bytes, Released(stream));
  }

  /** The output of a decryption is what the reader's verified bytes release, whether or not it ends
      well, and it is accepted exactly when every frame verifies and the stream comes apart: when the
      bytes are the frames of a declared stream that is signed, if it says so, for this header and pin. */
  method DecryptStream(a: Aead, key: Key, header: seq<byte>, bytes: seq<byte>, s: Signer, pin: Option<seq<byte>>)
    returns (contents: seq<byte>, ok: bool)
    ensures var (stream, status) := OpenFrom(a, key, header, 0, bytes);
      && contents == Released(stream)
      && (ok <==> status == Done && TakeApart(s, header, pin, stream).1 == Good)
    ensures Exact(a) ==> (ok <==> GenuineBytes(a, key, s, header, pin, bytes, contents))
  {
    hide OpenFrom, Nonce, Released, TakeApart, Broken, Exact, GenuineBytes;
    if Exact(a) {
      AcceptedBytes(a, key, header, bytes, s, pin);
    }
    ghost var (all, allStatus) := OpenFrom(a, key, header, 0, bytes);
    var sink := new Sink();
    NotBrokenYet();
    ghost var fed: seq<byte> := [];
    var c := bytes;
    var ctr: nat := 0;
    var last := false;
    while !last
      invariant fresh(sink) && fresh(sink.tbuf) && sink.Valid() && sink.Follows(fed) && !Broken(fed) && sink.released == Released(fed)
      invariant !last ==>
        var (rest, status) := OpenFrom(a, key, header, ctr, c);
        all == fed + rest && allStatus == status
      invariant last ==> all == fed && allStatus == Done
      decreases |c|, !last
    {
      var n := Min(|c|, FRAME + TAG);
      OpenStep(a, key, header, ctr, c, n, n < FRAME + TAG);
      if n < TAG {
        assert all == fed;
        return sink.released, false;
      }
      last := n < FRAME + TAG;
      var p := a.open(key, Nonce(ctr, last), Bound(header, ctr), c[..n]);
      if p.None? {
        assert all == fed;
        return sink.released, false;
      }
      ghost var later := if last then [] else OpenFrom(a, key, header, ctr + 1, c[n..]).0;
      assert all == fed + p.value + later;
      var fine := sink.Write(fed, p.value);
      if !fine {
        ReleasedStays(s, header, pin, fed + p.value, later);
        return sink.released, false;
      }
      fed := fed + p.value;
      c := c[n..];
      ctr := ctr + 1;
    }
    var v := sink.Finish(fed, s, header, pin);
    contents, ok := sink.released, v == Good;
  }
}
