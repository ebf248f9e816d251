/** The framed AEAD shared by src/crypto_utils.c and src/vault.c: a plaintext stream is cut into full
    frames, and the first frame that is not full, possibly empty, ends it. */
module Framing {
  import opened Bytes
  import opened Common

  const FRAME: nat := 65536
  const TAG: nat := 16

  type Key = seq<byte>

  /** Sealing returns ciphertext || tag. */
  datatype Aead = Aead(
    seal: (Key, seq<byte>, seq<byte>, seq<byte>) -> seq<byte>,
    open: (Key, seq<byte>, seq<byte>, seq<byte>) -> Option<seq<byte>>)

  /** AES-GCM is deterministic: what opens to a plaintext is what sealing it gives, nothing else. */
  ghost predicate Exact(a: Aead)
  {
    && (forall k, n, d, p :: |a.seal(k, n, d, p)| == |p| + TAG)
    && (forall k, n, d, p, c :: a.open(k, n, d, c) == Some(p) <==> c == a.seal(k, n, d, p))
  }

  /** crypto_frame_nonce: three zero bytes, the 64-bit counter, the final flag. */
  function Nonce(ctr: nat, last: bool): (n: seq<byte>)
    ensures |n| == 12
  {
    [0, 0, 0] + BigEndian(ctr % U64, 8) + [if last then 1 else 0]
  }

  /** No two frames of a stream share a nonce. */
  lemma NoncesDiffer(c: nat, l: bool, d: nat, m: bool)
    requires c < U64 && d < U64 && (c != d || l != m)
    ensures Nonce(c, l) != Nonce(d, m)
  {
    hide BigEndian, Nonce;
    NonceParts(c, l);
    NonceParts(d, m);
    Widths();
    if BigEndian(c, 8) == BigEndian(d, 8) {
      BigEndianInjective(c, d, 8);
    }
  }

  lemma NonceParts(c: nat, l: bool)
    requires c < U64
    ensures Nonce(c, l)[3..11] == BigEndian(c, 8) && Nonce(c, l)[11] == if l then 1 else 0
  {
    hide BigEndian;
  }

  /** What is bound into a frame: the associated data on the first one only. */
  function Bound(aad: seq<byte>, ctr: nat): seq<byte>
  {
    if ctr == 0 then aad else []
  }

  /** One frame of the stream, final when it is not full. */
  function SealFrame(a: Aead, key: Key, aad: seq<byte>, ctr: nat, p: seq<byte>): seq<byte>
  {
    a.seal(key, Nonce(ctr, |p| < FRAME), Bound(aad, ctr), p)
  }

  /** The frames from the ctr-th on, for the plaintext that is left. */
  function SealFrom(a: Aead, key: Key, aad: seq<byte>, ctr: nat, p: seq<byte>): seq<byte>
    decreases |p|
  {
    if |p| < FRAME then SealFrame(a, key, aad, ctr, p)
    else SealFrame(a, key, aad, ctr, p[..FRAME]) + SealFrom(a, key, aad, ctr + 1, p[FRAME..])
  }

  datatype Status = Done | Truncated | Forged

  /** The reader: a full read is a non-final frame, a short one is the final frame, fewer bytes than a
      tag are garbage. Bytes are released frame by frame, before later frames are seen. */
  function OpenFrom(a: Aead, key: Key, aad: seq<byte>, ctr: nat, c: seq<byte>): (seq<byte>, Status)
    decreases |c|
  {
    if |c| < TAG then ([], Truncated)
    else
      var n := if |c| < FRAME + TAG then |c| else FRAME + TAG;
      var last := n < FRAME + TAG;
      match a.open(key, Nonce(ctr, last), Bound(aad, ctr), c[..n])
      case None => ([], Forged)
      case Some(p) =>
        if last then (p, Done)
        else
          var (rest, status) := OpenFrom(a, key, aad, ctr + 1, c[n..]);
          (p + rest, status)
  }

  function SealedLen(n: nat): nat
  {
    n + TAG * (n / FRAME + 1)
  }

  lemma {:induction false} SealedLength(a: Aead, key: Key, aad: seq<byte>, ctr: nat, p: seq<byte>)
    requires Exact(a)
    ensures |SealFrom(a, key, aad, ctr, p)| == SealedLen(|p|)
    decreases |p|
  {
    hide Nonce;
    if |p| >= FRAME {
      SealedLength(a, key, aad, ctr + 1, p[FRAME..]);
      assert (|p| - FRAME) / FRAME == |p| / FRAME - 1;
    }
  }

  /** Reading what was written gives the stream back, whatever its length. */
  lemma {:induction false} OpensToStream(a: Aead, key: Key, aad: seq<byte>, ctr: nat, p: seq<byte>)
    requires Exact(a)
    ensures OpenFrom(a, key, aad, ctr, SealFrom(a, key, aad, ctr, p)) == (p, Done)
    decreases |p|
  {
    hide Nonce;
    var c := SealFrom(a, key, aad, ctr, p);
    if |p| < FRAME {
      assert a.open(key, Nonce(ctr, true), Bound(aad, ctr), c) == Some(p);
      OpenFromLast(a, key, aad, ctr, c, p);
    } else {
      SealedLength(a, key, aad, ctr + 1, p[FRAME..]);
      var f := SealFrame(a, key, aad, ctr, p[..FRAME]);
      assert c[..FRAME + TAG] == f && c[FRAME + TAG..] == SealFrom(a, key, aad, ctr + 1, p[FRAME..]);
      OpensToStream(a, key, aad, ctr + 1, p[FRAME..]);
      OpenFromStep(a, key, aad, ctr, c, p[..FRAME]);
      assert p == p[..FRAME] + p[FRAME..];
    }
  }

  lemma OpenFromLast(a: Aead, key: Key, aad: seq<byte>, ctr: nat, c: seq<byte>, p: seq<byte>)
    requires TAG <= |c| < FRAME + TAG && a.open(key, Nonce(ctr, true), Bound(aad, ctr), c) == Some(p)
    ensures OpenFrom(a, key, aad, ctr, c) == (p, Done)
  {
    hide Nonce;
    assert c[..|c|] == c;
  }

  lemma OpenFromStep(a: Aead, key: Key, aad: seq<byte>, ctr: nat, c: seq<byte>, p: seq<byte>)
    requires |c| >= FRAME + TAG && a.open(key, Nonce(ctr, false), Bound(aad, ctr), c[..FRAME + TAG]) == Some(p)
    ensures var (rest, status) := OpenFrom(a, key, aad, ctr + 1, c[FRAME + TAG..]);
      OpenFrom(a, key, aad, ctr, c) == (p + rest, status)
  {
    hide Nonce;
  }

  /** Nothing else is accepted: what the reader accepts is the writer's output for what it returns. */
  lemma {:induction false} AcceptsOnlyWritten(a: Aead, key: Key, aad: seq<byte>, ctr: nat, c: seq<byte>)
    requires Exact(a) && OpenFrom(a, key, aad, ctr, c).1 == Done
    ensures c == SealFrom(a, key, aad, ctr, OpenFrom(a, key, aad, ctr, c).0)
    decreases |c|
  {
    hide Nonce;
    if |c| < FRAME + TAG {
      assert c[..|c|] == c;
    } else {
      var n := FRAME + TAG;
      var p := a.open(key, Nonce(ctr, false), Bound(aad, ctr), c[..n]).value;
      assert |c[..n]| == |p| + TAG;
      AcceptsOnlyWritten(a, key, aad, ctr + 1, c[n..]);
      var rest := OpenFrom(a, key, aad, ctr + 1, c[n..]).0;
      assert (p + rest)[..FRAME] == p && (p + rest)[FRAME..] == rest;
      assert c == c[..n] + c[n..];
    }
  }

  /** The frames a writer sealed under this key: all of one stream, from the ctr-th on. */
  predicate Written(a: Aead, key: Key, aad: seq<byte>, ctr: nat, p: seq<byte>, at: nat, last: bool, f: seq<byte>)
    decreases |p|
  {
    if |p| < FRAME then at == ctr && last && f == SealFrame(a, key, aad, ctr, p)
    else
      || (at == ctr && !last && f == SealFrame(a, key, aad, ctr, p[..FRAME]))
      || Written(a, key, aad, ctr + 1, p[FRAME..], at, last, f)
  }

  /** Ideal AEAD: the attacker's bytes contain no forgery, that is, no piece of them opens as a frame
      unless the writer sealed it as that frame of the one stream under this key. */
  ghost predicate NoForgery(a: Aead, key: Key, aad: seq<byte>, ctr: nat, p: seq<byte>, c: seq<byte>)
  {
    forall at: nat, last: bool, i: nat, j: nat ::
      ctr <= at < U64 && i <= j <= |c| && a.open(key, Nonce(at, last), Bound(aad, at), c[i..j]).Some? ==>
        Written(a, key, aad, ctr, p, at, last, c[i..j])
  }

  lemma {:induction false} WrittenLater(
      a: Aead, key: Key, aad: seq<byte>, ctr: nat, p: seq<byte>, at: nat, last: bool, f: seq<byte>)
    requires Written(a, key, aad, ctr, p, at, last, f)
    ensures at >= ctr
    decreases |p|
  {
    hide Nonce;
    if |p| >= FRAME && Written(a, key, aad, ctr + 1, p[FRAME..], at, last, f) {
      WrittenLater(a, key, aad, ctr + 1, p[FRAME..], at, last, f);
    }
  }

  lemma RestUnforged(a: Aead, key: Key, aad: seq<byte>, ctr: nat, p: seq<byte>, c: seq<byte>, n: nat)
    requires |p| >= FRAME && n <= |c| && NoForgery(a, key, aad, ctr, p, c)
    ensures NoForgery(a, key, aad, ctr + 1, p[FRAME..], c[n..])
  {
    hide Nonce, SealFrame;
    forall at: nat, last: bool, i: nat, j: nat | ctr + 1 <= at < U64 && i <= j <= |c[n..]|
        && a.open(key, Nonce(at, last), Bound(aad, at), c[n..][i..j]).Some?
      ensures Written(a, key, aad, ctr + 1, p[FRAME..], at, last, c[n..][i..j])
    {
      assert c[n..][i..j] == c[n + i..n + j];
    }
  }

  lemma WrittenFirst(a: Aead, key: Key, aad: seq<byte>, ctr: nat, p: seq<byte>, last: bool, f: seq<byte>)
    requires Written(a, key, aad, ctr, p, ctr, last, f)
    ensures last == (|p| < FRAME)
    ensures f == SealFrame(a, key, aad, ctr, if |p| < FRAME then p else p[..FRAME])
  {
    hide Nonce, SealFrame;
    if |p| >= FRAME && Written(a, key, aad, ctr + 1, p[FRAME..], ctr, last, f) {
      WrittenLater(a, key, aad, ctr + 1, p[FRAME..], ctr, last, f);
    }
  }

  lemma FirstFrame(a: Aead, key: Key, aad: seq<byte>, ctr: nat, p: seq<byte>, last: bool, f: seq<byte>)
    requires Exact(a) && Written(a, key, aad, ctr, p, ctr, last, f)
    ensures last == (|p| < FRAME)
    ensures last ==> f == SealFrom(a, key, aad, ctr, p)
    ensures !last ==>
      && a.open(key, Nonce(ctr, last), Bound(aad, ctr), f) == Some(p[..FRAME])
      && SealFrom(a, key, aad, ctr, p) == f + SealFrom(a, key, aad, ctr + 1, p[FRAME..])
  {
    hide Nonce, Written;
    WrittenFirst(a, key, aad, ctr, p, last, f);
  }

  /** Against any bytes without a forgery, the reader either accepts exactly the written string and
      returns the stream, or rejects having released only a prefix of the stream. */
  lemma {:induction false} ReaderExact(a: Aead, key: Key, aad: seq<byte>, ctr: nat, p: seq<byte>, c: seq<byte>)
    requires Exact(a) && NoForgery(a, key, aad, ctr, p, c) && ctr + |c| < U64
    ensures var (out, status) := OpenFrom(a, key, aad, ctr, c);
      && (status == Done <==> c == SealFrom(a, key, aad, ctr, p))
      && (status == Done ==> out == p)
      && out <= p
    decreases |c|
  {
    hide Nonce, Written, SealFrame, SealFrom;
    if c == SealFrom(a, key, aad, ctr, p) {
      OpensToStream(a, key, aad, ctr, p);
    } else if |c| >= TAG {
      var n := if |c| < FRAME + TAG then |c| else FRAME + TAG;
      var last := n < FRAME + TAG;
      assert c[0..n] == c[..n];
      if a.open(key, Nonce(ctr, last), Bound(aad, ctr), c[..n]).Some? {
        FirstFrame(a, key, aad, ctr, p, last, c[..n]);
        assert c == c[..n] + c[n..];
        if !last {
          RestUnforged(a, key, aad, ctr, p, c, n);
          ReaderExact(a, key, aad, ctr + 1, p[FRAME..], c[n..]);
          assert p == p[..FRAME] + p[FRAME..];
        }
      }
    }
  }
}
