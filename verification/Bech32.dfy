/** The Bech32 checksum of src/age_plugin.c (BIP-173): linear over xor, six symbols that are determined
    by the rest. */
module Bech32 {

  function Xor(a: bv32, b: bv32): bv32
  {
    a ^ b
  }

  lemma XorComm(a: bv32, b: bv32)
    ensures Xor(a, b) == Xor(b, a)
  {
  }

  lemma XorAssoc(a: bv32, b: bv32, c: bv32)
    ensures Xor(Xor(a, b), c) == Xor(a, Xor(b, c))
  {
  }

  lemma XorZero(a: bv32)
    ensures Xor(a, a) == 0 && Xor(a, 0) == a && Xor(0, a) == a
  {
  }

  lemma XorCancel(a: bv32, b: bv32, c: bv32)
    ensures Xor(a, b) == Xor(a, c) ==> b == c
  {
    hide Xor;
    XorAssoc(a, a, b);
    XorAssoc(a, a, c);
    XorZero(a);
    XorZero(b);
    XorZero(c);
  }

  lemma Shuffle(a: bv32, b: bv32, c: bv32, d: bv32)
    ensures Xor(Xor(a, b), Xor(c, d)) == Xor(Xor(a, c), Xor(b, d))
  {
    hide *;
    XorAssoc(a, b, Xor(c, d));
    XorAssoc(b, c, d);
    XorComm(b, c);
    XorAssoc(c, b, d);
    XorAssoc(a, c, Xor(b, d));
  }

  /** The generator words selected by the five bits shifted out. */
  function Gen(top: bv32): bv32
  {
    (if top & 1 != 0 then 0x3b6a57b2 else 0)
    ^ (if top & 2 != 0 then 0x26508e6d else 0)
    ^ (if top & 4 != 0 then 0x1ea119fa else 0)
    ^ (if top & 8 != 0 then 0x3d4233dd else 0)
    ^ (if top & 16 != 0 then 0x2a1462b3 else 0)
  }

  /** (chk & 0x1ffffff) << 5 */
  function Low(chk: bv32): bv32
  {
    (chk & 0x1ffffff) << 5
  }

  /** One turn of b32_polymod. */
  function Step(chk: bv32, v: bv32): bv32
  {
    Xor(Xor(Low(chk), v), Gen(chk >> 25))
  }

  predicate Small(chk: bv32)
  {
    chk < 0x4000_0000
  }

  function Word(top: bv32, bit: bv32, g: bv32): bv32
  {
    if top & bit != 0 then g else 0
  }

  lemma WordLinear(a: bv32, b: bv32, bit: bv32, g: bv32)
    requires bit == 1 || bit == 2 || bit == 4 || bit == 8 || bit == 16
    ensures Word(Xor(a, b), bit, g) == Xor(Word(a, bit, g), Word(b, bit, g))
  {
    assert (a ^ b) & bit != 0 <==> (a & bit != 0) != (b & bit != 0);
  }

  lemma GenWords(top: bv32)
    ensures Gen(top) == Xor(Xor(Xor(Xor(Word(top, 1, 0x3b6a57b2), Word(top, 2, 0x26508e6d)), Word(top, 4, 0x1ea119fa)),
                                Word(top, 8, 0x3d4233dd)), Word(top, 16, 0x2a1462b3))
  {
  }

  lemma Shifts(a: bv32, b: bv32)
    ensures Low(Xor(a, b)) == Xor(Low(a), Low(b)) && Xor(a, b) >> 25 == Xor(a >> 25, b >> 25)
  {
  }

  lemma GenXor(a: bv32, b: bv32)
    ensures Gen(Xor(a, b)) == Xor(Gen(a), Gen(b))
  {
    hide Xor, Word, Gen;
    GenWords(a);
    GenWords(b);
    GenWords(Xor(a, b));
    WordLinear(a, b, 1, 0x3b6a57b2);
    WordLinear(a, b, 2, 0x26508e6d);
    WordLinear(a, b, 4, 0x1ea119fa);
    WordLinear(a, b, 8, 0x3d4233dd);
    WordLinear(a, b, 16, 0x2a1462b3);
    var (a1, b1) := (Word(a, 1, 0x3b6a57b2), Word(b, 1, 0x3b6a57b2));
    var (a2, b2) := (Word(a, 2, 0x26508e6d), Word(b, 2, 0x26508e6d));
    var (a3, b3) := (Word(a, 4, 0x1ea119fa), Word(b, 4, 0x1ea119fa));
    var (a4, b4) := (Word(a, 8, 0x3d4233dd), Word(b, 8, 0x3d4233dd));
    Shuffle(a1, b1, a2, b2);
    Shuffle(Xor(a1, a2), Xor(b1, b2), a3, b3);
    Shuffle(Xor(Xor(a1, a2), a3), Xor(Xor(b1, b2), b3), a4, b4);
    Shuffle(Xor(Xor(Xor(a1, a2), a3), a4), Xor(Xor(Xor(b1, b2), b3), b4), Word(a, 16, 0x2a1462b3), Word(b, 16, 0x2a1462b3));
  }

  lemma StepLinear(a: bv32, b: bv32, v: bv32, w: bv32)
    ensures Step(Xor(a, b), Xor(v, w)) == Xor(Step(a, v), Step(b, w))
  {
    hide Xor, Low, Gen;
    Shifts(a, b);
    GenXor(a >> 25, b >> 25);
    Shuffle(Low(a), Low(b), v, w);
    Shuffle(Xor(Low(a), v), Xor(Low(b), w), Gen(a >> 25), Gen(b >> 25));
  }

  lemma StepSmall(chk: bv32, v: bv32)
    requires v < 32
    ensures Small(Step(chk, v))
  {
  }

  /** Multiplying by x is invertible: only 0 goes to 0. */
  lemma StepKernel(chk: bv32)
    requires Small(chk) && Step(chk, 0) == 0
    ensures chk == 0
  {
  }

  lemma StepFromShort(chk: bv32, v: bv32)
    requires chk < 0x200_0000
    ensures Step(chk, v) == (chk << 5) ^ v
  {
  }

  // ---------------------------------------------------------------------------
  // Whole strings of symbols
  // ---------------------------------------------------------------------------

  /** b32_polymod from a given state. */
  function Feed(chk: bv32, vs: seq<bv32>): bv32
  {
    if |vs| == 0 then chk else Step(Feed(chk, vs[..|vs| - 1]), vs[|vs| - 1])
  }

  function Polymod(vs: seq<bv32>): bv32
  {
    Feed(1, vs)
  }

  predicate Symbols(vs: seq<bv32>)
  {
    forall i :: 0 <= i < |vs| ==> vs[i] < 32
  }

  function XorAll(v: seq<bv32>, w: seq<bv32>): (r: seq<bv32>)
    requires |v| == |w|
    ensures |r| == |v|
  {
    seq(|v|, i requires 0 <= i < |v| => Xor(v[i], w[i]))
  }

  lemma {:induction false} FeedLinear(a: bv32, b: bv32, v: seq<bv32>, w: seq<bv32>)
    requires |v| == |w|
    ensures Feed(Xor(a, b), XorAll(v, w)) == Xor(Feed(a, v), Feed(b, w))
  {
    hide Xor, Step;
    if |v| > 0 {
      var n := |v| - 1;
      FeedLinear(a, b, v[..n], w[..n]);
      assert XorAll(v, w)[..n] == XorAll(v[..n], w[..n]);
      StepLinear(Feed(a, v[..n]), Feed(b, w[..n]), v[n], w[n]);
    }
  }

  lemma {:induction false} FeedSplit(chk: bv32, v: seq<bv32>, w: seq<bv32>)
    ensures Feed(chk, v + w) == Feed(Feed(chk, v), w)
  {
    hide Step;
    if |w| == 0 {
      assert v + w == v;
    } else {
      var n := |w| - 1;
      FeedSplit(chk, v, w[..n]);
      assert (v + w)[..|v| + n] == v + w[..n];
    }
  }

  lemma {:induction false} FeedSmall(chk: bv32, v: seq<bv32>)
    requires Small(chk) && Symbols(v)
    ensures Small(Feed(chk, v))
  {
    hide Step, Small;
    if |v| > 0 {
      FeedSmall(chk, v[..|v| - 1]);
      StepSmall(Feed(chk, v[..|v| - 1]), v[|v| - 1]);
    }
  }

  // ---------------------------------------------------------------------------
  // The six checksum symbols
  // ---------------------------------------------------------------------------

  const ZEROS: seq<bv32> := [0, 0, 0, 0, 0, 0]

  /** Six symbols as one 30-bit word. */
  function Pack(c: seq<bv32>): bv32
    requires |c| == 6
  {
    ((((((((((c[0] << 5) ^ c[1]) << 5) ^ c[2]) << 5) ^ c[3]) << 5) ^ c[4]) << 5) ^ c[5])
  }

  /** (mod >> 5 * (5 - i)) & 0x1f */
  function Unpack(m: bv32): (c: seq<bv32>)
    ensures |c| == 6
  {
    [(m >> 25) & 31, (m >> 20) & 31, (m >> 15) & 31, (m >> 10) & 31, (m >> 5) & 31, m & 31]
  }

  lemma PackUnpack(m: bv32)
    requires Small(m)
    ensures Symbols(Unpack(m)) && Pack(Unpack(m)) == m
  {
  }

  lemma UnpackPack(c: seq<bv32>)
    requires |c| == 6 && Symbols(c)
    ensures Unpack(Pack(c)) == c
  {
    hide Pack, Unpack;
    UnpackSix(c[0], c[1], c[2], c[3], c[4], c[5]);
    assert c == [c[0], c[1], c[2], c[3], c[4], c[5]];
  }

  lemma UnpackSix(a: bv32, b: bv32, c: bv32, d: bv32, e: bv32, f: bv32)
    requires a < 32 && b < 32 && c < 32 && d < 32 && e < 32 && f < 32
    ensures Unpack(Pack([a, b, c, d, e, f])) == [a, b, c, d, e, f]
  {
  }

  lemma PackSteps(a: bv32, b: bv32, c: bv32, d: bv32, e: bv32, f: bv32)
    requires a < 32 && b < 32 && c < 32 && d < 32 && e < 32 && f < 32
    ensures Step(Step(Step(Step(Step(Step(0, a), b), c), d), e), f) == Pack([a, b, c, d, e, f])
  {
    var s1 := a;
    var s2 := (s1 << 5) ^ b;
    var s3 := (s2 << 5) ^ c;
    var s4 := (s3 << 5) ^ d;
    var s5 := (s4 << 5) ^ e;
    assert s5 < 0x200_0000;
    StepFromShort(0, a);
    StepFromShort(s1, b);
    StepFromShort(s2, c);
    StepFromShort(s3, d);
    StepFromShort(s4, e);
    StepFromShort(s5, f);
    hide Step;
    assert Step(0, a) == s1;
  }

  lemma FeedSix(chk: bv32, c: seq<bv32>)
    requires |c| == 6
    ensures Feed(chk, c) == Step(Step(Step(Step(Step(Step(chk, c[0]), c[1]), c[2]), c[3]), c[4]), c[5])
  {
    hide Step;
    assert c[..1][..0] == [] && c[..2][..1] == c[..1] && c[..3][..2] == c[..2] && c[..4][..3] == c[..3];
    assert c[..5][..4] == c[..4] && c[..6] == c && c[..6][..5] == c[..5];
    assert Feed(chk, c[..1]) == Step(Feed(chk, c[..0]), c[0]);
    assert Feed(chk, c[..2]) == Step(Feed(chk, c[..1]), c[1]);
    assert Feed(chk, c[..3]) == Step(Feed(chk, c[..2]), c[2]);
    assert Feed(chk, c[..4]) == Step(Feed(chk, c[..3]), c[3]);
    assert Feed(chk, c[..5]) == Step(Feed(chk, c[..4]), c[4]);
  }

  /** Six symbols after any state add themselves to what six zeros would give. */
  lemma LastSix(chk: bv32, c: seq<bv32>)
    requires |c| == 6 && Symbols(c)
    ensures Feed(chk, c) == Xor(Feed(chk, ZEROS), Pack(c))
  {
    hide Xor, Step, Pack, Feed;
    XorZero(chk);
    forall i | 0 <= i < 6
      ensures Xor(ZEROS[i], c[i]) == c[i]
    {
      XorZero(c[i]);
    }
    assert XorAll(ZEROS, c) == c;
    FeedLinear(chk, 0, ZEROS, c);
    FeedSix(0, c);
    PackSteps(c[0], c[1], c[2], c[3], c[4], c[5]);
    assert c == [c[0], c[1], c[2], c[3], c[4], c[5]];
  }

  /** The symbols bech32_encode appends to the expanded prefix and data. */
  function Checksum(vs: seq<bv32>): (c: seq<bv32>)
    ensures |c| == 6
  {
    Unpack(Xor(Polymod(vs + ZEROS), 1))
  }

  lemma ZerosAreSymbols()
    ensures Symbols(ZEROS) && Small(1) && Small(0)
  {
  }

  lemma XorSmall(a: bv32, b: bv32)
    requires Small(a) && Small(b)
    ensures Small(Xor(a, b))
  {
  }

  /** Six symbols make the checksum of a string 1 exactly when they are the appended ones. */
  lemma ChecksumIff(vs: seq<bv32>, c: seq<bv32>)
    requires Symbols(vs) && |c| == 6 && Symbols(c)
    ensures Polymod(vs + c) == 1 <==> c == Checksum(vs)
    ensures Symbols(Checksum(vs))
  {
    hide Xor, Step, Pack, Feed, Unpack, Small, Symbols;
    ZerosAreSymbols();
    FeedSplit(1, vs, c);
    FeedSplit(1, vs, ZEROS);
    FeedSmall(1, vs);
    FeedSmall(Feed(1, vs), ZEROS);
    var z := Feed(Feed(1, vs), ZEROS);
    LastSix(Feed(1, vs), c);
    var m := Xor(z, 1);
    XorSmall(z, 1);
    PackUnpack(m);
    XorAssoc(z, z, 1);
    XorZero(z);
    XorZero(1);
    UnpackPack(c);
    if Polymod(vs + c) == 1 {
      XorCancel(z, Pack(c), m);
    }
  }

  lemma {:induction false} FeedNonzero(chk: bv32, zeros: seq<bv32>)
    requires Small(chk) && chk != 0 && forall i :: 0 <= i < |zeros| ==> zeros[i] == 0
    ensures Feed(chk, zeros) != 0
  {
    hide Step, Small;
    if |zeros| > 0 {
      var n := |zeros| - 1;
      FeedNonzero(chk, zeros[..n]);
      FeedSmall(chk, zeros[..n]);
      if Step(Feed(chk, zeros[..n]), 0) == 0 {
        StepKernel(Feed(chk, zeros[..n]));
      }
    }
  }

  /** Changing any one symbol of a valid string makes it invalid. */
  lemma SingleErrorDetected(vs: seq<bv32>, i: nat, x: bv32)
    requires Symbols(vs) && i < |vs| && x < 32 && x != vs[i] && Polymod(vs) == 1
    ensures Polymod(vs[i := x]) != 1
  {
    hide Xor, Step, Feed, Small;
    var ws := vs[i := x];
    var front, tail := vs[..i], vs[i + 1..];
    assert vs == front + [vs[i]] + tail && ws == front + [x] + tail;
    FeedSplit(1, front + [vs[i]], tail);
    FeedSplit(1, front + [x], tail);
    FeedSplit(1, front, [vs[i]]);
    FeedSplit(1, front, [x]);
    var s := Feed(1, front);
    FeedOne(s, vs[i]);
    FeedOne(s, x);
    var (a, b) := (Step(s, vs[i]), Step(s, x));
    var d := Xor(vs[i], x);
    StepDifference(s, vs[i], x);
    var z := seq(|tail|, k => 0 as bv32);
    XorSame(tail);
    FeedLinear(a, b, tail, tail);
    FeedNonzero(d, z);
    if Polymod(ws) == 1 {
      XorZero(1);
    }
  }

  lemma FeedOne(chk: bv32, v: bv32)
    ensures Feed(chk, [v]) == Step(chk, v)
  {
    hide Step;
    assert [v][..0] == [];
    assert Feed(chk, []) == chk;
  }

  lemma XorSame(t: seq<bv32>)
    ensures XorAll(t, t) == seq(|t|, k => 0 as bv32)
  {
    forall k | 0 <= k < |t|
      ensures Xor(t[k], t[k]) == 0
    {
      XorZero(t[k]);
    }
  }

  lemma StepDifference(s: bv32, v: bv32, w: bv32)
    requires v < 32 && w < 32 && v != w
    ensures Xor(Step(s, v), Step(s, w)) == Xor(v, w) && Small(Xor(v, w)) && Xor(v, w) != 0
  {
    assert Small(Xor(v, w)) && Xor(v, w) != 0;
    hide Xor, Step, Small;
    StepLinear(s, s, v, w);
    XorZero(s);
  }

}
