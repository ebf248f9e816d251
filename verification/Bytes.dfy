/** Byte strings and big-endian numbers, as the wire formats use them. */
module Bytes {
  import opened Common

  function BigEndian(v: nat, width: nat): (b: seq<byte>)
    ensures |b| == width
  {
    if width == 0 then [] else BigEndian(v / 256, width - 1) + [(v % 256) as byte]
  }

  function FromBigEndian(b: seq<byte>): nat
  {
    if |b| == 0 then 0 else 256 * FromBigEndian(b[..|b| - 1]) + b[|b| - 1] as nat
  }

  function Zeros(n: nat): (z: seq<byte>)
    ensures |z| == n
  {
    seq(n, i => 0)
  }

  lemma Pow256(width: nat)
    ensures Pow2(0) == 1 && Pow2(8 * (width + 1)) == 256 * Pow2(8 * width)
  {
    Pow2Values();
    Pow2Add(8 * width, 8);
  }

  /** Reading back what was written, modulo the width. */
  lemma {:induction false} ReadsBack(v: nat, width: nat)
    requires v < Pow2(8 * width)
    ensures FromBigEndian(BigEndian(v, width)) == v
  {
    hide Pow2;
    if width == 0 {
      Pow256(0);
    } else {
      Pow256(width - 1);
      ReadsBack(v / 256, width - 1);
      assert BigEndian(v, width)[..width - 1] == BigEndian(v / 256, width - 1);
    }
  }

  /** Writing back what was read. */
  lemma {:induction false} WritesBack(b: seq<byte>)
    ensures FromBigEndian(b) < Pow2(8 * |b|) && BigEndian(FromBigEndian(b), |b|) == b
  {
    hide Pow2;
    if |b| == 0 {
      Pow256(0);
    } else {
      Pow256(|b| - 1);
      WritesBack(b[..|b| - 1]);
      var v := FromBigEndian(b);
      assert v / 256 == FromBigEndian(b[..|b| - 1]) && v % 256 == b[|b| - 1] as nat;
      assert b == b[..|b| - 1] + [b[|b| - 1]];
    }
  }

  lemma BigEndianInjective(v: nat, w: nat, width: nat)
    requires v < Pow2(8 * width) && w < Pow2(8 * width)
    requires BigEndian(v, width) == BigEndian(w, width)
    ensures v == w
  {
    ReadsBack(v, width);
    ReadsBack(w, width);
  }

  lemma Widths()
    ensures Pow2(16) == 0x1_0000 && Pow2(32) == U32 && Pow2(64) == U64
  {
    Pow2Values();
  }

  lemma ReadsBackU16(v: nat)
    requires v < 0x1_0000
    ensures FromBigEndian(BigEndian(v, 2)) == v
  {
    Widths();
    ReadsBack(v, 2);
  }

  lemma ReadsBackU32(v: nat)
    requires v < U32
    ensures FromBigEndian(BigEndian(v, 4)) == v
  {
    Widths();
    ReadsBack(v, 4);
  }

  lemma WritesBackU16(b: seq<byte>)
    requires |b| == 2
    ensures FromBigEndian(b) < 0x1_0000 && BigEndian(FromBigEndian(b), 2) == b
  {
    Widths();
    WritesBack(b);
  }

  lemma WritesBackU32(b: seq<byte>)
    requires |b| == 4
    ensures FromBigEndian(b) < U32 && BigEndian(FromBigEndian(b), 4) == b
  {
    Widths();
    WritesBack(b);
  }

  // ---------------------------------------------------------------------------
  // Little endian
  // ---------------------------------------------------------------------------

  function LittleEndian(v: nat, width: nat): (b: seq<byte>)
    ensures |b| == width
  {
    if width == 0 then [] else [(v % 256) as byte] + LittleEndian(v / 256, width - 1)
  }

  function FromLittleEndian(b: seq<byte>): nat
  {
    if |b| == 0 then 0 else b[0] as nat + 256 * FromLittleEndian(b[1..])
  }

  lemma {:induction false} ReadsBackLittle(v: nat, width: nat)
    requires v < Pow2(8 * width)
    ensures FromLittleEndian(LittleEndian(v, width)) == v
  {
    hide Pow2;
    if width == 0 {
      Pow256(0);
    } else {
      Pow256(width - 1);
      ReadsBackLittle(v / 256, width - 1);
      assert LittleEndian(v, width)[1..] == LittleEndian(v / 256, width - 1);
    }
  }

  lemma {:induction false} WritesBackLittle(b: seq<byte>)
    ensures FromLittleEndian(b) < Pow2(8 * |b|) && LittleEndian(FromLittleEndian(b), |b|) == b
  {
    hide Pow2;
    if |b| == 0 {
      Pow256(0);
    } else {
      Pow256(|b| - 1);
      WritesBackLittle(b[1..]);
      var v := FromLittleEndian(b);
      assert v / 256 == FromLittleEndian(b[1..]) && v % 256 == b[0] as nat;
      assert b == [b[0]] + b[1..];
    }
  }

  lemma ReadsBackLittle16(v: nat)
    requires v < 0x1_0000
    ensures FromLittleEndian(LittleEndian(v, 2)) == v
  {
    Widths();
    ReadsBackLittle(v, 2);
  }

  lemma ReadsBackLittle64(v: nat)
    requires v < U64
    ensures FromLittleEndian(LittleEndian(v, 8)) == v
  {
    Widths();
    ReadsBackLittle(v, 8);
  }
}
