/** Regrouping bits, as src/age_plugin.c does for Bech32 (8 to 5 and back) and base64 (8 to 6 and back):
    the accumulator loop, and why the regrouping is canonical. */
module BitGroups {
  import opened Common

  /** The w low bits of v, the highest first. */
  function Bits(v: nat, w: nat): (b: seq<bool>)
    ensures |b| == w
  {
    if w == 0 then [] else Bits(v / 2, w - 1) + [v % 2 == 1]
  }

  /** The bits of a string of w-bit groups. */
  function AllBits(s: seq<nat>, w: nat): (b: seq<bool>)
    ensures |b| == |s| * w
  {
    if |s| == 0 then [] else AllBits(s[..|s| - 1], w) + Bits(s[|s| - 1], w)
  }

  predicate Below(s: seq<nat>, w: nat)
  {
    forall i :: 0 <= i < |s| ==> s[i] < Pow2(w)
  }

  function Falses(n: nat): (b: seq<bool>)
    ensures |b| == n
  {
    seq(n, i => false)
  }

  predicate NoneSet(b: seq<bool>)
  {
    forall i :: 0 <= i < |b| ==> !b[i]
  }

  // ---------------------------------------------------------------------------
  // Bits determine the groups
  // ---------------------------------------------------------------------------

  lemma {:induction false} BitsSplit(v: nat, a: nat, b: nat)
    ensures Bits(v, a + b) == Bits(Shift(v, b), a) + Bits(v, b)
    decreases b
  {
    if b > 0 {
      BitsSplit(v / 2, a, b - 1);
      assert Bits(v, a + b) == Bits(v / 2, a + b - 1) + [v % 2 == 1];
    }
  }

  /** v & (2^w - 1), bit by bit */
  function Mask(v: nat, w: nat): (m: nat)
    ensures m < Pow2(w)
  {
    if w == 0 then 0 else 2 * Mask(v / 2, w - 1) + v % 2
  }

  lemma {:induction false} BitsMask(v: nat, w: nat, n: nat)
    requires w <= n
    ensures Bits(Mask(v, n), w) == Bits(v, w)
    decreases w
  {
    if w > 0 {
      BitsMask(v / 2, w - 1, n - 1);
    }
  }

  /** v << k */
  function ShiftLeft(v: nat, k: nat): nat
  {
    if k == 0 then v else 2 * ShiftLeft(v, k - 1)
  }

  /** (v << k) | x for x below 2^k: the bits of v, then those of x. */
  lemma {:induction false} BitsOr(v: nat, w: nat, x: nat, k: nat)
    requires x < Pow2(k)
    ensures Bits(ShiftLeft(v, k) + x, w + k) == Bits(v, w) + Bits(x, k)
    decreases k
  {
    if k > 0 {
      BitsOr(v, w, x / 2, k - 1);
      var s := ShiftLeft(v, k) + x;
      assert s / 2 == ShiftLeft(v, k - 1) + x / 2 && s % 2 == x % 2;
      assert Bits(s, w + k) == Bits(s / 2, w + k - 1) + [s % 2 == 1];
    } else {
      assert Bits(x, 0) == [];
    }
  }

  lemma {:induction false} BitsInjective(v: nat, x: nat, w: nat)
    requires v < Pow2(w) && x < Pow2(w) && Bits(v, w) == Bits(x, w)
    ensures v == x
  {
    if w > 0 {
      var (a, b) := (Bits(v, w), Bits(x, w));
      assert a[..w - 1] == Bits(v / 2, w - 1) && b[..w - 1] == Bits(x / 2, w - 1);
      assert a[w - 1] == b[w - 1];
      BitsInjective(v / 2, x / 2, w - 1);
    }
  }

  lemma {:induction false} BitsZero(v: nat, w: nat)
    requires v < Pow2(w)
    ensures NoneSet(Bits(v, w)) <==> v == 0
  {
    if w > 0 {
      BitsZero(v / 2, w - 1);
      var b := Bits(v, w);
      assert b[..w - 1] == Bits(v / 2, w - 1);
      if NoneSet(b) {
        assert !b[w - 1];
        assert forall i :: 0 <= i < w - 1 ==> b[..w - 1][i] == b[i];
      }
    }
  }

  /** Groups of one width are determined by their bits. */
  lemma {:induction false} AllBitsInjective(s: seq<nat>, t: seq<nat>, w: nat)
    requires w > 0 && Below(s, w) && Below(t, w) && AllBits(s, w) == AllBits(t, w)
    ensures s == t
  {
    hide Bits, Pow2;
    SameLength(|s|, |t|, w);
    if |s| > 0 {
      var n := |s| - 1;
      var (a, b) := (AllBits(s, w), AllBits(t, w));
      assert a[..n * w] == AllBits(s[..n], w) && b[..n * w] == AllBits(t[..n], w);
      assert a[n * w..] == Bits(s[n], w) && b[n * w..] == Bits(t[n], w);
      BitsInjective(s[n], t[n], w);
      AllBitsInjective(s[..n], t[..n], w);
      assert s == s[..n] + [s[n]] && t == t[..n] + [t[n]];
    }
  }

  lemma SameLength(m: nat, n: nat, w: nat)
    requires w > 0 && m * w == n * w
    ensures m == n
  {
    TimesOrdered(m + 1, n, w);
    TimesOrdered(n + 1, m, w);
  }

  lemma {:induction false} AllBitsAppend(s: seq<nat>, x: nat, w: nat)
    ensures AllBits(s + [x], w) == AllBits(s, w) + Bits(x, w)
  {
    assert (s + [x])[..|s|] == s;
  }

  // ---------------------------------------------------------------------------
  // The accumulator loop
  // ---------------------------------------------------------------------------

  /** The groups of width w that spell the bits. */
  ghost predicate Spells(s: seq<nat>, w: nat, b: seq<bool>)
  {
    Below(s, w) && AllBits(s, w) == b
  }

  /** What regrouping must give: when padding, zeros complete the last group; otherwise fewer bits than
      an input group may be left over, all zero. */
  ghost predicate Regrouped(input: seq<nat>, from: nat, to: nat, pad: bool, r: Option<seq<nat>>)
  {
    var all := AllBits(input, from);
    match r
    case Some(out) =>
      if pad then
        && |all| <= |out| * to < |all| + to
        && Spells(out, to, all + Falses(|out| * to - |all|))
      else
        && |out| * to <= |all| < |out| * to + to
        && |all| - |out| * to < from
        && Spells(out, to, all[..|out| * to])
        && NoneSet(all[|out| * to..])
    case None => !pad && Rejected(all, from, Whole(|all|, to) * to)
  }

  /** From bit m on there are too many bits left over, or one of them is set. */
  predicate Rejected(all: seq<bool>, from: nat, m: nat)
  {
    m <= |all| && (|all| - m >= from || !NoneSet(all[m..]))
  }

  /** How many whole groups of w there are in n bits. */
  function Whole(n: nat, w: nat): nat
  {
    if n < w || w == 0 then 0 else 1 + Whole(n - w, w)
  }

  lemma {:induction false} WholeCounts(n: nat, w: nat)
    requires w > 0
    ensures Whole(n, w) * w <= n < Whole(n, w) * w + w
  {
    if n >= w {
      WholeCounts(n - w, w);
      TimesOrdered(Whole(n - w, w), 0, w);
    } else {
      TimesOrdered(0, 0, w);
    }
  }

  lemma CountUnique(m: nat, n: nat, w: nat, len: nat)
    requires w > 0 && m * w <= len < m * w + w && n * w <= len < n * w + w
    ensures m == n
  {
    TimesOrdered(m + 1, n, w);
    TimesOrdered(n + 1, m, w);
  }

  lemma WholeIs(n: nat, w: nat, m: nat)
    requires w > 0 && m * w <= n < m * w + w
    ensures Whole(n, w) == m
  {
    WholeCounts(n, w);
    CountUnique(m, Whole(n, w), w, n);
  }

  lemma EmitGroup(all: seq<bool>, out: seq<nat>, acc: nat, bits: nat, to: nat)
    requires bits >= to && all == AllBits(out, to) + Bits(acc, bits) && Below(out, to)
    ensures var g := Mask(Shift(acc, bits - to), to);
      && g < Pow2(to)
      && Below(out + [g], to)
      && all == AllBits(out + [g], to) + Bits(acc, bits - to)
  {
    hide Bits, Pow2;
    var g := Mask(Shift(acc, bits - to), to);
    BitsSplit(acc, to, bits - to);
    BitsMask(Shift(acc, bits - to), to, to);
    AllBitsAppend(out, g, to);
  }

  lemma TakeGroup(all: seq<bool>, out: seq<nat>, acc: nat, bits: nat, to: nat, from: nat, x: nat)
    requires bits + from <= 32 && x < Pow2(from) && all == AllBits(out, to) + Bits(acc, bits)
    ensures all + Bits(x, from) == AllBits(out, to) + Bits(Mask(ShiftLeft(acc, from) + x, 32), bits + from)
  {
    hide Bits, Pow2, AllBits, ShiftLeft, Mask;
    BitsOr(acc, bits, x, from);
    BitsMask(ShiftLeft(acc, from) + x, bits + from, 32);
  }

  lemma {:induction false} ShiftLeftBits(v: nat, w: nat, k: nat)
    ensures Bits(ShiftLeft(v, k), w + k) == Bits(v, w) + Falses(k)
  {
    Pow2AtLeastOne(k);
    BitsOr(v, w, 0, k);
    ZeroBits(k);
  }

  lemma Pow2AtLeastOne(k: nat)
    ensures 0 < Pow2(k)
  {
  }

  lemma {:induction false} ZeroBits(k: nat)
    ensures Bits(0, k) == Falses(k)
  {
    if k > 0 {
      ZeroBits(k - 1);
    }
  }

  /** convert_bits without the output capacity. */
  method ConvertBits(input: seq<nat>, from: nat, to: nat, pad: bool) returns (r: Option<seq<nat>>)
    requires Below(input, from) && 0 < from <= 8 && 0 < to <= 8
    ensures Regrouped(input, from, to, pad, r)
  {
    hide Bits, Mask, Shift, ShiftLeft, Pow2, AllBits;
    ghost var all := AllBits(input, from);
    var acc: nat, bits: nat := 0, 0;
    var out: seq<nat> := [];
    NoBits(input, from, to);
    var i: nat := 0;
    while i < |input|
      invariant i <= |input| && bits < to && Below(out, to)
      invariant AllBits(input[..i], from) == AllBits(out, to) + Bits(acc, bits)
    {
      assert input[..i + 1] == input[..i] + [input[i]];
      AllBitsAppend(input[..i], input[i], from);
      TakeGroup(AllBits(input[..i], from), out, acc, bits, to, from, input[i]);
      acc := Mask(ShiftLeft(acc, from) + input[i], 32);
      bits := bits + from;
      i := i + 1;
      while bits >= to
        invariant Below(out, to) && AllBits(input[..i], from) == AllBits(out, to) + Bits(acc, bits)
      {
        EmitGroup(AllBits(input[..i], from), out, acc, bits, to);
        bits := bits - to;
        out := out + [Mask(Shift(acc, bits), to)];
      }
    }
    assert input[..i] == input;
    TimesOrdered(|out|, |out|, to);
    if pad {
      if bits > 0 {
        PadGroup(all, out, acc, bits, to);
        out := out + [Mask(ShiftLeft(acc, to - bits), to)];
      } else {
        assert Falses(0) == [] && Bits(acc, 0) == [];
      }
    } else {
      LeftOver(acc, bits, to);
      assert all[|out| * to..] == Bits(acc, bits) && all[..|out| * to] == AllBits(out, to);
      if bits >= from || Mask(ShiftLeft(acc, to - bits), to) != 0 {
        WholeIs(|all|, to, |out|);
        return None;
      }
    }
    r := Some(out);
  }

  lemma NoBits(input: seq<nat>, from: nat, to: nat)
    ensures AllBits(input[..0], from) == [] && AllBits([], to) == [] && Bits(0, 0) == [] && Below([], to)
  {
  }

  lemma PadGroup(all: seq<bool>, out: seq<nat>, acc: nat, bits: nat, to: nat)
    requires bits < to && all == AllBits(out, to) + Bits(acc, bits) && Below(out, to)
    ensures var g := Mask(ShiftLeft(acc, to - bits), to);
      Below(out + [g], to) && AllBits(out + [g], to) == all + Falses(to - bits)
  {
    hide Bits, Pow2;
    var g := Mask(ShiftLeft(acc, to - bits), to);
    ShiftLeftBits(acc, bits, to - bits);
    BitsMask(ShiftLeft(acc, to - bits), to, to);
    AllBitsAppend(out, g, to);
  }

  /** The leftover test looks at exactly the bits that were not emitted. */
  lemma LeftOver(acc: nat, bits: nat, to: nat)
    requires bits < to
    ensures Mask(ShiftLeft(acc, to - bits), to) == 0 <==> NoneSet(Bits(acc, bits))
  {
    hide Bits, Pow2;
    var g := Mask(ShiftLeft(acc, to - bits), to);
    ShiftLeftBits(acc, bits, to - bits);
    BitsMask(ShiftLeft(acc, to - bits), to, to);
    BitsZero(g, to);
    var b := Bits(acc, bits) + Falses(to - bits);
    assert forall i :: 0 <= i < bits ==> b[i] == Bits(acc, bits)[i];
  }

  // ---------------------------------------------------------------------------
  // Regrouping as a function, and its inverse
  // ---------------------------------------------------------------------------

  function NumberOf(b: seq<bool>): nat
  {
    if |b| == 0 then 0 else 2 * NumberOf(b[..|b| - 1]) + if b[|b| - 1] then 1 else 0
  }

  lemma {:induction false} NumberBits(b: seq<bool>)
    ensures NumberOf(b) < Pow2(|b|) && Bits(NumberOf(b), |b|) == b
  {
    if |b| > 0 {
      NumberBits(b[..|b| - 1]);
      assert b == b[..|b| - 1] + [b[|b| - 1]];
    }
  }

  /** The bits in groups of w; a last incomplete group is dropped. */
  function Groups(b: seq<bool>, w: nat): seq<nat>
    requires w > 0
    decreases |b|
  {
    if |b| < w then [] else [NumberOf(b[..w])] + Groups(b[w..], w)
  }

  lemma {:induction false} AllBitsCons(x: nat, s: seq<nat>, w: nat)
    ensures AllBits([x] + s, w) == Bits(x, w) + AllBits(s, w)
  {
    hide Bits;
    if |s| == 0 {
      assert [x] + s == [x] && [x][..0] == [];
    } else {
      var n := |s| - 1;
      AllBitsCons(x, s[..n], w);
      assert ([x] + s)[..n + 1] == [x] + s[..n];
    }
  }

  lemma {:induction false} GroupsSpell(b: seq<bool>, w: nat)
    requires w > 0
    ensures |Groups(b, w)| * w <= |b| < |Groups(b, w)| * w + w
    ensures Spells(Groups(b, w), w, b[..|Groups(b, w)| * w])
    decreases |b|
  {
    hide Bits, Pow2;
    if |b| >= w {
      GroupsSpell(b[w..], w);
      NumberBits(b[..w]);
      var rest := Groups(b[w..], w);
      AllBitsCons(NumberOf(b[..w]), rest, w);
      TimesOrdered(|rest|, |rest|, w);
      assert b[..(|rest| + 1) * w] == b[..w] + b[w..][..|rest| * w];
    } else {
      assert b[..0] == [];
    }
  }

  /** The zero bits that complete n bits to groups of w. */
  function Filler(n: nat, w: nat): (k: nat)
    requires w > 0
    ensures k < w
  {
    if n == 0 then 0 else if n >= w then Filler(n - w, w) else w - n
  }

  /** convert_bits as a function. */
  function Regroup(input: seq<nat>, from: nat, to: nat, pad: bool): Option<seq<nat>>
    requires to > 0
  {
    var all := AllBits(input, from);
    if pad then Some(Groups(all + Falses(Filler(|all|, to)), to))
    else
      var out := Groups(all, to);
      if |out| * to <= |all| && |all| - |out| * to < from && NoneSet(all[|out| * to..]) then Some(out) else None
  }

  lemma {:induction false} WholeGroups(n: nat, w: nat) returns (m: nat)
    requires w > 0
    ensures m * w == n + Filler(n, w)
    decreases n
  {
    if n >= w {
      m := WholeGroups(n - w, w);
      TimesOrdered(m, m, w);
      m := m + 1;
    } else {
      TimesOrdered(0, 0, w);
      m := if n == 0 then 0 else 1;
    }
  }

  lemma FillerCompletes(n: nat, w: nat, m: nat)
    requires w > 0 && n <= m * w < n + w
    ensures Filler(n, w) == m * w - n
  {
    hide Filler;
    var k := WholeGroups(n, w);
    TimesOrdered(m + 1, k, w);
    TimesOrdered(k + 1, m, w);
  }

  lemma PaddedIs(all: seq<bool>, to: nat, out: seq<nat>)
    requires 0 < to && |all| <= |out| * to < |all| + to
    requires Spells(out, to, all + Falses(|out| * to - |all|))
    ensures Groups(all + Falses(Filler(|all|, to)), to) == out
  {
    hide AllBits, Groups, Filler, Below, Pow2;
    FillerCompletes(|all|, to, |out|);
    var b := all + Falses(|out| * to - |all|);
    GroupsSpell(b, to);
    CountUnique(|Groups(b, to)|, |out|, to, |b|);
    assert b[..|b|] == b;
    AllBitsInjective(Groups(b, to), out, to);
  }

  lemma WholeGroupsAre(all: seq<bool>, to: nat, out: seq<nat>)
    requires 0 < to && |out| * to <= |all| < |out| * to + to && Spells(out, to, all[..|out| * to])
    ensures Groups(all, to) == out
  {
    hide AllBits, Groups, Filler, Below, Pow2;
    GroupsSpell(all, to);
    CountUnique(|Groups(all, to)|, |out|, to, |all|);
    AllBitsInjective(Groups(all, to), out, to);
  }

  lemma RejectedIs(all: seq<bool>, from: nat, to: nat)
    requires 0 < to && Rejected(all, from, Whole(|all|, to) * to)
    ensures var out := Groups(all, to);
      !(|out| * to <= |all| && |all| - |out| * to < from && NoneSet(all[|out| * to..]))
  {
    hide AllBits, Groups, Below, Pow2, NoneSet, Whole;
    GroupsSpell(all, to);
    WholeIs(|all|, to, |Groups(all, to)|);
  }

  /** The relation the loop establishes determines its result. */
  lemma RegroupedIs(input: seq<nat>, from: nat, to: nat, pad: bool, r: Option<seq<nat>>)
    requires 0 < to && Regrouped(input, from, to, pad, r)
    ensures r == Regroup(input, from, to, pad)
  {
    hide AllBits, Groups, Filler, Spells, NoneSet, Rejected, Whole;
    var all := AllBits(input, from);
    if pad {
      PaddedIs(all, to, r.value);
    } else if r.Some? {
      WholeGroupsAre(all, to, r.value);
    } else {
      RejectedIs(all, from, to);
    }
  }

  /** The regrouping loop computes the function. */
  method Convert(input: seq<nat>, from: nat, to: nat, pad: bool) returns (r: Option<seq<nat>>)
    requires Below(input, from) && 0 < from <= 8 && 0 < to <= 8
    ensures r == Regroup(input, from, to, pad)
  {
    r := ConvertBits(input, from, to, pad);
    RegroupedIs(input, from, to, pad, r);
  }

  /** Regrouping with padding into narrower groups always succeeds and spells the input bits. */
  lemma PaddedGroups(data: seq<nat>, w: nat)
    requires 0 < w && Below(data, 8)
    ensures Regroup(data, 8, w, true).Some?
    ensures var d := Regroup(data, 8, w, true).value;
      && |data| * 8 <= |d| * w < |data| * 8 + w
      && Spells(d, w, AllBits(data, 8) + Falses(|d| * w - |data| * 8))
  {
    hide AllBits, Groups, Below, Pow2;
    var all := AllBits(data, 8);
    var m := WholeGroups(|all|, w);
    var b := all + Falses(Filler(|all|, w));
    GroupsSpell(b, w);
    CountUnique(|Groups(b, w)|, m, w, |b|);
    assert b[..|b|] == b;
  }

  /** Regrouping bytes into groups of 5 or 6 bits and back gives the bytes. */
  lemma RegroupRoundTrip(data: seq<nat>, w: nat)
    requires 0 < w <= 7 && Below(data, 8)
    ensures Regroup(data, 8, w, true).Some? && Below(Regroup(data, 8, w, true).value, w)
    ensures Regroup(Regroup(data, 8, w, true).value, w, 8, false) == Some(data)
  {
    hide AllBits, Groups, Pow2, Regroup;
    PaddedGroups(data, w);
    var d := Regroup(data, 8, w, true).value;
    var all := AllBits(d, w);
    assert all[..|data| * 8] == AllBits(data, 8) && all[|data| * 8..] == Falses(|d| * w - |data| * 8);
    RegroupedIs(d, w, 8, false, Some(data));
  }

  /** It is canonical: groups that are accepted back are the groups of their bytes. */
  lemma RegroupCanonical(d: seq<nat>, w: nat)
    requires 0 < w <= 8 && Below(d, w) && Regroup(d, w, 8, false).Some?
    ensures Below(Regroup(d, w, 8, false).value, 8)
    ensures Regroup(Regroup(d, w, 8, false).value, 8, w, true) == Some(d)
  {
    hide AllBits, Groups, Pow2;
    var all := AllBits(d, w);
    GroupsSpell(all, 8);
    var data := Regroup(d, w, 8, false).value;
    assert all == all[..|data| * 8] + all[|data| * 8..];
    assert all[|data| * 8..] == Falses(|d| * w - |data| * 8);
    RegroupedIs(data, 8, w, true, Some(d));
  }
}
