/** The size-hiding padding of src/crypto_utils.c (Padmé): a length keeps only its leading bits. */
module Padme {
  import opened Common

  /** floor(log2 n): the position of the highest bit set, 63 - clz for a 64-bit n > 0. */
  function Log2(n: nat): nat
  {
    if n < 2 then 0 else 1 + Log2(n / 2)
  }

  /** How many low bits a length of order E loses; none when the result is not positive. */
  function LowBits(e: nat): int
  {
    e - (Log2(e) + 1)
  }

  /** x & ~(2^k - 1), bit by bit */
  function DropLow(x: nat, k: nat): nat
  {
    if k == 0 then x else 2 * DropLow(x / 2, k - 1)
  }

  /** crypto_padme_size, with the 64-bit addition. */
  function Padded(n: nat): nat
  {
    if n < 2 then n
    else
      var e := Log2(n);
      if LowBits(e) <= 0 then n
      else DropLow((n + Pow2(LowBits(e)) - 1) % U64, LowBits(e))
  }

  lemma {:induction false} Log2Bounds(n: nat)
    requires n > 0
    ensures Pow2(Log2(n)) <= n < Pow2(Log2(n) + 1)
  {
    if n > 1 {
      Log2Bounds(n / 2);
      Pow2Step(Log2(n / 2));
      Pow2Step(Log2(n / 2) + 1);
    }
  }

  /** The bucket a number lies in determines its order. */
  lemma Log2Unique(n: nat, e: nat)
    requires Pow2(e) <= n < Pow2(e + 1)
    ensures Log2(n) == e
  {
    hide Pow2;
    Log2Bounds(n);
    if Log2(n) < e {
      Pow2Monotonic(Log2(n) + 1, e);
    } else if e < Log2(n) {
      Pow2Monotonic(e + 1, Log2(n));
    }
  }

  function Scaled(q: nat, p: nat): nat
  {
    q * p
  }

  lemma {:induction false} DropBounds(x: nat, k: nat)
    ensures DropLow(x, k) <= x < DropLow(x, k) + Pow2(k)
  {
    if k > 0 {
      DropBounds(x / 2, k - 1);
    }
  }

  lemma {:induction false} DropMonotonic(x: nat, y: nat, k: nat)
    requires x <= y
    ensures DropLow(x, k) <= DropLow(y, k)
    decreases k
  {
    if k > 0 {
      DropMonotonic(x / 2, y / 2, k - 1);
    }
  }

  lemma Halved(q: nat, k: nat, r: nat)
    requires k > 0
    ensures (Scaled(q, Pow2(k)) + r) / 2 == Scaled(q, Pow2(k - 1)) + r / 2
    ensures Scaled(q, Pow2(k)) == 2 * Scaled(q, Pow2(k - 1))
  {
    assert q * (2 * Pow2(k - 1)) == 2 * (q * Pow2(k - 1));
  }

  lemma {:induction false} DropMultiple(q: nat, r: nat, k: nat)
    requires r < Pow2(k)
    ensures DropLow(Scaled(q, Pow2(k)) + r, k) == Scaled(q, Pow2(k))
    decreases k
  {
    hide Scaled;
    if k == 0 {
      Once(q);
    } else {
      Halved(q, k, r);
      DropMultiple(q, r / 2, k - 1);
    }
  }

  lemma Once(q: nat)
    ensures Scaled(q, 1) == q && Scaled(0, q) == 0 && Pow2(0) == 1
  {
  }

  lemma {:induction false} DropIs(x: nat, k: nat)
    ensures DropLow(x, k) == Scaled(Shift(x, k), Pow2(k))
    decreases k
  {
    hide Scaled;
    if k == 0 {
      Once(x);
    } else {
      DropIs(x / 2, k - 1);
      Halved(Shift(x, k), k, 0);
    }
  }

  /** The padded length of n >= 2 as a rounding to a multiple of 2^k, when the addition does not wrap. */
  lemma PaddedIs(n: nat)
    requires n >= 2 && LowBits(Log2(n)) > 0 && n + Pow2(LowBits(Log2(n))) <= U64
    ensures Padded(n) == DropLow(n + Pow2(LowBits(Log2(n))) - 1, LowBits(Log2(n)))
  {
    hide DropLow, Pow2;
  }

  /** The lengths the addition does not wrap for. */
  predicate Fits(n: nat)
  {
    n <= 0xfe00_0000_0000_0000
  }

  lemma Log2Monotonic(a: nat, b: nat)
    requires 0 < a <= b
    ensures Log2(a) <= Log2(b)
  {
    hide Pow2;
    Log2Bounds(a);
    Log2Bounds(b);
    if Log2(b) < Log2(a) {
      Pow2Monotonic(Log2(b) + 1, Log2(a));
    }
  }

  lemma Log2Small()
    ensures Log2(1) == 0 && Log2(2) == 1 && Log2(3) == 1 && Log2(4) == 2 && Log2(8) == 3 && Log2(16) == 4
    ensures Log2(32) == 5 && Log2(63) == 5
  {
    assert Log2(3) == 1 + Log2(1);
    assert Log2(7) == 1 + Log2(3);
    assert Log2(15) == 1 + Log2(7);
    assert Log2(31) == 1 + Log2(15);
    assert Log2(63) == 1 + Log2(31);
    assert Log2(8) == 1 + Log2(4);
    assert Log2(16) == 1 + Log2(8);
    assert Log2(32) == 1 + Log2(16);
  }

  /** At least three leading bits are kept below the first from order 4 on, so at most an eighth is
      added; below that at most one bit goes. */
  lemma BitsKept(e: nat)
    requires e >= 1 && LowBits(e) > 0
    ensures (e >= 4 && LowBits(e) + 3 <= e) || (e == 3 && LowBits(e) == 1)
    ensures LowBits(e) < e
  {
    Log2Small();
    if e >= 4 {
      Log2Monotonic(4, e);
    } else {
      assert e == 1 || e == 2 || e == 3;
    }
  }

  lemma Mask57()
    ensures LowBits(63) == 57 && Pow2(57) == 0x200_0000_0000_0000 && Pow2(63) + Pow2(63) == U64
  {
    Log2Small();
    Pow2Values();
    assert Pow2(63) == 64 * Pow2(57);
  }

  lemma NoWrap(n: nat)
    requires n >= 2 && Fits(n) && LowBits(Log2(n)) > 0
    ensures n + Pow2(LowBits(Log2(n))) <= U64
  {
    hide Pow2, Log2, LowBits;
    var e := Log2(n);
    Mask57();
    Log2Bounds(n);
    OrderBelow64(n);
    if e <= 62 {
      OrderPositive(n);
      LowBitsBelow(e);
      Pow2Monotonic(LowBits(e), 62);
      Pow2Monotonic(e + 1, 63);
      Pow2Step(62);
    }
  }

  lemma LowBitsBelow(e: nat)
    ensures LowBits(e) < e || e == 0
  {
  }

  lemma OrderBelow64(n: nat)
    requires 0 < n < U64
    ensures Log2(n) <= 63
  {
    hide Pow2;
    Log2Bounds(n);
    Pow2Values();
    if Log2(n) >= 64 {
      Pow2Monotonic(64, Log2(n));
    }
  }

  /** The padded length is at least the length and adds at most an eighth of it. */
  lemma PaddedBounds(n: nat)
    requires Fits(n)
    ensures n <= Padded(n) && 8 * (Padded(n) - n) <= n && Padded(n) < U64
  {
    hide DropLow, Pow2, Log2, LowBits;
    if n >= 2 && LowBits(Log2(n)) > 0 {
      var e := Log2(n);
      var k := LowBits(e);
      NoWrap(n);
      PaddedIs(n);
      DropBounds(n + Pow2(k) - 1, k);
      Log2Bounds(n);
      OrderPositive(n);
      BitsKept(e);
      if e >= 4 {
        Pow2Monotonic(k + 3, e);
        Pow2Add(k, 3);
      }
      SmallPowers();
    }
  }

  lemma OrderPositive(n: nat)
    requires n >= 2
    ensures Log2(n) >= 1
  {
  }

  lemma SmallPowers()
    ensures Pow2(0) == 1 && Pow2(1) == 2 && Pow2(3) == 8
  {
  }

  /** Exactly the lengths up to 2^64 - 2^57 are padded to at least themselves; for longer ones the
      64-bit addition wraps and the result is 0. */
  lemma PaddedAtLeastIff(n: nat)
    requires n < U64
    ensures Padded(n) >= n <==> Fits(n)
    ensures !Fits(n) ==> Padded(n) == 0
  {
    hide Pow2, Log2, LowBits, DropLow;
    if Fits(n) {
      PaddedBounds(n);
    } else {
      Mask57();
      Pow2Step(63);
      Log2Unique(n, 63);
      Once(Pow2(57));
      DropMultiple(0, n + Pow2(57) - 1 - U64, 57);
    }
  }

  lemma Cancel(q: nat, p: nat, lo: nat, hi: nat)
    requires p > 0 && lo * p <= Scaled(q, p) <= hi * p
    ensures lo <= q <= hi
  {
    TimesOrdered(q + 1, lo, p);
    TimesOrdered(hi + 1, q, p);
  }

  /** Within a bucket the padded length lies between the bucket's ends. */
  lemma PaddedBetween(n: nat, e: nat)
    requires n >= 2 && Fits(n) && e == Log2(n) && LowBits(e) > 0
    ensures LowBits(e) < e && Pow2(e) <= Padded(n) <= Pow2(e + 1)
  {
    hide Pow2, Log2, LowBits, DropLow, Padded;
    var k := LowBits(e);
    OrderPositive(n);
    BitsKept(e);
    Log2Bounds(n);
    NoWrap(n);
    PaddedIs(n);
    PaddedBounds(n);
    Pow2Add(e + 1 - k, k);
    DropMonotonic(n + Pow2(k) - 1, Pow2(e + 1) + Pow2(k) - 1, k);
    DropMultiple(Pow2(e + 1 - k), Pow2(k) - 1, k);
  }

  /** It is a multiple of 2^k, with at most 2^S + 1 possible factors. */
  lemma PaddedInBucket(n: nat, e: nat) returns (q: nat)
    requires n >= 2 && Fits(n) && e == Log2(n) && LowBits(e) > 0
    ensures Padded(n) == Scaled(q, Pow2(LowBits(e)))
    ensures LowBits(e) < e && Pow2(e - LowBits(e)) <= q <= Pow2(e - LowBits(e) + 1)
    ensures Pow2(e) <= Padded(n) <= Pow2(e + 1)
  {
    hide Pow2, Log2, LowBits, DropLow, Padded, Scaled;
    var k := LowBits(e);
    PaddedBetween(n, e);
    NoWrap(n);
    PaddedIs(n);
    DropIs(n + Pow2(k) - 1, k);
    q := Shift(n + Pow2(k) - 1, k);
    Pow2Add(e - k, k);
    Pow2Add(e - k + 1, k);
    Cancel(q, Pow2(k), Pow2(e - k), Pow2(e - k + 1));
  }

  lemma PaddedMonotonic(n: nat, m: nat)
    requires n <= m && Fits(m)
    ensures Padded(n) <= Padded(m)
  {
    hide Pow2, Log2, LowBits, DropLow, Padded;
    PaddedBounds(m);
    PaddedSmall(n);
    if n >= 2 && LowBits(Log2(n)) > 0 {
      var e := Log2(n);
      Log2Monotonic(n, m);
      if Log2(m) == e {
        var k := LowBits(e);
        NoWrap(n);
        NoWrap(m);
        PaddedIs(n);
        PaddedIs(m);
        DropMonotonic(n + Pow2(k) - 1, m + Pow2(k) - 1, k);
      } else {
        var q := PaddedInBucket(n, e);
        Log2Bounds(m);
        Pow2Monotonic(e + 1, Log2(m));
      }
    }
  }

  lemma PaddedSmall(n: nat)
    ensures n < 2 || LowBits(Log2(n)) <= 0 ==> Padded(n) == n
  {
  }

  /** A multiple of 2^k in its bucket is padded to itself. */
  lemma PaddedMultiple(q: nat, n: nat)
    requires n >= 2 && Fits(n) && LowBits(Log2(n)) > 0 && n == Scaled(q, Pow2(LowBits(Log2(n))))
    ensures Padded(n) == n
  {
    hide Pow2, Log2, LowBits, DropLow;
    NoWrap(n);
    PaddedIs(n);
    DropMultiple(q, Pow2(LowBits(Log2(n))) - 1, LowBits(Log2(n)));
  }

  lemma PaddedFits(n: nat)
    requires Fits(n)
    ensures Fits(Padded(n))
  {
    hide Pow2, Log2, LowBits, DropLow;
    PaddedSmall(n);
    if n >= 2 && LowBits(Log2(n)) > 0 {
      var e := Log2(n);
      OrderBelow64(n);
      Mask57();
      var q := PaddedInBucket(n, e);
      if e <= 62 {
        Pow2Monotonic(e + 1, 63);
      } else {
        PaddedBounds(n);
        TimesOrdered(128, q, Pow2(57));
      }
    }
  }

  /** Padding is idempotent: a padded length is its own padded length. */
  lemma PaddedIdempotent(n: nat)
    requires Fits(n)
    ensures Padded(Padded(n)) == Padded(n)
  {
    hide Pow2, Log2, LowBits, DropLow, Padded;
    PaddedSmall(n);
    if n >= 2 && LowBits(Log2(n)) > 0 {
      var e := Log2(n);
      var k := LowBits(e);
      var q := PaddedInBucket(n, e);
      PaddedFits(n);
      PaddedBounds(n);
      PaddedSmall(Padded(n));
      if Padded(n) < Pow2(e + 1) {
        Log2Unique(Padded(n), e);
        PaddedMultiple(q, Padded(n));
      } else {
        Pow2Step(e + 1);
        Log2Unique(Padded(n), e + 1);
        var m := LowBits(e + 1);
        if m > 0 {
          LowBitsBelow(e + 1);
          Pow2Add(e + 1 - m, m);
          PaddedMultiple(Pow2(e + 1 - m), Padded(n));
        }
      }
    }
  }

  lemma {:induction false} MultiplesFew(sizes: set<nat>, p: nat, lo: nat, hi: nat)
    requires lo <= hi + 1 && forall x :: x in sizes ==> exists q: nat :: lo <= q <= hi && x == Scaled(q, p)
    ensures |sizes| <= hi + 1 - lo
    decreases hi + 1 - lo
  {
    hide Scaled;
    if lo == hi + 1 {
      assert sizes == {};
    } else if hi == 0 {
      assert forall x :: x in sizes ==> x == Scaled(0, p);
      assert sizes <= {Scaled(0, p)};
      SubsetSize(sizes, {Scaled(0, p)});
    } else {
      var rest := sizes - {Scaled(hi, p)};
      forall x | x in rest
        ensures exists q: nat :: lo <= q <= hi - 1 && x == Scaled(q, p)
      {
        var q: nat :| lo <= q <= hi && x == Scaled(q, p);
        assert q != hi;
      }
      MultiplesFew(rest, p, lo, hi - 1);
      SubsetSize(sizes, rest + {Scaled(hi, p)});
    }
  }

  /** The lengths of one power-of-two bucket yield at most 2^S + 1 padded sizes, S the number of bits
      of the order E. */
  lemma FewSizes(e: nat, sizes: set<nat>)
    requires e >= 1
    requires forall x :: x in sizes ==> exists n: nat :: Fits(n) && Pow2(e) <= n < Pow2(e + 1) && x == Padded(n)
    ensures |sizes| <= Pow2(Log2(e) + 1) + 1
  {
    hide Pow2, Log2, LowBits, DropLow, Padded;
    SplitOrder(e);
    var k := LowBits(e);
    if k > 0 {
      var s := Log2(e) + 1;
      forall x | x in sizes
        ensures exists q: nat :: Pow2(s) <= q <= Pow2(s + 1) && x == Scaled(q, Pow2(k))
      {
        var n: nat :| Fits(n) && Pow2(e) <= n < Pow2(e + 1) && x == Padded(n);
        Log2Unique(n, e);
        AtLeastTwo(n, e);
        var q := PaddedInBucket(n, e);
      }
      Pow2Step(s);
      MultiplesFew(sizes, Pow2(k), Pow2(s), Pow2(s + 1));
    } else {
      forall x | x in sizes
        ensures exists q: nat :: Pow2(e) <= q <= Pow2(e + 1) - 1 && x == Scaled(q, 1)
      {
        var n: nat :| Fits(n) && Pow2(e) <= n < Pow2(e + 1) && x == Padded(n);
        Log2Unique(n, e);
        PaddedSmall(n);
        assert x == Scaled(n, 1);
      }
      Pow2Step(e);
      Pow2Monotonic(e, Log2(e) + 1);
      MultiplesFew(sizes, 1, Pow2(e), Pow2(e + 1) - 1);
    }
  }

  lemma SplitOrder(e: nat)
    ensures LowBits(e) == e - (Log2(e) + 1)
  {
  }

  lemma AtLeastTwo(n: nat, e: nat)
    requires e >= 1 && Pow2(e) <= n
    ensures n >= 2
  {
    Pow2Monotonic(1, e);
    assert Pow2(1) == 2;
  }
}
