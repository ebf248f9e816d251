/** The arithmetic of src/sss.c: GF(2^8) modulo x^8 + x^4 + x^3 + x + 1 (the field of section 4.2 of
    FIPS 197) through logarithms to base 3. Multiplying by 3 is linear over xor, so multiplying by
    3^j is too, and that gives every field law. */
module Gf256 {

  type Gf = bv8

  /** Doubling, and the tripling step of gf_init. */
  function Xtime(x: Gf): Gf
  {
    (x << 1) ^ (if x & 0x80 != 0 then 0x1b else 0)
  }

  function Triple(x: Gf): Gf
  {
    x ^ Xtime(x)
  }

  /** j triplings. */
  function Iter(j: nat, x: Gf): Gf
  {
    if j == 0 then x else Triple(Iter(j - 1, x))
  }

  function Exp(i: nat): Gf
  {
    Iter(i, 1)
  }

  // ---------------------------------------------------------------------------
  // Bit-vector facts
  // ---------------------------------------------------------------------------

  lemma Shuffle(a: Gf, b: Gf, c: Gf, d: Gf)
    ensures (a ^ b) ^ (c ^ d) == (a ^ c) ^ (b ^ d)
  {
  }

  lemma XorLaws(a: Gf, b: Gf, c: Gf)
    ensures a ^ b == b ^ a && (a ^ b) ^ c == a ^ (b ^ c) && a ^ a == 0 && a ^ 0 == a && 0 ^ a == a
    ensures (a ^ b) ^ b == a && (a ^ b == 0 ==> a == b)
  {
  }

  lemma TopBit(x: Gf, y: Gf)
    ensures (x ^ y) & 0x80 == (x & 0x80) ^ (y & 0x80)
    ensures x & 0x80 == 0 || x & 0x80 == 0x80
    ensures (x ^ y) << 1 == (x << 1) ^ (y << 1)
  {
  }

  lemma XtimeLinear(x: Gf, y: Gf)
    ensures Xtime(x ^ y) == Xtime(x) ^ Xtime(y)
  {
    TopBit(x, y);
    TopBit(y, x);
    var cx: Gf := if x & 0x80 != 0 then 0x1b else 0;
    var cy: Gf := if y & 0x80 != 0 then 0x1b else 0;
    assert (if (x ^ y) & 0x80 != 0 then 0x1b as Gf else 0) == cx ^ cy;
    Shuffle(x << 1, y << 1, cx, cy);
  }

  lemma TripleLinear(x: Gf, y: Gf)
    ensures Triple(x ^ y) == Triple(x) ^ Triple(y)
  {
    XtimeLinear(x, y);
    hide Xtime;
    Shuffle(x, y, Xtime(x), Xtime(y));
  }

  lemma TripleZero(x: Gf)
    ensures Triple(x) == 0 <==> x == 0
  {
    LowBits(x);
  }

  lemma LowBits(x: Gf)
    ensures x ^ (x << 1) == 0 ==> x == 0
    ensures x & 0x80 != 0 ==> x ^ ((x << 1) ^ 0x1b) != 0
  {
  }

  // ---------------------------------------------------------------------------
  // Powers of three
  // ---------------------------------------------------------------------------

  lemma {:induction false} IterAdd(i: nat, j: nat, x: Gf)
    ensures Iter(i + j, x) == Iter(i, Iter(j, x))
  {
    hide Triple;
    if i > 0 {
      IterAdd(i - 1, j, x);
    }
  }

  lemma {:induction false} IterLinear(j: nat, x: Gf, y: Gf)
    ensures Iter(j, x ^ y) == Iter(j, x) ^ Iter(j, y)
  {
    hide Triple;
    if j > 0 {
      IterLinear(j - 1, x, y);
      TripleLinear(Iter(j - 1, x), Iter(j - 1, y));
    }
  }

  lemma {:induction false} IterZero(j: nat, x: Gf)
    ensures Iter(j, x) == 0 <==> x == 0
  {
    hide Triple;
    if j > 0 {
      IterZero(j - 1, x);
      TripleZero(Iter(j - 1, x));
    }
  }

  function Five(x: Gf): Gf
  {
    Triple(Triple(Triple(Triple(Triple(x)))))
  }

  function Seventeen(x: Gf): Gf
  {
    Triple(Triple(Five(Five(Five(x)))))
  }

  lemma IterFive(j: nat, x: Gf)
    ensures Iter(j + 5, x) == Five(Iter(j, x))
  {
    hide Triple;
    assert Iter(j + 5, x) == Triple(Iter(j + 4, x));
    assert Iter(j + 4, x) == Triple(Iter(j + 3, x));
    assert Iter(j + 3, x) == Triple(Iter(j + 2, x));
    assert Iter(j + 2, x) == Triple(Iter(j + 1, x));
  }

  lemma IterSeventeen(j: nat, x: Gf)
    ensures Iter(j + 17, x) == Seventeen(Iter(j, x))
  {
    hide Triple, Five;
    IterFive(j, x);
    IterFive(j + 5, x);
    IterFive(j + 10, x);
    assert Iter(j + 17, x) == Triple(Iter(j + 16, x));
    assert Iter(j + 16, x) == Triple(Iter(j + 15, x));
  }

  lemma SeventeenValues0()
    ensures Seventeen(0x01) == 0xe1
    ensures Seventeen(0xe1) == 0x5c
    ensures Seventeen(0x5c) == 0x0c
    ensures Seventeen(0x0c) == 0xe0
    ensures Seventeen(0xe0) == 0xbd
  {
  }

  lemma SeventeenValues1()
    ensures Seventeen(0xbd) == 0x50
    ensures Seventeen(0x50) == 0xec
    ensures Seventeen(0xec) == 0x5d
    ensures Seventeen(0x5d) == 0xed
    ensures Seventeen(0xed) == 0xbc
  {
  }

  lemma SeventeenValues2()
    ensures Seventeen(0xbc) == 0xb1
    ensures Seventeen(0xb1) == 0xb0
    ensures Seventeen(0xb0) == 0x51
    ensures Seventeen(0x51) == 0x0d
    ensures Seventeen(0x0d) == 0x01
  {
  }

  /** The powers whose exponents are the maximal proper divisors of 255 are not 1; the 255th is. */
  lemma ExpValues()
    ensures Exp(0) == 1 && Exp(1) == 3
    ensures Exp(15) != 1 && Exp(51) != 1 && Exp(85) != 1 && Exp(255) == 1
  {
    SeventeenValues0();
    SeventeenValues1();
    SeventeenValues2();
    hide Triple, Five, Seventeen;
    IterFive(0, 1);
    IterFive(5, 1);
    IterFive(10, 1);
    IterSeventeen(0, 1);
    IterSeventeen(17, 1);
    IterSeventeen(34, 1);
    IterSeventeen(51, 1);
    IterSeventeen(68, 1);
    IterSeventeen(85, 1);
    IterSeventeen(102, 1);
    IterSeventeen(119, 1);
    IterSeventeen(136, 1);
    IterSeventeen(153, 1);
    IterSeventeen(170, 1);
    IterSeventeen(187, 1);
    IterSeventeen(204, 1);
    IterSeventeen(221, 1);
    IterSeventeen(238, 1);
    assert Exp(0) == 1;
    FirstPowers();
  }

  lemma FirstPowers()
    ensures Exp(1) == 3 && Five(Five(Five(1))) != 1
  {
    assert Exp(1) == Triple(Iter(0, 1));
  }

  lemma {:induction false} ExpMultiple(d: nat, q: nat)
    requires Exp(d) == 1
    ensures Exp(d * q) == 1
    decreases q
  {
    hide Triple;
    if q > 0 {
      ExpMultiple(d, q - 1);
      IterAdd(d, d * (q - 1), 1);
      assert d * q == d + d * (q - 1);
    }
  }

  lemma ExpPeriod(i: nat)
    ensures Exp(i + 255) == Exp(i)
  {
    hide Iter;
    ExpValues();
    IterAdd(i, 255, 1);
  }

  /** The least positive exponent that gives 1, from d downwards. */
  lemma {:induction false} LeastPeriod(d: nat) returns (m: nat)
    requires d > 0 && Exp(d) == 1
    ensures 0 < m <= d && Exp(m) == 1 && forall k :: 0 < k < m ==> Exp(k) != 1
    decreases d
  {
    hide Iter;
    m := d;
    if exists k :: 0 < k < d && Exp(k) == 1 {
      var k :| 0 < k < d && Exp(k) == 1;
      m := LeastPeriod(k);
    }
  }

  /** 3 is a primitive element: its first power to return to 1 is the 255th. */
  lemma Primitive(d: nat)
    requires 0 < d < 255
    ensures Exp(d) != 1
  {
    hide Exp;
    ExpValues();
    if Exp(d) == 1 {
      var m := LeastPeriod(d);
      var q, r := 255 / m, 255 % m;
      ExpMultiple(m, q);
      ExpSplit(r, m * q);
      assert 255 == m * q + r;
      if r > 0 {
        assert false;
      }
      if m in {1, 3, 5} {
        ExpMultiple(m, 15 / m);
      } else if m == 17 {
        ExpMultiple(17, 3);
      }
    }
  }

  lemma ExpSplit(r: nat, s: nat)
    requires Exp(s) == 1
    ensures Exp(s + r) == Exp(r)
  {
    hide Iter;
    IterAdd(r, s, 1);
  }

  lemma ExpInjective(i: nat, j: nat)
    requires i < j < 255
    ensures Exp(i) != Exp(j)
  {
    hide Iter;
    IterAdd(i, j - i, 1);
    Primitive(j - i);
    if Exp(i) == Exp(j) {
      var z := Exp(j - i) ^ 1;
      IterLinear(i, Exp(j - i), 1);
      XorLaws(Exp(i), Exp(i), 0);
      IterZero(i, z);
      XorLaws(Exp(j - i), 1, 0);
    }
  }

  lemma ExpNonzero(i: nat)
    ensures Exp(i) != 0
  {
    IterZero(i, 1);
  }

  // ---------------------------------------------------------------------------
  // Logarithms exist
  // ---------------------------------------------------------------------------

  lemma {:induction false} SetBound(s: set<nat>, n: nat)
    requires forall b :: b in s ==> b < n
    ensures |s| <= n
    decreases n
  {
    if n == 0 {
      assert s == {};
    } else {
      SetBound(s - {n - 1}, n - 1);
    }
  }

  /** The first n powers, as numbers. */
  function Powers(n: nat): set<nat>
  {
    if n == 0 then {} else Powers(n - 1) + {Exp(n - 1) as nat}
  }

  lemma ByteNat(x: Gf, y: Gf)
    ensures x as nat < 256 && (x as nat == y as nat ==> x == y)
  {
  }

  lemma {:induction false} PowersAre(n: nat)
    requires n <= 255
    ensures |Powers(n)| == n
    ensures forall b :: b in Powers(n) ==> exists i: nat :: i < n && Exp(i) as nat == b
  {
    hide Exp;
    if n > 0 {
      PowersAre(n - 1);
      if Exp(n - 1) as nat in Powers(n - 1) {
        var i: nat :| i < n - 1 && Exp(i) as nat == Exp(n - 1) as nat;
        ByteNat(Exp(i), Exp(n - 1));
        ExpInjective(i, n - 1);
        assert false;
      }
    }
  }

  /** Every nonzero byte is a power of three, by counting. */
  lemma LogExists(b: Gf)
    requires b != 0
    ensures exists i: nat :: i < 255 && Exp(i) == b
  {
    hide Exp, Powers;
    PowersAre(255);
    if b as nat in Powers(255) {
      var i: nat :| i < 255 && Exp(i) as nat == b as nat;
      ByteNat(Exp(i), b);
    } else {
      PowersNonzero(b);
      var s := Powers(255) + {b as nat} + {0};
      forall c | c in s
        ensures c < 256
      {
        ByteNat(b, 0);
        if c in Powers(255) {
          var i: nat :| i < 255 && Exp(i) as nat == c;
          ByteNat(Exp(i), 0);
        }
      }
      SetBound(s, 256);
      assert false;
    }
  }

  lemma PowersNonzero(b: Gf)
    requires b != 0
    ensures b as nat != 0 && 0 !in Powers(255)
  {
    hide Exp, Powers;
    ByteNat(b, 0);
    PowersAre(255);
    if 0 in Powers(255) {
      var i: nat :| i < 255 && Exp(i) as nat == 0;
      ByteNat(Exp(i), 0);
      ExpNonzero(i);
    }
  }

  ghost function Log(b: Gf): (i: nat)
    requires b != 0
    ensures i < 255 && Exp(i) == b
  {
    LogExists(b);
    var i: nat :| i < 255 && Exp(i) == b;
    i
  }

  lemma LogUnique(b: Gf, i: nat)
    requires i < 255 && Exp(i) == b
    ensures b != 0 && Log(b) == i
  {
    hide Exp;
    ExpNonzero(i);
    if i < Log(b) {
      ExpInjective(i, Log(b));
    } else if Log(b) < i {
      ExpInjective(Log(b), i);
    }
  }

  // ---------------------------------------------------------------------------
  // The field
  // ---------------------------------------------------------------------------

  ghost function Mul(a: Gf, b: Gf): Gf
  {
    if b == 0 then 0 else Iter(Log(b), a)
  }

  ghost function Div(a: Gf, b: Gf): Gf
    requires b != 0
  {
    if a == 0 then 0 else Exp(Log(a) + 255 - Log(b))
  }

  lemma MulExp(i: nat, j: nat)
    ensures Mul(Exp(i), Exp(j)) == Exp(i + j)
  {
    hide Iter;
    ExpNonzero(j);
    var l := Log(Exp(j));
    IterAdd(l, i, 1);
    IterAdd(i, l, 1);
    IterAdd(i, j, 1);
  }

  lemma MulZero(a: Gf, b: Gf)
    ensures Mul(a, b) == 0 <==> a == 0 || b == 0
  {
    hide Iter;
    if b != 0 {
      IterZero(Log(b), a);
    }
  }

  lemma MulComm(a: Gf, b: Gf)
    ensures Mul(a, b) == Mul(b, a)
  {
    hide Mul, Exp;
    MulZero(a, b);
    MulZero(b, a);
    if a != 0 && b != 0 {
      MulExp(Log(a), Log(b));
      MulExp(Log(b), Log(a));
    }
  }

  lemma MulAssoc(a: Gf, b: Gf, c: Gf)
    ensures Mul(Mul(a, b), c) == Mul(a, Mul(b, c))
  {
    hide Mul, Exp;
    MulZero(a, b);
    MulZero(b, c);
    MulZero(Mul(a, b), c);
    MulZero(a, Mul(b, c));
    if a != 0 && b != 0 && c != 0 {
      MulExp(Log(a), Log(b));
      MulExp(Log(b), Log(c));
      MulExp(Log(a) + Log(b), Log(c));
      MulExp(Log(a), Log(b) + Log(c));
    }
  }

  lemma MulOne(a: Gf)
    ensures Mul(a, 1) == a && Mul(1, a) == a
  {
    hide Iter;
    ExpValues();
    LogUnique(1, 0);
    assert Iter(0, a) == a by {
      IterBase(a);
    }
    MulComm(a, 1);
  }

  lemma IterBase(a: Gf)
    ensures Iter(0, a) == a
  {
  }

  lemma MulDistributes(a: Gf, b: Gf, c: Gf)
    ensures Mul(a ^ b, c) == Mul(a, c) ^ Mul(b, c)
    ensures Mul(c, a ^ b) == Mul(c, a) ^ Mul(c, b)
  {
    hide Iter;
    if c != 0 {
      IterLinear(Log(c), a, b);
    }
    MulComm(a ^ b, c);
    MulComm(a, c);
    MulComm(b, c);
  }

  /** Field addition. */
  function Add(a: Gf, b: Gf): Gf
  {
    a ^ b
  }

  lemma AddLaws(a: Gf, b: Gf, c: Gf)
    ensures Add(a, b) == Add(b, a) && Add(Add(a, b), c) == Add(a, Add(b, c))
    ensures Add(a, a) == 0 && Add(a, 0) == a && Add(0, a) == a && Add(Add(a, b), b) == a
    ensures Add(a, b) == 0 ==> a == b
  {
    XorLaws(a, b, c);
  }

  lemma AddShuffle(a: Gf, b: Gf, c: Gf, d: Gf)
    ensures Add(Add(a, b), Add(c, d)) == Add(Add(a, c), Add(b, d))
  {
    hide *;
    AddLaws(a, b, Add(c, d));
    AddLaws(b, c, d);
    AddLaws(c, b, d);
    AddLaws(a, c, Add(b, d));
  }

  lemma AddComm(a: Gf, b: Gf)
    ensures Add(a, b) == Add(b, a)
  {
    XorLaws(a, b, 0);
  }

  lemma AddZero(a: Gf)
    ensures Add(a, 0) == a && Add(0, a) == a
  {
    XorLaws(a, 0, 0);
  }

  lemma Transpose(a: Gf, b: Gf, c: Gf)
    ensures Add(a, b) == c <==> a == Add(c, b)
  {
    hide *;
    AddLaws(a, b, 0);
    AddLaws(c, b, 0);
  }

  lemma DiffNonzero(x: Gf, y: Gf)
    requires x != y
    ensures Add(x, y) != 0
  {
    XorLaws(x, y, 0);
  }

  lemma Distributes(a: Gf, b: Gf, c: Gf)
    ensures Mul(Add(a, b), c) == Add(Mul(a, c), Mul(b, c))
    ensures Mul(c, Add(a, b)) == Add(Mul(c, a), Mul(c, b))
  {
    hide Mul;
    MulDistributes(a, b, c);
  }

  /** Division undoes multiplication, and is the only value that does. */
  lemma DivMul(a: Gf, b: Gf, x: Gf)
    requires b != 0
    ensures Mul(Div(a, b), b) == a
    ensures Mul(x, b) == a ==> x == Div(a, b)
  {
    hide Mul, Exp;
    MulZero(0, b);
    if a != 0 {
      MulExp(Log(a) + 255 - Log(b), Log(b));
      ExpPeriod(Log(a));
    }
    if Mul(x, b) == a {
      var y := Div(a, b);
      MulDistributes(x, y, b);
      XorLaws(a, a, 0);
      MulZero(x ^ y, b);
      XorLaws(x, y, 0);
    }
  }

  /** Table multiplication is carry-less multiplication modulo the field polynomial: the sum of the
      doublings of a selected by the bits of b. */
  function Carryless(a: Gf, b: Gf, bit: Gf, n: nat): Gf
    decreases n
  {
    if n == 0 then 0 else (if b & bit != 0 then a else 0) ^ Carryless(Xtime(a), b, bit << 1, n - 1)
  }

  lemma TripleIs(x: Gf)
    ensures Triple(x) == x ^ Xtime(x)
  {
  }

  lemma MulXtime(a: Gf, x: Gf)
    ensures Mul(a, Xtime(x)) == Xtime(Mul(a, x))
  {
    hide *;
    MulTriple(a, x);
    TripleIs(x);
    TripleIs(Mul(a, x));
    MulDistributes(x, Xtime(x), a);
    Cancel(Mul(a, x), Mul(a, Xtime(x)), Xtime(Mul(a, x)));
  }

  lemma Cancel(a: Gf, b: Gf, c: Gf)
    ensures a ^ b == a ^ c ==> b == c
  {
  }

  lemma MulTriple(a: Gf, x: Gf)
    ensures Mul(a, Triple(x)) == Triple(Mul(a, x))
  {
    MulComm(a, Triple(x));
    MulComm(a, x);
    if a != 0 {
      hide Triple;
      IterAdd(Log(a), 1, x);
      IterAdd(1, Log(a), x);
      assert Iter(1, x) == Triple(Iter(0, x));
      assert Iter(1, Iter(Log(a), x)) == Triple(Iter(0, Iter(Log(a), x)));
    } else {
      TripleZero(0);
    }
  }

  /** The part of b from the n-th bit from the top on. */
  function TopBits(b: Gf, n: nat): Gf
    requires n <= 8
  {
    if n == 0 then 0 else b & (0xff << (8 - n))
  }

  lemma BitSplit(b: Gf, n: nat)
    requires 0 < n <= 8
    ensures TopBits(b, n) == (b & (1 << (8 - n))) ^ TopBits(b, n - 1)
    ensures b & (1 << (8 - n)) == 0 || b & (1 << (8 - n)) == 1 << (8 - n)
    ensures (1 as Gf << (8 - n)) != 0
    ensures n > 1 ==> Xtime(1 << (8 - n)) == 1 << (9 - n) && (1 as Gf << (8 - n)) << 1 == 1 << (9 - n)
  {
    assert n == 1 || n == 2 || n == 3 || n == 4 || n == 5 || n == 6 || n == 7 || n == 8;
  }

  lemma CarrylessStep(a: Gf, b: Gf, bit: Gf, n: nat)
    ensures Carryless(a, b, bit, 0) == 0
    ensures n > 0 ==>
        Carryless(a, b, bit, n) == (if b & bit != 0 then a else 0) ^ Carryless(Xtime(a), b, bit << 1, n - 1)
  {
  }

  /** Carryless adds up the products of a with the bits of b from the n-th from the top on. */
  lemma {:induction false} MulBits(a: Gf, b: Gf, n: nat)
    requires 0 < n <= 8
    ensures Carryless(Mul(a, 1 << (8 - n)), b, 1 << (8 - n), n) == Mul(a, TopBits(b, n))
    decreases n
  {
    hide *;
    var bit := 1 as Gf << (8 - n);
    BitSplit(b, n);
    MulXtime(a, bit);
    CarrylessStep(Mul(a, bit), b, bit, n);
    MulDistributes(b & bit, TopBits(b, n - 1), a);
    MulZero(a, 0);
    if n > 1 {
      MulBits(a, b, n - 1);
    } else {
      CarrylessStep(Xtime(Mul(a, bit)), b, bit << 1, 0);
      NoBits(b);
    }
  }

  lemma NoBits(b: Gf)
    ensures TopBits(b, 0) == 0
  {
  }

  /** Multiplication through the tables is polynomial multiplication modulo the field polynomial. */
  lemma MulIsCarryless(a: Gf, b: Gf)
    ensures Mul(a, b) == Carryless(a, b, 1, 8)
  {
    MulBits(a, b, 8);
    hide Mul, Carryless;
    MulOne(a);
    AllBits(b);
  }

  lemma AllBits(b: Gf)
    ensures TopBits(b, 8) == b && 1 as Gf << 0 == 1
  {
  }
}
