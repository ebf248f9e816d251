/** Small shared vocabulary: options, bytes, powers of two and bitwise "and" on naturals. */
module Common {

  datatype Option<+T> = None | Some(value: T)

  newtype byte = x: int | 0 <= x < 256

  /** Number of values of a C `uint32_t` and of a C `uint64_t`/`size_t`. */
  const U32: nat := 0x1_0000_0000
  const U64: nat := 0x1_0000_0000_0000_0000

  function Max(a: nat, b: nat): nat
  {
    if a < b then b else a
  }

  function Pow2(j: nat): (p: nat)
    ensures p >= 1
  {
    if j == 0 then 1 else 2 * Pow2(j - 1)
  }

  lemma Pow2Step(j: nat)
    ensures Pow2(0) == 1 && Pow2(j + 1) == 2 * Pow2(j)
  {
  }

  lemma Pow2Monotonic(i: nat, j: nat)
    requires i <= j
    ensures Pow2(i) <= Pow2(j)
  {
    if i < j {
      Pow2Monotonic(i, j - 1);
    }
  }

  lemma {:induction false} Pow2Add(i: nat, j: nat)
    ensures Pow2(i + j) == Pow2(i) * Pow2(j)
  {
    if i > 0 {
      Pow2Add(i - 1, j);
      assert Pow2(i + j) == 2 * Pow2(i - 1 + j);
    }
  }

  lemma Pow2Values()
    ensures Pow2(8) == 256 && Pow2(16) == 0x1_0000 && Pow2(31) == 0x8000_0000 && Pow2(32) == U32
    ensures Pow2(63) == 0x8000_0000_0000_0000 && Pow2(64) == U64
  {
    assert Pow2(8) == 256;
    Pow2Add(8, 8);
    Pow2Add(16, 16);
    Pow2Add(32, 32);
    assert Pow2(32) == 2 * Pow2(31);
    assert Pow2(64) == 2 * Pow2(63);
  }

  /** Bitwise "and" of two naturals, bit by bit. */
  function BitAnd(x: nat, y: nat): nat
  {
    if x == 0 || y == 0 then 0 else 2 * BitAnd(x / 2, y / 2) + (x % 2) * (y % 2)
  }

  /** x && !(x & (x - 1)) */
  predicate IsPow2(x: nat)
  {
    x != 0 && BitAnd(x, x - 1) == 0
  }

  lemma {:induction false} BitAndSelf(x: nat)
    ensures BitAnd(x, x) == x
  {
    if x > 0 {
      BitAndSelf(x / 2);
    }
  }

  /** The bit trick, one bit at a time. */
  lemma {:induction false} IsPow2Correct(x: nat)
    requires x > 0
    ensures IsPow2(x) == (x == 1 || (x % 2 == 0 && IsPow2(x / 2)))
  {
    if x > 1 {
      if x % 2 == 0 {
        assert (x - 1) / 2 == x / 2 - 1;
      } else {
        assert (x - 1) / 2 == x / 2;
        BitAndSelf(x / 2);
      }
    }
  }

  /** The 8-bit vector with the value n. */
  function ToByte(n: nat): (b: bv8)
    requires n < 256
    ensures b as nat == n
  {
    if n == 0 then 0 else ToByte(n - 1) + 1
  }

  lemma SameByte(x: bv8, y: bv8)
    ensures x as nat < 256 && (x as nat == y as nat ==> x == y)
    ensures ToByte(x as nat) == x && (x as nat == 0 <==> x == 0)
  {
    hide ToByte;
    InjectiveByte(x, y);
    InjectiveByte(ToByte(x as nat), x);
    InjectiveByte(x, 0);
  }

  lemma InjectiveByte(x: bv8, y: bv8)
    ensures x as nat < 256 && (x as nat == y as nat ==> x == y)
  {
  }

  /** x >> k */
  function Shift(x: nat, k: nat): nat
  {
    if k == 0 then x else Shift(x / 2, k - 1)
  }

  /** strchr: the first place of a character. */
  function IndexIn(s: string, c: char): (i: Option<nat>)
    ensures i.Some? ==> i.value < |s| && s[i.value] == c && forall k :: 0 <= k < i.value ==> s[k] != c
    ensures i.None? ==> forall k :: 0 <= k < |s| ==> s[k] != c
  {
    if |s| == 0 then None
    else match IndexIn(s[..|s| - 1], c)
      case Some(k) => Some(k)
      case None => if s[|s| - 1] == c then Some(|s| - 1) else None
  }

  lemma Pow32()
    ensures Pow2(5) == 32 && Pow2(8) == 256 && Pow2(6) == 64
  {
    Pow2Values();
    assert Pow2(5) == 32;
  }

  /** memmove over entry i. */
  function RemoveAt<T>(s: seq<T>, i: nat): (r: seq<T>)
    requires i < |s|
    ensures |r| == |s| - 1
  {
    s[..i] + s[i + 1..]
  }

  lemma RemoveAtIs<T>(a: seq<T>, s: seq<T>, i: nat)
    requires i < |s| && |a| == |s| - 1
    requires forall j :: 0 <= j < i ==> a[j] == s[j]
    requires forall j :: i <= j < |a| ==> a[j] == s[j + 1]
    ensures a == RemoveAt(s, i)
  {
  }

  lemma SubsetSize<T>(a: set<T>, b: set<T>)
    requires a <= b
    ensures |a| <= |b|
  {
    assert b == a + (b - a);
  }

  lemma TimesOrdered(a: nat, b: nat, p: nat)
    ensures a <= b ==> a * p <= b * p
    ensures (a + 1) * p == a * p + p
  {
  }
}
