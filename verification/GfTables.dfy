/** The log and exp tables of src/sss.c and the two operations that read them. */
module GfTables {
  import opened Common
  import opened Gf256

  /** x ^= x << 1; if (x & 0x100) x ^= 0x11b; */
  function TripleWide(x: bv32): bv32
  {
    var y := x ^ (x << 1);
    if y & 0x100 != 0 then y ^ 0x11b else y
  }

  lemma TripleWideIsTriple(g: Gf)
    ensures TripleWide(g as bv32) == Triple(g) as bv32
  {
  }

  lemma WideByte(g: Gf)
    ensures (g as bv32) as int == g as int && g as bv32 < 256 && (g as bv32) as Gf == g
  {
  }

  lemma ExpStep(i: nat)
    ensures Exp(0) == 1 && Exp(i + 1) == Triple(Exp(i))
  {
    hide Triple;
    assert Iter(i + 1, 1) == Triple(Iter(i, 1));
  }

  lemma ExpSlots(i: nat)
    requires i < 255
    ensures forall k: nat :: k < i ==> Exp(k) as nat != Exp(i) as nat
  {
    hide Exp;
    forall k: nat | k < i
      ensures Exp(k) as nat != Exp(i) as nat
    {
      ExpInjective(k, i);
      SameByte(Exp(k), Exp(i));
    }
  }

  class Tables {
    const exp: array<Gf>
    const log: array<Gf>
    var ready: bool

    ghost predicate Valid()
      reads this, exp, log
    {
      exp.Length == 512 && log.Length == 256 && exp != log && (ready ==> Filled())
    }

    ghost predicate Filled()
      reads exp, log
    {
      && exp.Length == 512
      && log.Length == 256
      && (forall k :: 0 <= k < 512 ==> exp[k] == Exp(k))
      && (forall b: Gf {:trigger b as nat} :: b != 0 ==> log[b as nat] as nat == Log(b))
    }

    constructor ()
      ensures Valid() && !ready && fresh(exp) && fresh(log)
    {
      exp := new Gf[512];
      log := new Gf[256];
      ready := false;
    }

    /** The first loop: powers of three, and their exponents. */
    method FillPowers()
      requires Valid()
      modifies exp, log
      ensures forall k: nat :: k < 255 ==> exp[k] == Exp(k) && log[Exp(k) as nat] as nat == k
    {
      hide Exp, Triple, ToByte;
      var x: bv32 := 1;
      ghost var g: Gf := 1;
      var i: nat := 0;
      ExpStep(0);
      while i < 255
        invariant i <= 255 && g == Exp(i) && x == g as bv32
        invariant forall k: nat :: k < i ==> exp[k] == Exp(k) && log[Exp(k) as nat] as nat == k
      {
        WideByte(g);
        exp[i] := x as Gf;
        log[x as nat] := ToByte(i);
        ExpSlots(i);
        TripleWideIsTriple(g);
        ExpStep(i);
        g := Triple(g);
        x := x ^ (x << 1);
        if x & 0x100 != 0 {
          x := x ^ 0x11b;
        }
        i := i + 1;
      }
    }

    /** gf_init. */
    method Init()
      requires Valid()
      modifies this, exp, log
      ensures Valid() && ready
    {
      if ready {
        return;
      }
      FillPowers();
      hide Exp, Log;
      var i: nat := 255;
      while i < 512
        invariant 255 <= i <= 512 && !ready
        invariant forall k: nat :: k < i ==> exp[k] == Exp(k)
        invariant forall k: nat :: k < 255 ==> log[Exp(k) as nat] as nat == k
        modifies exp
      {
        exp[i] := exp[i - 255];
        ExpPeriod(i - 255);
        i := i + 1;
      }
      forall b: Gf | b != 0
        ensures log[b as nat] as nat == Log(b)
      {
      }
      ready := true;
    }

    /** gf_mul, a pair of lookups. */
    method GfMul(a: Gf, b: Gf) returns (r: Gf)
      requires Valid() && ready
      ensures r == Mul(a, b)
    {
      if a == 0 || b == 0 {
        MulZero(a, b);
        return 0;
      }
      hide Mul, Exp;
      LookUp(a);
      LookUp(b);
      MulExp(Log(a), Log(b));
      r := exp[log[a as nat] as nat + log[b as nat] as nat];
    }

    /** gf_div; the divisor is nonzero. */
    method GfDiv(a: Gf, b: Gf) returns (r: Gf)
      requires Valid() && ready && b != 0
      ensures r == Div(a, b)
    {
      if a == 0 {
        return 0;
      }
      hide Mul, Exp;
      LookUp(a);
      LookUp(b);
      r := exp[log[a as nat] as nat + 255 - log[b as nat] as nat];
    }

    lemma LookUp(a: Gf)
      requires Valid() && ready && a != 0
      ensures a as nat < 256 && log[a as nat] as nat == Log(a) < 255 && Exp(Log(a)) == a
      ensures forall k :: 0 <= k < 512 ==> exp[k] == Exp(k)
    {
      hide Exp;
      SameByte(a, a);
    }
  }
}
