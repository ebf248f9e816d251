/** Shamir's scheme over GF(2^8) (src/sss.c): polynomials as coefficient sequences (constant term
    first), why any t shares determine the secret and why t - 1 say nothing about it. */
module Shamir {
  import opened Gf256

  /** The value of a polynomial, by Horner's rule. */
  ghost function Eval(p: seq<Gf>, x: Gf): Gf
  {
    if |p| == 0 then 0 else Add(Mul(Eval(p[1..], x), x), p[0])
  }

  ghost predicate Distinct(xs: seq<Gf>)
  {
    forall i, j :: 0 <= i < j < |xs| ==> xs[i] != xs[j]
  }

  ghost predicate Vanishes(p: seq<Gf>, xs: seq<Gf>)
  {
    forall i :: 0 <= i < |xs| ==> Eval(p, xs[i]) == 0
  }

  ghost predicate IsZero(p: seq<Gf>)
  {
    forall i :: 0 <= i < |p| ==> p[i] == 0
  }

  // ---------------------------------------------------------------------------
  // A nonzero polynomial with n coefficients has fewer than n roots
  // ---------------------------------------------------------------------------

  /** The quotient of p by (x - r). */
  ghost function Quot(p: seq<Gf>, r: Gf): (q: seq<Gf>)
    requires |p| > 0
    ensures |q| == |p| - 1
  {
    if |p| == 1 then [] else [Eval(p[1..], r)] + Quot(p[1..], r)
  }

  lemma EvalFirst(p: seq<Gf>, x: Gf)
    ensures |p| == 0 ==> Eval(p, x) == 0
    ensures |p| > 0 ==> Eval(p, x) == Add(Mul(Eval(p[1..], x), x), p[0])
  {
  }

  lemma QuotFirst(p: seq<Gf>, r: Gf)
    requires |p| > 1
    ensures Quot(p, r)[0] == Eval(p[1..], r) && Quot(p, r)[1..] == Quot(p[1..], r)
  {
  }

  lemma RegroupLeft(x: Gf, r: Gf, e: Gf, q: Gf)
    ensures Mul(Add(e, Mul(Add(x, r), q)), x) == Add(Mul(e, x), Mul(Add(x, r), Mul(q, x)))
  {
    hide *;
    Distributes(e, Mul(Add(x, r), q), x);
    MulAssoc(Add(x, r), q, x);
  }

  lemma RegroupRight(x: Gf, r: Gf, e: Gf, q: Gf)
    ensures Mul(Add(x, r), Add(Mul(q, x), e)) == Add(Mul(Add(x, r), Mul(q, x)), Add(Mul(e, x), Mul(e, r)))
  {
    hide *;
    Distributes(Mul(q, x), e, Add(x, r));
    Distributes(x, r, e);
    MulComm(Add(x, r), e);
  }

  lemma Regroup4(a: Gf, b: Gf, d: Gf, c: Gf)
    ensures Add(Add(a, b), c) == Add(Add(b, Add(a, d)), Add(d, c))
  {
  }

  /** x(e + (x - r)q) + c = (x - r)(e + xq) + (re + c) */
  lemma Regroup(x: Gf, r: Gf, e: Gf, q: Gf, c: Gf)
    ensures Add(Mul(Add(e, Mul(Add(x, r), q)), x), c) == Add(Mul(Add(x, r), Add(Mul(q, x), e)), Add(Mul(e, r), c))
  {
    hide *;
    RegroupLeft(x, r, e, q);
    RegroupRight(x, r, e, q);
    Regroup4(Mul(e, x), Mul(Add(x, r), Mul(q, x)), Mul(e, r), c);
  }

  lemma QuotEvalOne(p: seq<Gf>, r: Gf, x: Gf)
    requires |p| == 1
    ensures Eval(p, x) == Add(Mul(Add(x, r), Eval(Quot(p, r), x)), Eval(p, r))
  {
    hide Add, Eval, Mul;
    EvalFirst(p, x);
    EvalFirst(p, r);
    EvalFirst(Quot(p, r), x);
    EvalFirst(p[1..], x);
    EvalFirst(p[1..], r);
    MulZero(0, x);
    MulZero(0, r);
    MulZero(Add(x, r), 0);
    AddZero(p[0]);
  }

  lemma {:induction false} QuotEval(p: seq<Gf>, r: Gf, x: Gf)
    requires |p| > 0
    ensures Eval(p, x) == Add(Mul(Add(x, r), Eval(Quot(p, r), x)), Eval(p, r))
  {
    hide *;
    if |p| == 1 {
      QuotEvalOne(p, r, x);
    } else {
      var e, q := Eval(p[1..], r), Eval(Quot(p[1..], r), x);
      QuotEval(p[1..], r, x);
      assert Eval(p, x) == Add(Mul(Add(e, Mul(Add(x, r), q)), x), p[0]) by {
        EvalFirst(p, x);
        AddComm(e, Mul(Add(x, r), q));
      }
      assert Eval(Quot(p, r), x) == Add(Mul(q, x), e) by {
        QuotFirst(p, r);
        EvalFirst(Quot(p, r), x);
      }
      assert Eval(p, r) == Add(Mul(e, r), p[0]) by {
        EvalFirst(p, r);
      }
      Regroup(x, r, e, q, p[0]);
    }
  }

  lemma {:induction false} QuotZero(p: seq<Gf>, r: Gf)
    requires |p| > 0 && IsZero(Quot(p, r)) && Eval(p, r) == 0
    ensures IsZero(p)
  {
    hide Add, Eval, Quot, Mul;
    EvalFirst(p, r);
    if |p| == 1 {
      EvalFirst(p[1..], r);
      MulZero(0, r);
      AddZero(p[0]);
    } else {
      QuotFirst(p, r);
      assert Quot(p, r)[0] == 0;
      forall i | 0 <= i < |p| - 1
        ensures Quot(p[1..], r)[i..] == Quot(p, r)[1..][i..]
      {
      }
      assert IsZero(Quot(p[1..], r)) by {
        forall i | 0 <= i < |p| - 2
          ensures Quot(p[1..], r)[i] == 0
        {
          assert Quot(p[1..], r)[i] == Quot(p, r)[i + 1];
        }
      }
      QuotZero(p[1..], r);
      MulZero(0, r);
      AddLaws(p[0], 0, 0);
      assert forall i :: 0 < i < |p| ==> p[i] == p[1..][i - 1];
    }
  }

  lemma RootLeft(p: seq<Gf>, r: Gf, x: Gf)
    requires |p| > 0 && Eval(p, r) == 0 && Eval(p, x) == 0 && x != r
    ensures Eval(Quot(p, r), x) == 0
  {
    hide *;
    QuotEval(p, r, x);
    AddLaws(Mul(Add(x, r), Eval(Quot(p, r), x)), 0, 0);
    AddLaws(x, r, 0);
    MulZero(Add(x, r), Eval(Quot(p, r), x));
  }

  lemma {:induction false} RootBound(p: seq<Gf>, xs: seq<Gf>)
    requires |p| == |xs| && Distinct(xs) && Vanishes(p, xs)
    ensures IsZero(p)
    decreases |p|
  {
    hide Add, Eval, Quot;
    if |p| > 0 {
      var q := Quot(p, xs[0]);
      forall i | 0 <= i < |xs| - 1
        ensures Eval(q, xs[1..][i]) == 0
      {
        assert xs[1..][i] == xs[i + 1];
        RootLeft(p, xs[0], xs[i + 1]);
      }
      RootBound(q, xs[1..]);
      QuotZero(p, xs[0]);
    }
  }

  // ---------------------------------------------------------------------------
  // Sums and multiples of polynomials
  // ---------------------------------------------------------------------------

  ghost function Plus(p: seq<Gf>, q: seq<Gf>): (r: seq<Gf>)
    requires |p| == |q|
    ensures |r| == |p|
  {
    seq(|p|, i requires 0 <= i < |p| => Add(p[i], q[i]))
  }

  lemma PlusTail(p: seq<Gf>, q: seq<Gf>)
    requires |p| == |q| > 0
    ensures Plus(p, q)[0] == Add(p[0], q[0]) && Plus(p, q)[1..] == Plus(p[1..], q[1..])
  {
  }

  lemma {:induction false} PlusEval(p: seq<Gf>, q: seq<Gf>, x: Gf)
    requires |p| == |q|
    ensures Eval(Plus(p, q), x) == Add(Eval(p, x), Eval(q, x))
  {
    hide *;
    EvalFirst(p, x);
    EvalFirst(q, x);
    EvalFirst(Plus(p, q), x);
    if |p| == 0 {
      AddLaws(0, 0, 0);
    } else {
      PlusTail(p, q);
      PlusEval(p[1..], q[1..], x);
      Distributes(Eval(p[1..], x), Eval(q[1..], x), x);
      AddShuffle(Mul(Eval(p[1..], x), x), Mul(Eval(q[1..], x), x), p[0], q[0]);
    }
  }

  ghost function Scale(c: Gf, p: seq<Gf>): (r: seq<Gf>)
    ensures |r| == |p|
  {
    seq(|p|, i requires 0 <= i < |p| => Mul(c, p[i]))
  }

  lemma ScaleTail(c: Gf, p: seq<Gf>)
    requires |p| > 0
    ensures Scale(c, p)[0] == Mul(c, p[0]) && Scale(c, p)[1..] == Scale(c, p[1..])
  {
  }

  lemma {:induction false} ScaleEval(c: Gf, p: seq<Gf>, x: Gf)
    ensures Eval(Scale(c, p), x) == Mul(c, Eval(p, x))
  {
    hide *;
    EvalFirst(p, x);
    EvalFirst(Scale(c, p), x);
    if |p| == 0 {
      MulZero(c, 0);
    } else {
      ScaleTail(c, p);
      ScaleEval(c, p[1..], x);
      MulAssoc(c, Eval(p[1..], x), x);
      Distributes(Mul(Eval(p[1..], x), x), p[0], c);
    }
  }

  /** (x - r) p */
  ghost function TimesLinear(p: seq<Gf>, r: Gf): (q: seq<Gf>)
    ensures |q| == |p| + 1
  {
    Plus([0] + p, Scale(r, p) + [0])
  }

  lemma {:induction false} AppendZeroEval(p: seq<Gf>, x: Gf)
    ensures Eval(p + [0], x) == Eval(p, x)
  {
    hide *;
    EvalFirst(p, x);
    EvalFirst(p + [0], x);
    MulZero(0, x);
    AddLaws(0, 0, 0);
    if |p| == 0 {
      assert (p + [0])[1..] == p;
    } else {
      AppendZeroEval(p[1..], x);
      assert (p + [0])[1..] == p[1..] + [0];
    }
  }

  lemma TimesLinearEval(p: seq<Gf>, r: Gf, x: Gf)
    ensures Eval(TimesLinear(p, r), x) == Mul(Add(x, r), Eval(p, x))
  {
    hide Add, Eval, Plus, Scale, Mul;
    PlusEval([0] + p, Scale(r, p) + [0], x);
    AppendZeroEval(Scale(r, p), x);
    ScaleEval(r, p, x);
    ShiftEval(p, x);
    Distributes(x, r, Eval(p, x));
  }

  lemma ShiftEval(p: seq<Gf>, x: Gf)
    ensures Eval([0] + p, x) == Mul(x, Eval(p, x))
  {
    hide Add, Eval, Mul;
    EvalFirst([0] + p, x);
    assert ([0] + p)[1..] == p;
    AddZero(Mul(Eval(p, x), x));
    MulComm(x, Eval(p, x));
  }

  /** Two polynomials with n coefficients that agree at n points are the same. */
  lemma Unique(p: seq<Gf>, q: seq<Gf>, xs: seq<Gf>)
    requires |p| == |q| == |xs| && Distinct(xs)
    requires forall i :: 0 <= i < |xs| ==> Eval(p, xs[i]) == Eval(q, xs[i])
    ensures p == q
  {
    hide Add, Eval, Plus;
    forall i | 0 <= i < |xs|
      ensures Eval(Plus(p, q), xs[i]) == 0
    {
      PlusEval(p, q, xs[i]);
      AddLaws(Eval(p, xs[i]), 0, 0);
    }
    RootBound(Plus(p, q), xs);
    PlusZero(p, q);
  }

  lemma PlusZero(p: seq<Gf>, q: seq<Gf>)
    requires |p| == |q| && IsZero(Plus(p, q))
    ensures p == q
  {
    forall i | 0 <= i < |p|
      ensures p[i] == q[i]
    {
      assert Plus(p, q)[i] == 0;
      AddLaws(p[i], q[i], 0);
    }
  }

  // ---------------------------------------------------------------------------
  // Interpolation
  // ---------------------------------------------------------------------------

  /** The values left for the quotient once the polynomial is fixed at xs[0]. */
  ghost function Differences(xs: seq<Gf>, ys: seq<Gf>): (zs: seq<Gf>)
    requires |xs| == |ys| > 0 && Distinct(xs)
    ensures |zs| == |xs| - 1
  {
    seq(|xs| - 1, i requires 0 <= i < |xs| - 1 => Difference(xs[0], ys[0], xs[i + 1], ys[i + 1]))
  }

  ghost function Difference(x0: Gf, y0: Gf, x: Gf, y: Gf): Gf
    requires x != x0
  {
    DiffNonzero(x, x0);
    Div(Add(y, y0), Add(x, x0))
  }

  /** The polynomial with |xs| coefficients through the points (xs[i], ys[i]), in Newton's form. */
  ghost function Interpolate(xs: seq<Gf>, ys: seq<Gf>): (p: seq<Gf>)
    requires |xs| == |ys| && Distinct(xs)
    ensures |p| == |xs|
    decreases |xs|
  {
    if |xs| == 0 then []
    else
      var q := TimesLinear(Interpolate(xs[1..], Differences(xs, ys)), xs[0]);
      q[0 := Add(q[0], ys[0])]
  }

  lemma AddConstant(q: seq<Gf>, c: Gf, x: Gf)
    requires |q| > 0
    ensures Eval(q[0 := Add(q[0], c)], x) == Add(Eval(q, x), c)
  {
    hide *;
    EvalFirst(q, x);
    EvalFirst(q[0 := Add(q[0], c)], x);
    assert q[0 := Add(q[0], c)][1..] == q[1..];
    AddLaws(Mul(Eval(q[1..], x), x), q[0], c);
  }

  lemma NewtonStep(x0: Gf, y0: Gf, x: Gf, y: Gf, d: Gf)
    requires x != x0 ==> d == Difference(x0, y0, x, y)
    requires x == x0 ==> y == y0
    ensures Add(Mul(Add(x, x0), d), y0) == y
  {
    hide Add, Mul, Div;
    if x == x0 {
      AddLaws(x, x, 0);
      MulZero(Add(x, x0), d);
      AddLaws(y0, 0, 0);
    } else {
      DiffNonzero(x, x0);
      DivMul(Add(y, y0), Add(x, x0), d);
      MulComm(d, Add(x, x0));
      AddLaws(y, y0, 0);
    }
  }

  lemma InterpolateEval(xs: seq<Gf>, ys: seq<Gf>, x: Gf)
    requires |xs| == |ys| > 0 && Distinct(xs)
    ensures Eval(Interpolate(xs, ys), x)
         == Add(Mul(Add(x, xs[0]), Eval(Interpolate(xs[1..], Differences(xs, ys)), x)), ys[0])
  {
    hide Add, Eval, TimesLinear, Difference, Mul;
    var p := Interpolate(xs[1..], Differences(xs, ys));
    AddConstant(TimesLinear(p, xs[0]), ys[0], x);
    TimesLinearEval(p, xs[0], x);
  }

  lemma {:induction false} InterpolateMeets(xs: seq<Gf>, ys: seq<Gf>, i: nat)
    requires |xs| == |ys| && Distinct(xs) && i < |xs|
    ensures Eval(Interpolate(xs, ys), xs[i]) == ys[i]
    decreases |xs|
  {
    hide Add, Eval, TimesLinear, Difference, Mul;
    var p := Interpolate(xs[1..], Differences(xs, ys));
    if i > 0 {
      InterpolateMeets(xs[1..], Differences(xs, ys), i - 1);
      assert Eval(p, xs[i]) == Difference(xs[0], ys[0], xs[i], ys[i]);
    }
    InterpolateEval(xs, ys, xs[i]);
    NewtonStep(xs[0], ys[0], xs[i], ys[i], Eval(p, xs[i]));
  }

  // ---------------------------------------------------------------------------
  // Reconstruction
  // ---------------------------------------------------------------------------

  /** The product over the first k indices other than the i-th of (x - xs[k]); the loop of
      src/sss.c computes it at 0 (the numerator) and at xs[i] (the denominator). */
  ghost function Prod(xs: seq<Gf>, i: nat, k: nat, x: Gf): Gf
    requires k <= |xs|
  {
    if k == 0 then 1
    else if k - 1 == i then Prod(xs, i, k - 1, x)
    else Mul(Prod(xs, i, k - 1, x), Add(xs[k - 1], x))
  }

  ghost function ProdPoly(xs: seq<Gf>, i: nat, k: nat): (p: seq<Gf>)
    requires k <= |xs|
    ensures |p| == if i < k then k else k + 1
  {
    if k == 0 then [1]
    else if k - 1 == i then ProdPoly(xs, i, k - 1)
    else TimesLinear(ProdPoly(xs, i, k - 1), xs[k - 1])
  }

  lemma OneEval(x: Gf)
    ensures Eval([1], x) == 1
  {
    hide Add, Eval, Mul;
    EvalFirst([1], x);
    EvalFirst([1 as Gf][1..], x);
    MulZero(0, x);
    AddZero(1);
  }

  lemma {:induction false} ProdPolyEval(xs: seq<Gf>, i: nat, k: nat, x: Gf)
    requires k <= |xs|
    ensures Eval(ProdPoly(xs, i, k), x) == Prod(xs, i, k, x)
  {
    hide Add, Eval, TimesLinear, Mul;
    if k == 0 {
      OneEval(x);
    } else {
      ProdPolyEval(xs, i, k - 1, x);
      if k - 1 != i {
        TimesLinearEval(ProdPoly(xs, i, k - 1), xs[k - 1], x);
        AddLaws(x, xs[k - 1], 0);
        MulComm(Add(x, xs[k - 1]), Eval(ProdPoly(xs, i, k - 1), x));
      }
    }
  }

  /** The product vanishes exactly at the indices it runs over. */
  lemma {:induction false} ProdZero(xs: seq<Gf>, i: nat, k: nat, x: Gf)
    requires k <= |xs|
    ensures Prod(xs, i, k, x) == 0 <==> exists j :: 0 <= j < k && j != i && xs[j] == x
  {
    hide Add, Mul;
    if k > 0 {
      ProdZero(xs, i, k - 1, x);
      if k - 1 != i {
        MulZero(Prod(xs, i, k - 1, x), Add(xs[k - 1], x));
        AddLaws(xs[k - 1], x, 0);
        AddLaws(x, x, 0);
      }
    } else {
    }
  }

  lemma DenominatorNonzero(xs: seq<Gf>, i: nat)
    requires i < |xs| && Distinct(xs)
    ensures Prod(xs, i, |xs|, xs[i]) != 0
  {
    hide Add, Prod;
    ProdZero(xs, i, |xs|, xs[i]);
  }

  /** One Lagrange basis value. */
  ghost function Basis(xs: seq<Gf>, i: nat, x: Gf): Gf
    requires i < |xs| && Distinct(xs)
  {
    DenominatorNonzero(xs, i);
    Div(Prod(xs, i, |xs|, x), Prod(xs, i, |xs|, xs[i]))
  }

  /** The first n terms of the Lagrange sum. */
  ghost function Sum(xs: seq<Gf>, ys: seq<Gf>, n: nat, x: Gf): Gf
    requires n <= |xs| == |ys| && Distinct(xs)
  {
    if n == 0 then 0 else Add(Sum(xs, ys, n - 1, x), Mul(ys[n - 1], Basis(xs, n - 1, x)))
  }

  /** The i-th basis polynomial: 1 at xs[i], 0 at the other indices. */
  ghost function BasisPoly(xs: seq<Gf>, i: nat): (p: seq<Gf>)
    requires i < |xs| && Distinct(xs)
    ensures |p| == |xs|
  {
    DenominatorNonzero(xs, i);
    Scale(Div(1, Prod(xs, i, |xs|, xs[i])), ProdPoly(xs, i, |xs|))
  }

  lemma DivIsScale(a: Gf, b: Gf)
    requires b != 0
    ensures Div(a, b) == Mul(Div(1, b), a)
  {
    hide *;
    DivMul(1, b, 0);
    MulAssoc(Div(1, b), a, b);
    MulComm(a, b);
    MulAssoc(Div(1, b), b, a);
    MulOne(a);
    DivMul(a, b, Mul(Div(1, b), a));
  }

  lemma BasisPolyEval(xs: seq<Gf>, i: nat, x: Gf)
    requires i < |xs| && Distinct(xs)
    ensures Eval(BasisPoly(xs, i), x) == Basis(xs, i, x)
  {
    hide Add, Eval, Mul, Div, Prod, ProdPoly, Scale;
    DenominatorNonzero(xs, i);
    ScaleEval(Div(1, Prod(xs, i, |xs|, xs[i])), ProdPoly(xs, i, |xs|), x);
    ProdPolyEval(xs, i, |xs|, x);
    DivIsScale(Prod(xs, i, |xs|, x), Prod(xs, i, |xs|, xs[i]));
  }

  lemma BasisAt(xs: seq<Gf>, i: nat, j: nat)
    requires i < |xs| && j < |xs| && Distinct(xs)
    ensures Basis(xs, i, xs[j]) == if i == j then 1 else 0
  {
    hide Add, Mul, Div, Prod;
    DenominatorNonzero(xs, i);
    var d := Prod(xs, i, |xs|, xs[i]);
    if i == j {
      MulOne(d);
      DivMul(d, d, 1);
    } else {
      ProdZero(xs, i, |xs|, xs[j]);
      MulZero(0, d);
      DivMul(0, d, 0);
    }
  }

  ghost function SumPoly(xs: seq<Gf>, ys: seq<Gf>, n: nat): (p: seq<Gf>)
    requires n <= |xs| == |ys| && Distinct(xs)
    ensures |p| == |xs|
  {
    if n == 0 then seq(|xs|, i => 0) else Plus(SumPoly(xs, ys, n - 1), Scale(ys[n - 1], BasisPoly(xs, n - 1)))
  }

  lemma {:induction false} ZeroEval(p: seq<Gf>, x: Gf)
    requires IsZero(p)
    ensures Eval(p, x) == 0
  {
    hide Add, Eval, Mul;
    EvalFirst(p, x);
    if |p| > 0 {
      ZeroEval(p[1..], x);
      MulZero(0, x);
      AddLaws(0, 0, 0);
    }
  }

  lemma {:induction false} SumPolyEval(xs: seq<Gf>, ys: seq<Gf>, n: nat, x: Gf)
    requires n <= |xs| == |ys| && Distinct(xs)
    ensures Eval(SumPoly(xs, ys, n), x) == Sum(xs, ys, n, x)
  {
    hide Add, Eval, Mul, Plus, Scale, BasisPoly, Basis, Distinct;
    if n == 0 {
      ZeroEval(SumPoly(xs, ys, 0), x);
    } else {
      SumPolyEval(xs, ys, n - 1, x);
      PlusEval(SumPoly(xs, ys, n - 1), Scale(ys[n - 1], BasisPoly(xs, n - 1)), x);
      ScaleEval(ys[n - 1], BasisPoly(xs, n - 1), x);
      BasisPolyEval(xs, n - 1, x);
    }
  }

  lemma {:induction false} SumAt(xs: seq<Gf>, ys: seq<Gf>, n: nat, j: nat)
    requires n <= |xs| == |ys| && j < |xs| && Distinct(xs)
    ensures Sum(xs, ys, n, xs[j]) == if j < n then ys[j] else 0
  {
    hide Add, Mul, Basis, Distinct;
    if n > 0 {
      SumAt(xs, ys, n - 1, j);
      BasisAt(xs, n - 1, j);
      MulOne(ys[n - 1]);
      MulZero(ys[n - 1], 0);
      AddLaws(ys[n - 1], 0, 0);
      AddLaws(ys[j], 0, 0);
      AddZero(0);
    }
  }

  /** The Lagrange sum over any |p| distinct indices gives p back, at every x. */
  lemma LagrangeRecovers(p: seq<Gf>, xs: seq<Gf>, ys: seq<Gf>, x: Gf)
    requires |p| == |xs| == |ys| && Distinct(xs)
    requires forall i :: 0 <= i < |xs| ==> ys[i] == Eval(p, xs[i])
    ensures Sum(xs, ys, |xs|, x) == Eval(p, x)
  {
    hide Add, Eval, Sum, SumPoly, Distinct;
    var q := SumPoly(xs, ys, |xs|);
    forall i | 0 <= i < |xs|
      ensures Eval(q, xs[i]) == Eval(p, xs[i])
    {
      SumPolyEval(xs, ys, |xs|, xs[i]);
      SumAt(xs, ys, |xs|, i);
    }
    Unique(q, p, xs);
    SumPolyEval(xs, ys, |xs|, x);
  }

  lemma EvalAtZero(p: seq<Gf>)
    requires |p| > 0
    ensures Eval(p, 0) == p[0]
  {
    hide Add, Eval, Mul;
    EvalFirst(p, 0);
    MulZero(Eval(p[1..], 0), 0);
    AddLaws(p[0], 0, 0);
  }

  /** Any t shares with distinct indices give the secret byte back, whatever the coefficients. */
  lemma Reconstruct(secret: Gf, coeffs: seq<Gf>, xs: seq<Gf>, ys: seq<Gf>)
    requires |xs| == |ys| == |coeffs| + 1 && Distinct(xs)
    requires forall i :: 0 <= i < |xs| ==> ys[i] == Eval([secret] + coeffs, xs[i])
    ensures Sum(xs, ys, |xs|, 0) == secret
  {
    hide Add, Eval, Sum, Distinct;
    LagrangeRecovers([secret] + coeffs, xs, ys, 0);
    EvalAtZero([secret] + coeffs);
  }

  // ---------------------------------------------------------------------------
  // Secrecy
  // ---------------------------------------------------------------------------

  ghost predicate Explains(coeffs: seq<Gf>, secret: Gf, xs: seq<Gf>, ys: seq<Gf>)
    requires |xs| == |ys|
  {
    forall i :: 0 <= i < |xs| ==> Eval([secret] + coeffs, xs[i]) == ys[i]
  }

  lemma ShareValue(coeffs: seq<Gf>, secret: Gf, x: Gf, y: Gf)
    requires x != 0
    ensures Eval([secret] + coeffs, x) == y <==> Eval(coeffs, x) == Div(Add(y, secret), x)
  {
    hide *;
    assert ([secret] + coeffs)[1..] == coeffs;
    EvalFirst([secret] + coeffs, x);
    var e := Eval(coeffs, x);
    Transpose(Mul(e, x), secret, y);
    DivMul(Add(y, secret), x, e);
  }

  /** The coefficients that make `secret` give the shares ys at the nonzero indices xs. */
  ghost function Explanation(secret: Gf, xs: seq<Gf>, ys: seq<Gf>): (coeffs: seq<Gf>)
    requires |xs| == |ys| && Distinct(xs) && 0 !in xs
    ensures |coeffs| == |xs|
  {
    Interpolate(xs, seq(|xs|, i requires 0 <= i < |xs| => Div(Add(ys[i], secret), xs[i])))
  }

  /** t - 1 shares are consistent with every secret byte, through exactly one coefficient vector:
      uniformly drawn coefficients make the shares independent of the secret. */
  lemma Secrecy(secret: Gf, xs: seq<Gf>, ys: seq<Gf>, coeffs: seq<Gf>)
    requires |xs| == |ys| == |coeffs| && Distinct(xs) && 0 !in xs
    ensures Explains(coeffs, secret, xs, ys) <==> coeffs == Explanation(secret, xs, ys)
  {
    hide Add, Eval, Distinct, Div, Interpolate;
    var zs := seq(|xs|, i requires 0 <= i < |xs| => Div(Add(ys[i], secret), xs[i]));
    forall i | 0 <= i < |xs|
      ensures Eval([secret] + coeffs, xs[i]) == ys[i] <==> Eval(coeffs, xs[i]) == zs[i]
      ensures Eval(Interpolate(xs, zs), xs[i]) == zs[i]
    {
      ShareValue(coeffs, secret, xs[i], ys[i]);
      InterpolateMeets(xs, zs, i);
    }
    if Explains(coeffs, secret, xs, ys) {
      Unique(coeffs, Interpolate(xs, zs), xs);
    }
  }
}
