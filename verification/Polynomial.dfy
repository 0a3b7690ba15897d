/** Polynomials over a field, as coefficient sequences from the constant term up. */
module Polynomial {
  import opened Fields

  function Eval<T>(f: Field<T>, p: seq<T>, x: T): T {
    if p == [] then f.zero else f.add(p[0], f.mul(x, Eval(f, p[1..], x)))
  }

  ghost predicate Distinct<T>(xs: seq<T>) {
    forall i, j :: 0 <= i < j < |xs| ==> xs[i] != xs[j]
  }

  ghost predicate AllZero<T(!new)>(f: Field<T>, p: seq<T>) {
    forall i :: 0 <= i < |p| ==> p[i] == f.zero
  }

  /** `p` takes the value ys[i] at every xs[i]. */
  ghost predicate Through<T(!new)>(f: Field<T>, p: seq<T>, xs: seq<T>, ys: seq<T>)
    requires |xs| == |ys|
  {
    forall i :: 0 <= i < |xs| ==> Eval(f, p, xs[i]) == ys[i]
  }

  lemma EvalConstant<T(!new)>(f: Field<T>, c: T, x: T)
    requires IsField(f)
    ensures Eval(f, [c], x) == c
  {
    MulZero(f, x);
    assert [c][1..] == [] && Laws(f, c, f.zero, f.zero);
  }

  // ----- sums and multiples

  function Sum<T>(f: Field<T>, p: seq<T>, q: seq<T>): (s: seq<T>)
    requires |p| == |q|
    ensures |s| == |p|
  {
    seq(|p|, i requires 0 <= i < |p| => f.add(p[i], q[i]))
  }

  function Scale<T>(f: Field<T>, c: T, p: seq<T>): (s: seq<T>)
    ensures |s| == |p|
  {
    seq(|p|, i requires 0 <= i < |p| => f.mul(c, p[i]))
  }

  lemma {:induction false} EvalSum<T(!new)>(f: Field<T>, p: seq<T>, q: seq<T>, x: T)
    requires IsField(f) && |p| == |q|
    ensures Eval(f, Sum(f, p, q), x) == f.add(Eval(f, p, x), Eval(f, q, x))
  {
    if p == [] {
      AddCancel(f, f.zero, f.zero);
    } else {
      var s, t := Eval(f, p[1..], x), Eval(f, q[1..], x);
      assert Sum(f, p, q)[1..] == Sum(f, p[1..], q[1..]);
      EvalSum(f, p[1..], q[1..], x);
      assert Laws(f, x, s, t);
      AddSwap(f, p[0], q[0], f.mul(x, s), f.mul(x, t));
    }
  }

  lemma {:induction false} EvalScale<T(!new)>(f: Field<T>, c: T, p: seq<T>, x: T)
    requires IsField(f)
    ensures Eval(f, Scale(f, c, p), x) == f.mul(c, Eval(f, p, x))
  {
    if p == [] {
      MulZero(f, c);
    } else {
      var s := Eval(f, p[1..], x);
      assert Scale(f, c, p)[1..] == Scale(f, c, p[1..]);
      EvalScale(f, c, p[1..], x);
      assert Laws(f, x, c, s) && Laws(f, c, x, s) && Laws(f, c, p[0], f.mul(x, s));
    }
  }

  lemma {:induction false} EvalAppendZero<T(!new)>(f: Field<T>, p: seq<T>, x: T)
    requires IsField(f)
    ensures Eval(f, p + [f.zero], x) == Eval(f, p, x)
  {
    MulZero(f, x);
    if p == [] {
      AddCancel(f, f.zero, f.zero);
    } else {
      assert (p + [f.zero])[1..] == p[1..] + [f.zero];
      EvalAppendZero(f, p[1..], x);
    }
  }

  /** p * (X + r). */
  function TimesLinear<T>(f: Field<T>, p: seq<T>, r: T): (s: seq<T>)
    ensures |s| == |p| + 1
  {
    Sum(f, [f.zero] + p, Scale(f, r, p) + [f.zero])
  }

  lemma EvalTimesLinear<T(!new)>(f: Field<T>, p: seq<T>, r: T, x: T)
    requires IsField(f)
    ensures Eval(f, TimesLinear(f, p, r), x) == f.mul(Eval(f, p, x), f.add(x, r))
  {
    var v := Eval(f, p, x);
    EvalSum(f, [f.zero] + p, Scale(f, r, p) + [f.zero], x);
    EvalAppendZero(f, Scale(f, r, p), x);
    EvalScale(f, r, p, x);
    assert ([f.zero] + p)[1..] == p;
    AddCancel(f, f.mul(x, v), f.zero);
    assert Laws(f, v, x, r) && Laws(f, x, v, v) && Laws(f, r, v, v);
  }

  // ----- roots

  /** The quotient of `p` by X + r; the remainder is p(r). */
  function Quotient<T>(f: Field<T>, p: seq<T>, r: T): (q: seq<T>)
    ensures |q| == if p == [] then 0 else |p| - 1
  {
    if |p| <= 1 then [] else [Eval(f, p[1..], r)] + Quotient(f, p[1..], r)
  }

  lemma {:induction false} DivideByRoot<T(!new)>(f: Field<T>, p: seq<T>, r: T, x: T)
    requires IsField(f)
    ensures Eval(f, p, x) == f.add(Eval(f, p, r), f.mul(f.add(x, r), Eval(f, Quotient(f, p, r), x)))
  {
    var d := f.add(x, r);
    if |p| <= 1 {
      MulZero(f, d);
      MulZero(f, x);
      MulZero(f, r);
      assert Laws(f, Eval(f, p, r), f.zero, f.zero);
      if |p| == 1 {
        assert p[1..] == [];
      }
    } else {
      var tr, tx := Eval(f, p[1..], r), Eval(f, p[1..], x);
      var q := Quotient(f, p[1..], r);
      var qx := Eval(f, q, x);
      DivideByRoot(f, p[1..], r, x);
      assert Quotient(f, p, r)[1..] == q;
      // x * tx == r * tr + d * (tr + x * qx)
      calc {
        f.mul(x, tx);
        f.mul(x, f.add(tr, f.mul(d, qx)));
        { assert Laws(f, x, tr, f.mul(d, qx)) && Laws(f, x, d, qx) && Laws(f, d, x, qx); }
        f.add(f.mul(x, tr), f.mul(d, f.mul(x, qx)));
        { AddCancel(f, r, x); assert Laws(f, r, x, x) && Laws(f, x, r, r); MulDistributeRight(f, r, d, tr); }
        f.add(f.add(f.mul(r, tr), f.mul(d, tr)), f.mul(d, f.mul(x, qx)));
        { assert Laws(f, f.mul(r, tr), f.mul(d, tr), f.mul(d, f.mul(x, qx))) && Laws(f, d, tr, f.mul(x, qx)); }
        f.add(f.mul(r, tr), f.mul(d, f.add(tr, f.mul(x, qx))));
      }
      assert Laws(f, p[0], f.mul(r, tr), f.mul(d, f.add(tr, f.mul(x, qx))));
    }
  }

  lemma {:induction false} ZeroQuotient<T(!new)>(f: Field<T>, p: seq<T>, r: T)
    requires IsField(f) && AllZero(f, Quotient(f, p, r)) && Eval(f, p, r) == f.zero
    ensures AllZero(f, p)
  {
    if p != [] {
      MulZero(f, r);
      assert Laws(f, p[0], f.zero, f.zero);
      if |p| > 1 {
        var q := Quotient(f, p, r);
        assert q[0] == Eval(f, p[1..], r) && q[1..] == Quotient(f, p[1..], r);
        ZeroQuotient(f, p[1..], r);
      } else {
        assert p[1..] == [];
      }
    }
  }

  /** A polynomial with as many distinct roots as coefficients is zero. */
  lemma {:induction false} RootsForceZero<T(!new)>(f: Field<T>, p: seq<T>, xs: seq<T>)
    requires IsField(f) && Distinct(xs) && |xs| == |p|
    requires forall i :: 0 <= i < |xs| ==> Eval(f, p, xs[i]) == f.zero
    ensures AllZero(f, p)
    decreases |p|
  {
    if p != [] {
      var r, q := xs[0], Quotient(f, p, xs[0]);
      forall i | 0 <= i < |xs[1..]|
        ensures Eval(f, q, xs[1..][i]) == f.zero
      {
        var x := xs[i + 1];
        DivideByRoot(f, p, r, x);
        AddCancel(f, x, r);
        AddCancel(f, f.mul(f.add(x, r), Eval(f, q, x)), f.zero);
        NoZeroDivisors(f, f.add(x, r), Eval(f, q, x));
      }
      RootsForceZero(f, q, xs[1..]);
      ZeroQuotient(f, p, r);
    }
  }

  /** At most one polynomial with |xs| coefficients passes through |xs| points. */
  lemma InterpolationUnique<T(!new)>(f: Field<T>, p: seq<T>, q: seq<T>, xs: seq<T>, ys: seq<T>)
    requires IsField(f) && Distinct(xs) && |p| == |q| == |xs| == |ys|
    requires Through(f, p, xs, ys) && Through(f, q, xs, ys)
    ensures p == q
  {
    var s := Sum(f, p, q);
    forall i | 0 <= i < |xs|
      ensures Eval(f, s, xs[i]) == f.zero
    {
      EvalSum(f, p, q, xs[i]);
      AddCancel(f, ys[i], ys[i]);
    }
    RootsForceZero(f, s, xs);
    forall i | 0 <= i < |p|
      ensures p[i] == q[i]
    {
      assert s[i] == f.zero;
      AddCancel(f, p[i], q[i]);
    }
  }

  // ----- Lagrange interpolation

  /** The product of (z + xs[j]) over j < n other than `skip`. */
  function DiffProduct<T>(f: Field<T>, z: T, xs: seq<T>, skip: int, n: nat): T
    requires n <= |xs|
    decreases n
  {
    if n == 0 then f.one
    else if n - 1 == skip then DiffProduct(f, z, xs, skip, n - 1)
    else f.mul(DiffProduct(f, z, xs, skip, n - 1), f.add(z, xs[n - 1]))
  }

  /** The Lagrange weight of point `i` at `z`. */
  function Weight<T>(f: Field<T>, z: T, xs: seq<T>, i: nat): T
    requires i < |xs|
  {
    f.mul(DiffProduct(f, z, xs, i, |xs|), f.inv(DiffProduct(f, xs[i], xs, i, |xs|)))
  }

  /** The sum of the first `n` Lagrange terms at `z`. */
  function LagrangeAt<T>(f: Field<T>, xs: seq<T>, ys: seq<T>, z: T, n: nat): T
    requires n <= |xs| == |ys|
  {
    if n == 0 then f.zero
    else f.add(LagrangeAt(f, xs, ys, z, n - 1), f.mul(ys[n - 1], Weight(f, z, xs, n - 1)))
  }

  /** The coefficients of `DiffProduct` as a polynomial in z. */
  function BasisPoly<T>(f: Field<T>, xs: seq<T>, skip: nat, n: nat): (p: seq<T>)
    requires n <= |xs|
    ensures |p| == if skip < n then n else n + 1
  {
    if n == 0 then [f.one]
    else if n - 1 == skip then BasisPoly(f, xs, skip, n - 1)
    else TimesLinear(f, BasisPoly(f, xs, skip, n - 1), xs[n - 1])
  }

  function LagrangePoly<T>(f: Field<T>, xs: seq<T>, ys: seq<T>, n: nat): (p: seq<T>)
    requires n <= |xs| == |ys|
    ensures |p| == |xs|
  {
    if n == 0 then seq(|xs|, _ => f.zero)
    else
      var c := f.mul(ys[n - 1], f.inv(DiffProduct(f, xs[n - 1], xs, n - 1, |xs|)));
      Sum(f, LagrangePoly(f, xs, ys, n - 1), Scale(f, c, BasisPoly(f, xs, n - 1, |xs|)))
  }

  lemma {:induction false} EvalBasisPoly<T(!new)>(f: Field<T>, xs: seq<T>, skip: nat, n: nat, z: T)
    requires IsField(f) && n <= |xs|
    decreases n
    ensures Eval(f, BasisPoly(f, xs, skip, n), z) == DiffProduct(f, z, xs, skip, n)
  {
    if n == 0 {
      EvalConstant(f, f.one, z);
    } else if n - 1 == skip {
      EvalBasisPoly(f, xs, skip, n - 1, z);
    } else {
      var b := BasisPoly(f, xs, skip, n - 1);
      EvalBasisPoly(f, xs, skip, n - 1, z);
      EvalTimesLinear(f, b, xs[n - 1], z);
      assert BasisPoly(f, xs, skip, n) == TimesLinear(f, b, xs[n - 1]);
    }
  }

  lemma {:induction false} EvalZeros<T(!new)>(f: Field<T>, p: seq<T>, z: T)
    requires IsField(f) && AllZero(f, p)
    ensures Eval(f, p, z) == f.zero
  {
    if p != [] {
      EvalZeros(f, p[1..], z);
      MulZero(f, z);
      AddCancel(f, f.zero, f.zero);
    }
  }

  lemma {:induction false} EvalLagrangePoly<T(!new)>(f: Field<T>, xs: seq<T>, ys: seq<T>, n: nat, z: T)
    requires IsField(f) && n <= |xs| == |ys|
    ensures Eval(f, LagrangePoly(f, xs, ys, n), z) == LagrangeAt(f, xs, ys, z, n)
  {
    if n == 0 {
      EvalZeros(f, LagrangePoly(f, xs, ys, 0), z);
    } else {
      var i := n - 1;
      var dinv := f.inv(DiffProduct(f, xs[i], xs, i, |xs|));
      var c := f.mul(ys[i], dinv);
      var b := BasisPoly(f, xs, i, |xs|);
      EvalLagrangePoly(f, xs, ys, i, z);
      EvalSum(f, LagrangePoly(f, xs, ys, i), Scale(f, c, b), z);
      EvalScale(f, c, b, z);
      EvalBasisPoly(f, xs, i, |xs|, z);
      var d := DiffProduct(f, z, xs, i, |xs|);
      assert Laws(f, ys[i], dinv, d) && Laws(f, dinv, d, d);
    }
  }

  /** DiffProduct vanishes exactly at the points it runs over. */
  lemma {:induction false} DiffProductZero<T(!new)>(f: Field<T>, z: T, xs: seq<T>, skip: int, n: nat)
    requires IsField(f) && n <= |xs|
    ensures DiffProduct(f, z, xs, skip, n) == f.zero <==> exists j :: 0 <= j < n && j != skip && xs[j] == z
  {
    if n > 0 {
      DiffProductZero(f, z, xs, skip, n - 1);
      NoZeroDivisors(f, DiffProduct(f, z, xs, skip, n - 1), f.add(z, xs[n - 1]));
      AddCancel(f, z, xs[n - 1]);
    }
  }

  /** At its own point a weight is one; at every other point it is zero. */
  lemma WeightAtPoint<T(!new)>(f: Field<T>, xs: seq<T>, i: nat, m: nat)
    requires IsField(f) && Distinct(xs) && i < |xs| && m < |xs|
    ensures Weight(f, xs[m], xs, i) == if i == m then f.one else f.zero
  {
    var d := DiffProduct(f, xs[i], xs, i, |xs|);
    DiffProductZero(f, xs[m], xs, i, |xs|);
    if i == m {
      assert Invertible(f, d);
    } else {
      MulZero(f, f.inv(d));
    }
  }

  lemma ZeroTerms<T(!new)>(f: Field<T>, a: T)
    requires IsField(f)
    ensures f.mul(a, f.zero) == f.zero && f.mul(a, f.one) == a
    ensures f.add(a, f.zero) == a && f.add(f.zero, a) == a
  {
    MulZero(f, a);
    AddCancel(f, a, f.zero);
    assert Laws(f, a, f.zero, f.zero);
  }

  lemma {:induction false} LagrangeAtPoint<T(!new)>(f: Field<T>, xs: seq<T>, ys: seq<T>, m: nat, n: nat)
    requires IsField(f) && Distinct(xs) && m < |xs| && n <= |xs| == |ys|
    ensures LagrangeAt(f, xs, ys, xs[m], n) == if m < n then ys[m] else f.zero
  {
    if n > 0 {
      LagrangeAtPoint(f, xs, ys, m, n - 1);
      WeightAtPoint(f, xs, n - 1, m);
      ZeroTerms(f, ys[n - 1]);
      if m < n - 1 {
        ZeroTerms(f, ys[m]);
      } else {
        ZeroTerms(f, f.zero);
      }
    }
  }

  /** Lagrange's polynomial passes through the points. */
  lemma InterpolationExists<T(!new)>(f: Field<T>, xs: seq<T>, ys: seq<T>)
    requires IsField(f) && Distinct(xs) && |xs| == |ys|
    ensures Through(f, LagrangePoly(f, xs, ys, |xs|), xs, ys)
  {
    forall m | 0 <= m < |xs|
      ensures Eval(f, LagrangePoly(f, xs, ys, |xs|), xs[m]) == ys[m]
    {
      EvalLagrangePoly(f, xs, ys, |xs|, xs[m]);
      LagrangeAtPoint(f, xs, ys, m, |xs|);
    }
  }

  /** Lagrange's formula evaluates, at any z, the one polynomial through the points. */
  lemma LagrangeEvaluates<T(!new)>(f: Field<T>, p: seq<T>, xs: seq<T>, ys: seq<T>, z: T)
    requires IsField(f) && Distinct(xs) && |p| == |xs| == |ys| && Through(f, p, xs, ys)
    ensures LagrangeAt(f, xs, ys, z, |xs|) == Eval(f, p, z)
  {
    InterpolationExists(f, xs, ys);
    InterpolationUnique(f, p, LagrangePoly(f, xs, ys, |xs|), xs, ys);
    EvalLagrangePoly(f, xs, ys, |xs|, z);
  }

  /** Padding a polynomial with zero coefficients does not change its values. */
  lemma {:induction false} EvalPadded<T(!new)>(f: Field<T>, p: seq<T>, k: nat, x: T)
    requires IsField(f)
    ensures Eval(f, p + seq(k, _ => f.zero), x) == Eval(f, p, x)
  {
    var zeros := seq(k, _ => f.zero);
    if k == 0 {
      assert p + zeros == p;
    } else {
      assert p + zeros == p + seq(k - 1, _ => f.zero) + [f.zero];
      EvalAppendZero(f, p + seq(k - 1, _ => f.zero), x);
      EvalPadded(f, p, k - 1, x);
    }
  }
}
