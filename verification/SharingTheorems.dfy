/** What threshold sharing guarantees: correctness of any m shares, interpolation of arbitrary
    shares, and perfect secrecy of fewer than m. */
module SharingTheorems {
  import opened Common
  import opened Fields
  import opened Polynomial
  import opened Sharing

  lemma EvalAtZero<T(!new)>(f: Field<T>, p: seq<T>)
    requires IsField(f) && p != []
    ensures Eval(f, p, f.zero) == p[0]
  {
    MulZero(f, Eval(f, p[1..], f.zero));
    assert Laws(f, p[0], f.zero, f.zero);
  }

  // ----- which shares are accepted

  lemma {:induction false} CheckAccepts<T(!new)>(f: Field<T>, shares: seq<Share<T>>, seen: set<T>)
    ensures CheckIndices(f, shares, seen).Ok? <==>
      && Distinct(Indices(shares))
      && f.zero !in Indices(shares)
      && forall i :: 0 <= i < |shares| ==> shares[i].index !in seen
  {
    if shares != [] {
      var xs, rest := Indices(shares), Indices(shares[1..]);
      assert xs == [xs[0]] + rest;
      CheckAccepts(f, shares[1..], seen + {xs[0]});
      if xs[0] != f.zero && xs[0] !in seen {
        assert Distinct(xs) <==> Distinct(rest) && xs[0] !in rest by {
          assert forall k :: 0 <= k < |rest| ==> rest[k] == xs[k + 1];
        }
        assert forall k :: 0 <= k < |rest| ==> rest[k] == shares[1..][k].index == shares[k + 1].index;
      }
    }
  }

  /** Interpolation succeeds on exactly the well-formed share lists, whoever made them. */
  lemma AcceptsWellFormed<T(!new)>(f: Field<T>, shares: seq<Share<T>>)
    ensures Reconstructed(f, shares).Ok? <==> WellFormed(f, shares)
  {
    CheckAccepts(f, shares, {});
  }

  // ----- arbitrary well-formed shares

  /** `p` agrees with element `b` of every share. */
  ghost predicate Explains<T(!new)>(f: Field<T>, p: seq<T>, shares: seq<Share<T>>, b: nat) {
    forall i :: 0 <= i < |shares| ==> b < |shares[i].data| && Eval(f, p, shares[i].index) == shares[i].data[b]
  }

  /** The element interpolated at zero, by any polynomial of low enough degree through the shares. */
  lemma ExplanationAtZero<T(!new)>(f: Field<T>, shares: seq<Share<T>>, b: nat, p: seq<T>)
    requires IsField(f) && WellFormed(f, shares) && |p| <= |shares| && Explains(f, p, shares, b)
    ensures LagrangeAt(f, Indices(shares), Column(shares, b), f.zero, |shares|) == Eval(f, p, f.zero)
  {
    var xs, ys := Indices(shares), Column(shares, b);
    var k := |shares| - |p|;
    var padded := p + seq(k, _ => f.zero);
    forall i | 0 <= i < |xs|
      ensures Eval(f, padded, xs[i]) == ys[i]
    {
      EvalPadded(f, p, k, xs[i]);
    }
    LagrangeEvaluates(f, padded, xs, ys, f.zero);
    EvalPadded(f, p, k, f.zero);
  }

  lemma InterpolantExists<T(!new)>(f: Field<T>, shares: seq<Share<T>>, b: nat) returns (p: seq<T>)
    requires IsField(f) && WellFormed(f, shares) && b < |shares[0].data|
    ensures |p| == |shares| && Explains(f, p, shares, b)
  {
    var xs, ys := Indices(shares), Column(shares, b);
    p := LagrangePoly(f, xs, ys, |xs|);
    InterpolationExists(f, xs, ys);
    assert forall i :: 0 <= i < |shares| ==> xs[i] == shares[i].index && ys[i] == shares[i].data[b];
  }

  /** Every denominator is nonzero, and each output element is the value at zero of the one
      polynomial of degree below |shares| through the shares. */
  lemma ReconstructsTheInterpolant<T(!new)>(f: Field<T>, shares: seq<Share<T>>, b: nat)
    requires IsField(f) && WellFormed(f, shares) && b < |shares[0].data|
    ensures forall i :: 0 <= i < |shares| ==>
      DiffProduct(f, shares[i].index, Indices(shares), i, |shares|) != f.zero
    ensures var r := Reconstructed(f, shares);
      && r.Ok? && |r.value| == |shares[0].data|
      && (exists p :: |p| == |shares| && Explains(f, p, shares, b))
      && (forall p :: |p| == |shares| && Explains(f, p, shares, b) ==> Eval(f, p, f.zero) == r.value[b])
  {
    AcceptsWellFormed(f, shares);
    var xs := Indices(shares);
    forall i | 0 <= i < |shares|
      ensures DiffProduct(f, shares[i].index, xs, i, |shares|) != f.zero
    {
      DiffProductZero(f, xs[i], xs, i, |shares|);
      assert forall j :: 0 <= j < |xs| && j != i ==> xs[j] != xs[i];
    }
    var q := InterpolantExists(f, shares, b);
    forall p | |p| == |shares| && Explains(f, p, shares, b)
      ensures Eval(f, p, f.zero) == Reconstructed(f, shares).value[b]
    {
      ExplanationAtZero(f, shares, b, p);
    }
  }

  // ----- reordering

  lemma CountAt<A>(s: seq<A>, i: nat)
    requires i < |s|
    ensures multiset(s)[s[i]] == 1 + multiset(s[..i])[s[i]] + multiset(s[i + 1..])[s[i]]
  {
    assert s == s[..i] + [s[i]] + s[i + 1..];
  }

  lemma DistinctIsCountOne<A>(s: seq<A>)
    ensures Distinct(s) <==> forall x :: x in s ==> multiset(s)[x] == 1
  {
    if Distinct(s) {
      forall x | x in s
        ensures multiset(s)[x] == 1
      {
        var i :| 0 <= i < |s| && s[i] == x;
        CountAt(s, i);
        assert x !in s[..i] && x !in s[i + 1..];
      }
    } else {
      var i, j :| 0 <= i < j < |s| && s[i] == s[j];
      CountAt(s, i);
      assert s[i + 1..][j - i - 1] == s[i];
      assert s[i] in s[i + 1..];
    }
  }

  lemma MembersPermuted<A>(s: seq<A>, t: seq<A>)
    requires multiset(s) == multiset(t)
    ensures |s| == |t|
    ensures forall x :: x in t ==> x in s
    ensures forall i :: 0 <= i < |t| ==> t[i] in s
  {
    assert |s| == |multiset(s)| && |t| == |multiset(t)|;
    forall x | x in t
      ensures x in s
    {
      assert x in multiset(t);
    }
  }

  lemma WellFormedPermuted<T(!new)>(f: Field<T>, s: seq<Share<T>>, t: seq<Share<T>>)
    requires multiset(s) == multiset(t) && WellFormed(f, s)
    ensures WellFormed(f, t)
  {
    MembersPermuted(s, t);
    forall i, j | 0 <= i < j < |s|
      ensures s[i] != s[j]
    {
      assert Indices(s)[i] != Indices(s)[j];
    }
    DistinctIsCountOne(s);
    DistinctIsCountOne(t);
    assert Distinct(t);
    forall i, j | 0 <= i < j < |t|
      ensures Indices(t)[i] != Indices(t)[j]
    {
      var k, l :| 0 <= k < |s| && 0 <= l < |s| && s[k] == t[i] && s[l] == t[j];
      assert t[i] != t[j];
      assert k < l || l < k;
      assert Indices(s)[k] != Indices(s)[l];
    }
    forall i | 0 <= i < |t|
      ensures Indices(t)[i] != f.zero
    {
      var k :| 0 <= k < |s| && s[k] == t[i];
      assert Indices(s)[k] in Indices(s);
    }
  }

  /** The order in which shares are supplied does not matter. */
  lemma OrderIndependent<T(!new)>(f: Field<T>, s: seq<Share<T>>, t: seq<Share<T>>)
    requires IsField(f) && multiset(s) == multiset(t)
    ensures Reconstructed(f, s).Ok? <==> Reconstructed(f, t).Ok?
    ensures Reconstructed(f, s).Ok? ==> Reconstructed(f, s) == Reconstructed(f, t)
  {
    AcceptsWellFormed(f, s);
    AcceptsWellFormed(f, t);
    if WellFormed(f, t) {
      WellFormedPermuted(f, t, s);
    }
    if WellFormed(f, s) {
      WellFormedPermuted(f, s, t);
      SameValues(f, s, t);
    }
  }

  lemma SameValues<T(!new)>(f: Field<T>, s: seq<Share<T>>, t: seq<Share<T>>)
    requires IsField(f) && multiset(s) == multiset(t) && WellFormed(f, s) && WellFormed(f, t)
    ensures Reconstructed(f, s) == Reconstructed(f, t)
  {
    AcceptsWellFormed(f, s);
    AcceptsWellFormed(f, t);
    MembersPermuted(s, t);
    var r, q := Reconstructed(f, s).value, Reconstructed(f, t).value;
    assert t[0] in s;
    forall b | 0 <= b < |r|
      ensures r[b] == q[b]
    {
      var p := InterpolantExists(f, s, b);
      assert Explains(f, p, t, b);
      ReconstructsTheInterpolant(f, s, b);
      ReconstructsTheInterpolant(f, t, b);
    }
    assert r == q;
  }

  // ----- correctness

  /** The shares at the selected positions. */
  function Select<A>(items: seq<A>, sel: seq<nat>): (r: seq<A>)
    requires forall k :: 0 <= k < |sel| ==> sel[k] < |items|
    ensures |r| == |sel|
  {
    seq(|sel|, k requires 0 <= k < |sel| => items[sel[k]])
  }

  ghost predicate Selection(sel: seq<nat>, n: nat) {
    Distinct(sel) && forall k :: 0 <= k < |sel| ==> sel[k] < n
  }

  lemma SelectionWellFormed<T(!new)>(s: Scheme<T>, secret: seq<T>, m: nat, n: nat, coins: Coins<T>, sel: seq<nat>)
    requires IsScheme(s) && Dealt(s, secret, m, n, coins).Ok? && Selection(sel, n) && |sel| >= 2
    ensures WellFormed(s.f, Select(Dealt(s, secret, m, n, coins).value, sel))
  {
    var shares := Select(Dealt(s, secret, m, n, coins).value, sel);
    assert forall k :: 0 <= k < |sel| ==> Indices(shares)[k] == s.point(sel[k]);
    assert forall k :: 0 <= k < |sel| ==> |shares[k].data| == |secret|;
    forall i, j | 0 <= i < j < |sel|
      ensures Indices(shares)[i] != Indices(shares)[j]
    {
      assert sel[i] != sel[j];
      assert sel[i] < sel[j] || sel[j] < sel[i];
    }
  }

  /** Any m or more of the dealt shares, in any order, give back exactly the secret. */
  lemma Correctness<T(!new)>(s: Scheme<T>, secret: seq<T>, m: nat, n: nat, coins: Coins<T>, sel: seq<nat>)
    requires IsScheme(s) && Dealt(s, secret, m, n, coins).Ok? && Selection(sel, n) && |sel| >= m
    ensures Reconstructed(s.f, Select(Dealt(s, secret, m, n, coins).value, sel)) == Ok(secret)
  {
    var shares := Select(Dealt(s, secret, m, n, coins).value, sel);
    SelectionWellFormed(s, secret, m, n, coins, sel);
    AcceptsWellFormed(s.f, shares);
    forall b | 0 <= b < |secret|
      ensures Reconstructed(s.f, shares).value[b] == secret[b]
    {
      var p := Coefficients(secret[b], coins, b, m);
      assert Explains(s.f, p, shares, b);
      ExplanationAtZero(s.f, shares, b, p);
      EvalAtZero(s.f, p);
    }
    assert Reconstructed(s.f, shares).value == secret;
  }

  // ----- perfect secrecy

  /** For m - 1 distinct nonzero points, any view of them and any candidate secret, exactly one
      choice of the other m - 1 coefficients produces that view. */
  lemma OneTailPerSecret<T(!new)>(f: Field<T>, xs: seq<T>, ys: seq<T>, e: T) returns (tail: seq<T>)
    requires IsField(f) && Distinct(xs) && f.zero !in xs && |xs| == |ys|
    ensures |tail| == |xs| && Through(f, [e] + tail, xs, ys)
    ensures forall t :: |t| == |xs| && Through(f, [e] + t, xs, ys) ==> t == tail
  {
    var xs0, ys0 := [f.zero] + xs, [e] + ys;
    var p := LagrangePoly(f, xs0, ys0, |xs0|);
    InterpolationExists(f, xs0, ys0);
    EvalAtZero(f, p);
    assert Eval(f, p, xs0[0]) == ys0[0];
    tail := p[1..];
    assert p == [e] + tail;
    forall i | 0 <= i < |xs|
      ensures Eval(f, p, xs[i]) == ys[i]
    {
      assert xs0[i + 1] == xs[i] && ys0[i + 1] == ys[i];
    }
    forall t | |t| == |xs| && Through(f, [e] + t, xs, ys)
      ensures t == tail
    {
      EvalAtZero(f, [e] + t);
      InterpolationUnique(f, [e] + t, p, xs0, ys0);
      assert ([e] + t)[1..] == t;
    }
  }

  /** Drawing c(b, j) + mask(b, j) instead of c(b, j). */
  function Masked<T>(f: Field<T>, c: Coins<T>, mask: Coins<T>): Coins<T> {
    (b: nat, j: nat) => f.add(c(b, j), mask(b, j))
  }

  /** Masking pairs the draws off: it is its own inverse, hence a bijection. */
  lemma MaskedTwice<T(!new)>(f: Field<T>, c: Coins<T>, mask: Coins<T>, b: nat, j: nat)
    requires IsField(f)
    ensures Masked(f, Masked(f, c, mask), mask)(b, j) == c(b, j)
  {
    AddCancel(f, c(b, j), mask(b, j));
  }

  /** Coefficients that are `d` at zero and vanish at fewer than m given points. */
  lemma VanishingTail<T(!new)>(f: Field<T>, xs: seq<T>, d: T, m: nat) returns (tail: seq<T>)
    requires IsField(f) && Distinct(xs) && f.zero !in xs && |xs| < m
    ensures |tail| == m - 1 && forall i :: 0 <= i < |xs| ==> Eval(f, [d] + tail, xs[i]) == f.zero
  {
    var ys := seq(|xs|, _ => f.zero);
    var short := OneTailPerSecret(f, xs, ys, d);
    var k := m - 1 - |xs|;
    tail := short + seq(k, _ => f.zero);
    assert [d] + tail == [d] + short + seq(k, _ => f.zero);
    forall i | 0 <= i < |xs|
      ensures Eval(f, [d] + tail, xs[i]) == f.zero
    {
      EvalPadded(f, [d] + short, k, xs[i]);
    }
  }

  lemma {:induction false} VanishingTails<T(!new)>(f: Field<T>, xs: seq<T>, ds: seq<T>, m: nat) returns (tails: seq<seq<T>>)
    requires IsField(f) && Distinct(xs) && f.zero !in xs && |xs| < m
    ensures |tails| == |ds| && forall b :: 0 <= b < |ds| ==> |tails[b]| == m - 1
    ensures forall b, i :: 0 <= b < |ds| && 0 <= i < |xs| ==> Eval(f, [ds[b]] + tails[b], xs[i]) == f.zero
  {
    if ds == [] {
      tails := [];
    } else {
      var last := |ds| - 1;
      var front := VanishingTails(f, xs, ds[..last], m);
      var tail := VanishingTail(f, xs, ds[last], m);
      tails := front + [tail];
    }
  }

  /** The shares that a coalition holding the positions `sel` sees. */
  function View<T>(s: Scheme<T>, secret: seq<T>, m: nat, coins: Coins<T>, sel: seq<nat>): seq<Share<T>>
    requires m > 0
  {
    seq(|sel|, k requires 0 <= k < |sel| => DealtShare(s, secret, m, coins, sel[k]))
  }

  /** Perfect secrecy: for any two secrets of equal length and any coalition of fewer than m
      custodians there is one mask under which every draw shows the coalition exactly the same
      shares of the other secret. Masking being a bijection on draws, each view is equally
      likely under both secrets. */
  lemma PerfectSecrecy<T(!new)>(s: Scheme<T>, secret: seq<T>, other: seq<T>, m: nat, n: nat, sel: seq<nat>)
    returns (mask: Coins<T>)
    requires IsScheme(s) && 2 <= m <= n <= 255 && |secret| == |other| && Selection(sel, n) && |sel| < m
    ensures forall coins :: View(s, other, m, Masked(s.f, coins, mask), sel) == View(s, secret, m, coins, sel)
  {
    var f := s.f;
    var xs := seq(|sel|, k requires 0 <= k < |sel| => s.point(sel[k]));
    var ds := Sum(f, secret, other);
    assert Distinct(xs) by {
      assert forall i, j :: 0 <= i < j < |sel| ==> sel[i] < sel[j] || sel[j] < sel[i];
    }
    var tails := VanishingTails(f, xs, ds, m);
    mask := (b: nat, j: nat) => if b < |tails| && 1 <= j <= |tails[b]| then tails[b][j - 1] else f.zero;
    forall coins
      ensures View(s, other, m, Masked(f, coins, mask), sel) == View(s, secret, m, coins, sel)
    {
      forall k, b | 0 <= k < |sel| && 0 <= b < |secret|
        ensures ShareElement(s, other, m, Masked(f, coins, mask), sel[k], b)
             == ShareElement(s, secret, m, coins, sel[k], b)
      {
        assert xs[k] == s.point(sel[k]) && ds[b] == f.add(secret[b], other[b]);
        MaskedElement(s, secret, other, m, coins, mask, tails[b], sel[k], b);
      }
      forall k | 0 <= k < |sel|
        ensures DealtShare(s, other, m, Masked(f, coins, mask), sel[k]) == DealtShare(s, secret, m, coins, sel[k])
      {
        assert DealtShare(s, other, m, Masked(f, coins, mask), sel[k]).data == DealtShare(s, secret, m, coins, sel[k]).data;
      }
    }
  }

  lemma MaskedElement<T(!new)>(s: Scheme<T>, secret: seq<T>, other: seq<T>, m: nat, coins: Coins<T>,
                               mask: Coins<T>, tail: seq<T>, i: nat, b: nat)
    requires IsField(s.f) && m > 0 && b < |secret| == |other| && |tail| == m - 1
    requires forall j :: 1 <= j < m ==> mask(b, j) == tail[j - 1]
    requires Eval(s.f, [s.f.add(secret[b], other[b])] + tail, s.point(i)) == s.f.zero
    ensures ShareElement(s, other, m, Masked(s.f, coins, mask), i, b) == ShareElement(s, secret, m, coins, i, b)
  {
    var f := s.f;
    var p := Coefficients(secret[b], coins, b, m);
    var q := Coefficients(other[b], Masked(f, coins, mask), b, m);
    var d := [f.add(secret[b], other[b])] + tail;
    AddCancel(f, secret[b], other[b]);
    assert q == Sum(f, p, d);
    EvalSum(f, p, d, s.point(i));
    assert Laws(f, Eval(f, p, s.point(i)), f.zero, f.zero);
  }
}
