/** Threshold sharing over any field of characteristic two: what dealing and interpolation
    compute, and what they promise. */
module Sharing {
  import opened Common
  import opened Fields
  import opened Polynomial

  datatype Share<T> = Share(index: T, data: seq<T>)

  datatype Error = BadThreshold | BadShareCount | EmptySecret
                 | TooFewShares | LengthMismatch | ZeroIndex | DuplicateIndex

  /** The random generator: coefficient `j` drawn for secret element `b` (j >= 1). */
  type Coins<!T> = (nat, nat) -> T

  /** A field together with the evaluation points of the custodians. */
  datatype Scheme<!T> = Scheme(f: Field<T>, point: nat -> T)

  ghost predicate IsScheme<T(!new)>(s: Scheme<T>) {
    && IsField(s.f)
    && (forall i: nat :: i < 255 ==> s.point(i) != s.f.zero)
    && (forall i: nat, j: nat :: i < j < 255 ==> s.point(i) != s.point(j))
  }

  // ----- what the two operations compute

  function Coefficients<T>(e: T, coins: Coins<T>, b: nat, m: nat): (p: seq<T>)
    requires m > 0
    ensures |p| == m && p[0] == e
  {
    seq(m, j requires 0 <= j < m => if j == 0 then e else coins(b, j))
  }

  function ShareElement<T>(s: Scheme<T>, secret: seq<T>, m: nat, coins: Coins<T>, i: nat, b: nat): T
    requires m > 0 && b < |secret|
  {
    Eval(s.f, Coefficients(secret[b], coins, b, m), s.point(i))
  }

  function DealtShare<T>(s: Scheme<T>, secret: seq<T>, m: nat, coins: Coins<T>, i: nat): Share<T>
    requires m > 0
  {
    Share(s.point(i), seq(|secret|, b requires 0 <= b < |secret| => ShareElement(s, secret, m, coins, i, b)))
  }

  function Dealt<T>(s: Scheme<T>, secret: seq<T>, m: nat, n: nat, coins: Coins<T>): Result<seq<Share<T>>, Error> {
    if !(2 <= m <= 255) then Err(BadThreshold)
    else if n < m || n > 255 then Err(BadShareCount)
    else if |secret| == 0 then Err(EmptySecret)
    else Ok(seq(n, i requires 0 <= i < n => DealtShare(s, secret, m, coins, i)))
  }

  function Indices<T>(shares: seq<Share<T>>): (xs: seq<T>)
    ensures |xs| == |shares|
  {
    seq(|shares|, i requires 0 <= i < |shares| => shares[i].index)
  }

  ghost predicate SameLengths<T>(shares: seq<Share<T>>) {
    forall i, j :: 0 <= i < |shares| && 0 <= j < |shares| ==> |shares[i].data| == |shares[j].data|
  }

  function Column<T>(shares: seq<Share<T>>, b: nat): (ys: seq<T>)
    requires forall i :: 0 <= i < |shares| ==> b < |shares[i].data|
    ensures |ys| == |shares|
  {
    seq(|shares|, i requires 0 <= i < |shares| => shares[i].data[b])
  }

  /** The shares interpolation accepts: at least two, equally long, at distinct nonzero points. */
  ghost predicate WellFormed<T(!new)>(f: Field<T>, shares: seq<Share<T>>) {
    && |shares| >= 2
    && SameLengths(shares)
    && Distinct(Indices(shares))
    && f.zero !in Indices(shares)
  }

  /** The first index that is zero or repeats an earlier one decides the error. */
  function CheckIndices<T(==)>(f: Field<T>, shares: seq<Share<T>>, seen: set<T>): Result<set<T>, Error> {
    if shares == [] then Ok(seen)
    else if shares[0].index == f.zero then Err(ZeroIndex)
    else if shares[0].index in seen then Err(DuplicateIndex)
    else CheckIndices(f, shares[1..], seen + {shares[0].index})
  }

  ghost function Interpolated<T>(f: Field<T>, shares: seq<Share<T>>): seq<T>
    requires shares != [] && SameLengths(shares)
  {
    seq(|shares[0].data|, b requires 0 <= b < |shares[0].data| =>
      LagrangeAt(f, Indices(shares), Column(shares, b), f.zero, |shares|))
  }

  ghost function Reconstructed<T>(f: Field<T>, shares: seq<Share<T>>): Result<seq<T>, Error> {
    if |shares| < 2 then Err(TooFewShares)
    else if !SameLengths(shares) then Err(LengthMismatch)
    else
      match CheckIndices(f, shares, {})
      case Err(e) => Err(e)
      case Ok(_) => Ok(Interpolated(f, shares))
  }

  /** One round of the interpolation loop, for both of its products. */
  lemma ProductStep<T(!new)>(f: Field<T>, xs: seq<T>, i: nat, j: nat)
    requires IsField(f) && i < |xs| && j < |xs| && i != j
    ensures DiffProduct(f, f.zero, xs, i, j + 1) == f.mul(DiffProduct(f, f.zero, xs, i, j), xs[j])
    ensures DiffProduct(f, xs[i], xs, i, j + 1) == f.mul(DiffProduct(f, xs[i], xs, i, j), f.add(xs[i], xs[j]))
  {
    AddCancel(f, xs[j], f.zero);
  }

  lemma HornerStep<T(!new)>(f: Field<T>, p: seq<T>, x: T, i: nat)
    requires IsField(f) && i < |p|
    ensures Eval(f, p[i..], x) == f.add(f.mul(Eval(f, p[i + 1..], x), x), p[i])
  {
    var r := Eval(f, p[i + 1..], x);
    assert p[i..][0] == p[i] && p[i..][1..] == p[i + 1..];
    assert Laws(f, p[i], f.mul(x, r), x) && Laws(f, x, r, r);
  }
}
