/** Shamir's threshold sharing of byte strings over GF(2^8). */
module Shamir {
  import opened Common
  import opened Bytes
  import opened Fields
  import opened Gf256
  import opened GfField
  import opened Polynomial
  import opened Sharing

  type ByteShare = Share<Byte>

  /** The points are 1, 2, ... as bytes; a split never has more than 255 of them. */
  const SCHEME_256 := Scheme(GF, (i: nat) => if i < 255 then FromNat(i + 1) else ZERO)

  // ----- the loops of the implementation

  /** Horner's rule from the highest coefficient down. */
  method EvalPoly(ghost f: Field<Byte>, coeffs: array<Byte>, x: Byte) returns (r: Byte)
    requires IsField(f) && Implements(f)
    requires coeffs.Length > 0
    ensures r == Eval(f, coeffs[..], x)
  {
    var last := coeffs.Length - 1;
    r := coeffs[last];
    EvalConstant(f, r, x);
    assert coeffs[..][last..] == [r];
    for i := last downto 0
      invariant r == Eval(f, coeffs[..][i..], x)
    {
      HornerStep(f, coeffs[..], x, i);
      r := FieldMul(f, r, x);
      r := FieldAdd(f, r, coeffs[i]);
    }
  }

  method Split(secret: seq<Byte>, m: nat, n: nat, coins: Coins<Byte>) returns (r: Result<seq<ByteShare>, Error>)
    ensures r == Dealt(SCHEME_256, secret, m, n, coins)
  {
    if !(2 <= m <= 255) {
      return Err(BadThreshold);
    }
    if n < m || n > 255 {
      return Err(BadShareCount);
    }
    if secret == [] {
      return Err(EmptySecret);
    }
    GFIsField();
    GFImplements();
    var shares := DealShares(SCHEME_256, secret, m, n, coins);
    r := Ok(shares);
  }

  method DealShares(s: Scheme<Byte>, secret: seq<Byte>, m: nat, n: nat, coins: Coins<Byte>)
    returns (shares: seq<ByteShare>)
    requires IsField(s.f) && Implements(s.f)
    requires 2 <= m <= n <= 255 && secret != []
    ensures Ok(shares) == Dealt(s, secret, m, n, coins)
  {
    var data := new Byte[n, |secret|]((_, _) => ZERO);
    var coeffs := new Byte[m](_ => ZERO);
    for b := 0 to |secret|
      invariant ColumnsDone(s, data, secret, m, coins, b)
    {
      DealByte(s, data, coeffs, secret, m, coins, b);
    }
    shares := Collect(s, data);
    AssembledAreDealt(s, secret, m, n, coins, shares);
  }

  /** One round of the outer loop: a fresh polynomial for byte `b`, evaluated at every point. */
  method DealByte(s: Scheme<Byte>, data: array2<Byte>, coeffs: array<Byte>, secret: seq<Byte>, m: nat, coins: Coins<Byte>, b: nat)
    requires IsField(s.f) && Implements(s.f)
    requires b < |secret| == data.Length1 && coeffs.Length == m && m > 0
    requires ColumnsDone(s, data, secret, m, coins, b)
    modifies data, coeffs
    ensures ColumnsDone(s, data, secret, m, coins, b + 1)
  {
    coeffs[0] := secret[b];
    FillBytes(coeffs, coins, b);
    for i := 0 to data.Length0
      invariant coeffs[..] == Coefficients(secret[b], coins, b, m)
      invariant ColumnsDone(s, data, secret, m, coins, b)
      invariant forall k :: 0 <= k < i ==> data[k, b] == ShareElement(s, secret, m, coins, k, b)
    {
      var y := EvalPoly(s.f, coeffs, s.point(i));
      data[i, b] := y;
    }
  }

  lemma AssembledAreDealt(s: Scheme<Byte>, secret: seq<Byte>, m: nat, n: nat, coins: Coins<Byte>, shares: seq<ByteShare>)
    requires 2 <= m <= n <= 255 && secret != [] && |shares| == n
    requires forall i :: 0 <= i < n ==> shares[i].index == s.point(i) && |shares[i].data| == |secret|
    requires forall i, b :: 0 <= i < n && 0 <= b < |secret| ==>
      shares[i].data[b] == ShareElement(s, secret, m, coins, i, b)
    ensures Ok(shares) == Dealt(s, secret, m, n, coins)
  {
    forall i | 0 <= i < n
      ensures shares[i] == DealtShare(s, secret, m, coins, i)
    {
      assert shares[i].data == DealtShare(s, secret, m, coins, i).data;
    }
    assert shares == Dealt(s, secret, m, n, coins).value;
  }

  /** The first `b` bytes of every share have been written. */
  ghost predicate ColumnsDone(s: Scheme<Byte>, data: array2<Byte>, secret: seq<Byte>, m: nat, coins: Coins<Byte>, b: nat)
    requires m > 0 && b <= |secret| == data.Length1
    reads data
  {
    forall i, c :: 0 <= i < data.Length0 && 0 <= c < b ==> data[i, c] == ShareElement(s, secret, m, coins, i, c)
  }

  /** Draws every coefficient but the constant one. */
  method FillBytes(coeffs: array<Byte>, coins: Coins<Byte>, b: nat)
    requires coeffs.Length > 0
    modifies coeffs
    ensures coeffs[..] == Coefficients(old(coeffs[0]), coins, b, coeffs.Length)
  {
    for j := 1 to coeffs.Length
      invariant coeffs[0] == old(coeffs[0])
      invariant forall k :: 1 <= k < j ==> coeffs[k] == coins(b, k)
    {
      coeffs[j] := coins(b, j);
    }
  }

  method Collect(s: Scheme<Byte>, data: array2<Byte>) returns (shares: seq<ByteShare>)
    ensures |shares| == data.Length0
    ensures forall i :: 0 <= i < |shares| ==> shares[i].index == s.point(i) && |shares[i].data| == data.Length1
    ensures forall i, b :: 0 <= i < |shares| && 0 <= b < data.Length1 ==> shares[i].data[b] == data[i, b]
  {
    shares := [];
    for i := 0 to data.Length0
      invariant |shares| == i
      invariant forall k :: 0 <= k < i ==> shares[k].index == s.point(k) && |shares[k].data| == data.Length1
      invariant forall k, b :: 0 <= k < i && 0 <= b < data.Length1 ==> shares[k].data[b] == data[k, b]
    {
      var row := seq(data.Length1, b requires 0 <= b < data.Length1 reads data => data[i, b]);
      shares := shares + [Share(s.point(i), row)];
    }
  }

  method Reconstruct(shares: seq<ByteShare>) returns (r: Result<seq<Byte>, Error>)
    ensures r == Reconstructed(GF, shares)
  {
    if |shares| < 2 {
      return Err(TooFewShares);
    }
    var dataLen := |shares[0].data|;
    for i := 1 to |shares|
      invariant forall k :: 0 <= k < i ==> |shares[k].data| == dataLen
    {
      if |shares[i].data| != dataLen {
        assert !SameLengths(shares) by { assert |shares[i].data| != |shares[0].data|; }
        return Err(LengthMismatch);
      }
    }
    var seen: set<Byte> := {};
    for i := 0 to |shares|
      invariant CheckIndices(GF, shares, {}) == CheckIndices(GF, shares[i..], seen)
    {
      assert shares[i..][1..] == shares[i + 1..];
      if shares[i].index == ZERO {
        return Err(ZeroIndex);
      }
      if shares[i].index in seen {
        return Err(DuplicateIndex);
      }
      seen := seen + {shares[i].index};
    }
    GFIsField();
    GFImplements();
    var secret := Interpolate(GF, shares);
    r := Ok(secret);
  }

  method Interpolate(ghost f: Field<Byte>, shares: seq<ByteShare>) returns (secret: seq<Byte>)
    requires IsField(f) && Implements(f)
    requires shares != [] && SameLengths(shares)
    ensures secret == Interpolated(f, shares)
  {
    secret := [];
    for b := 0 to |shares[0].data|
      invariant secret == Interpolated(f, shares)[..b]
    {
      var value := InterpolateByte(f, shares, b);
      secret := secret + [value];
    }
  }

  /** One byte of the secret: the sum of the share values times their weights at zero. */
  method InterpolateByte(ghost f: Field<Byte>, shares: seq<ByteShare>, b: nat) returns (value: Byte)
    requires IsField(f) && Implements(f)
    requires forall i :: 0 <= i < |shares| ==> b < |shares[i].data|
    ensures value == LagrangeAt(f, Indices(shares), Column(shares, b), f.zero, |shares|)
  {
    value := ZERO;
    for i := 0 to |shares|
      invariant value == LagrangeAt(f, Indices(shares), Column(shares, b), f.zero, i)
    {
      var li := LagrangeWeight(f, shares, i);
      var term := FieldMul(f, shares[i].data[b], li);
      value := FieldAdd(f, value, term);
    }
  }

  /** The innermost loop of interpolation: the weight of share `i` at zero. */
  method LagrangeWeight(ghost f: Field<Byte>, shares: seq<ByteShare>, i: nat) returns (li: Byte)
    requires IsField(f) && Implements(f)
    requires i < |shares|
    ensures li == Weight(f, f.zero, Indices(shares), i)
  {
    ghost var xs := Indices(shares);
    var xi := shares[i].index;
    var num, den := ONE, ONE;
    for j := 0 to |shares|
      invariant num == DiffProduct(f, f.zero, xs, i, j)
      invariant den == DiffProduct(f, xi, xs, i, j)
    {
      if i != j {
        var xj := shares[j].index;
        ProductStep(f, xs, i, j);
        num := FieldMul(f, num, xj);
        var diff := FieldAdd(f, xi, xj);
        den := FieldMul(f, den, diff);
      }
    }
    var dinv := FieldInv(f, den);
    li := FieldMul(f, num, dinv);
  }

  lemma Scheme256IsScheme()
    ensures IsScheme(SCHEME_256)
  {
    GFIsField();
    forall i: nat | i < 255
      ensures SCHEME_256.point(i) != ZERO
    {
      ToNatFromNat(i + 1);
      ToNatFromNat(0);
    }
    forall i: nat, j: nat | i < j < 255
      ensures SCHEME_256.point(i) != SCHEME_256.point(j)
    {
      ToNatFromNat(i + 1);
      ToNatFromNat(j + 1);
    }
  }
}
