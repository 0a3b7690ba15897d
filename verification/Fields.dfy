/** Fields of characteristic two, as records of operations. Keeping the operations abstract
    separates polynomial algebra from the bit-level definition of GF(2^8). */
module Fields {
  datatype Field<!T> = Field(zero: T, one: T, add: (T, T) -> T, mul: (T, T) -> T, inv: T -> T)

  /** The laws of a commutative ring of characteristic two, at three elements. */
  ghost predicate Laws<T(!new)>(f: Field<T>, a: T, b: T, c: T) {
    && f.add(a, b) == f.add(b, a)
    && f.add(f.add(a, b), c) == f.add(a, f.add(b, c))
    && f.add(a, f.zero) == a
    && f.add(a, a) == f.zero
    && f.mul(a, b) == f.mul(b, a)
    && f.mul(f.mul(a, b), c) == f.mul(a, f.mul(b, c))
    && f.mul(f.one, a) == a
    && f.mul(a, f.add(b, c)) == f.add(f.mul(a, b), f.mul(a, c))
  }

  ghost predicate IsRing<T(!new)>(f: Field<T>) {
    forall a, b, c :: Laws(f, a, b, c)
  }

  ghost predicate Invertible<T(!new)>(f: Field<T>, a: T) {
    f.mul(a, f.inv(a)) == f.one
  }

  ghost predicate IsField<T(!new)>(f: Field<T>) {
    IsRing(f) && f.one != f.zero && forall a :: a != f.zero ==> Invertible(f, a)
  }

  lemma AddSwap<T(!new)>(f: Field<T>, a: T, b: T, c: T, d: T)
    requires IsRing(f)
    ensures f.add(f.add(a, b), f.add(c, d)) == f.add(f.add(a, c), f.add(b, d))
  {
    assert Laws(f, a, b, f.add(c, d)) && Laws(f, b, c, d) && Laws(f, c, b, d);
    assert Laws(f, a, c, f.add(b, d));
  }

  lemma AddCancel<T(!new)>(f: Field<T>, a: T, b: T)
    requires IsRing(f)
    ensures f.add(a, f.add(a, b)) == b && f.add(f.add(a, b), b) == a
    ensures f.add(a, b) == f.zero <==> a == b
    ensures f.add(f.zero, a) == a
  {
    assert Laws(f, a, a, b) && Laws(f, a, b, b) && Laws(f, b, f.zero, f.zero) && Laws(f, f.zero, a, a);
    assert Laws(f, f.zero, b, b);
  }

  lemma MulZero<T(!new)>(f: Field<T>, a: T)
    requires IsRing(f)
    ensures f.mul(a, f.zero) == f.zero && f.mul(f.zero, a) == f.zero
    ensures f.mul(a, f.one) == a
  {
    assert Laws(f, a, f.zero, f.zero) && Laws(f, f.zero, f.zero, f.zero) && Laws(f, a, f.one, f.one);
    var z := f.mul(a, f.zero);
    AddCancel(f, z, z);
    assert Laws(f, z, z, z);
  }

  lemma MulSwap<T(!new)>(f: Field<T>, a: T, b: T, c: T, d: T)
    requires IsRing(f)
    ensures f.mul(f.mul(a, b), f.mul(c, d)) == f.mul(f.mul(a, c), f.mul(b, d))
  {
    assert Laws(f, a, b, f.mul(c, d)) && Laws(f, b, c, d) && Laws(f, c, b, d);
    assert Laws(f, a, c, f.mul(b, d));
  }

  lemma MulDistributeRight<T(!new)>(f: Field<T>, a: T, b: T, c: T)
    requires IsRing(f)
    ensures f.mul(f.add(a, b), c) == f.add(f.mul(a, c), f.mul(b, c))
  {
    assert Laws(f, c, a, b) && Laws(f, f.add(a, b), c, c) && Laws(f, a, c, c) && Laws(f, b, c, c);
  }

  lemma NoZeroDivisors<T(!new)>(f: Field<T>, a: T, b: T)
    requires IsField(f)
    ensures f.mul(a, b) == f.zero <==> a == f.zero || b == f.zero
  {
    MulZero(f, a);
    MulZero(f, b);
    if a != f.zero && f.mul(a, b) == f.zero {
      assert Invertible(f, a) && Laws(f, a, f.inv(a), b) && Laws(f, f.inv(a), a, b) && Laws(f, b, b, b);
      MulZero(f, f.inv(a));
      assert b == f.mul(f.mul(f.inv(a), a), b);
    }
  }

  // ----- powers

  /** a^(2^k). */
  function Squares<T>(f: Field<T>, a: T, k: nat): T {
    if k == 0 then a else f.mul(Squares(f, a, k - 1), Squares(f, a, k - 1))
  }

  /** a^(2^(k+1) - 1). */
  function Ones<T>(mul: (T, T) -> T, a: T, k: nat): T {
    if k == 0 then a else mul(mul(Ones(mul, a, k - 1), Ones(mul, a, k - 1)), a)
  }

  lemma EightSquares<T(!new)>(f: Field<T>, a: T, a1: T, a2: T, a3: T, a4: T, a5: T, a6: T, a7: T, a8: T)
    requires f.mul(a, a) == a1 && f.mul(a1, a1) == a2 && f.mul(a2, a2) == a3 && f.mul(a3, a3) == a4
    requires f.mul(a4, a4) == a5 && f.mul(a5, a5) == a6 && f.mul(a6, a6) == a7 && f.mul(a7, a7) == a8
    ensures Squares(f, a, 8) == a8
  {
    assert Squares(f, a, 1) == a1;
    assert Squares(f, a, 2) == a2;
    assert Squares(f, a, 3) == a3;
    assert Squares(f, a, 4) == a4;
    assert Squares(f, a, 5) == a5;
    assert Squares(f, a, 6) == a6;
  }

  lemma SquareAdd<T(!new)>(f: Field<T>, a: T, b: T)
    requires IsRing(f)
    ensures f.mul(f.add(a, b), f.add(a, b)) == f.add(f.mul(a, a), f.mul(b, b))
  {
    var s, ab := f.add(a, b), f.mul(a, b);
    assert Laws(f, s, a, b) && Laws(f, a, b, b) && Laws(f, ab, ab, ab);
    MulDistributeRight(f, a, b, a);
    MulDistributeRight(f, a, b, b);
    AddCancel(f, f.mul(a, a), ab);
    assert Laws(f, f.add(f.mul(a, a), ab), ab, f.mul(b, b));
  }

  lemma {:induction false} SquaresAdd<T(!new)>(f: Field<T>, a: T, b: T, k: nat)
    requires IsRing(f)
    ensures Squares(f, f.add(a, b), k) == f.add(Squares(f, a, k), Squares(f, b, k))
  {
    if k > 0 {
      SquaresAdd(f, a, b, k - 1);
      SquareAdd(f, Squares(f, a, k - 1), Squares(f, b, k - 1));
    }
  }

  lemma {:induction false} SquaresMul<T(!new)>(f: Field<T>, a: T, b: T, k: nat)
    requires IsRing(f)
    ensures Squares(f, f.mul(a, b), k) == f.mul(Squares(f, a, k), Squares(f, b, k))
  {
    if k > 0 {
      SquaresMul(f, a, b, k - 1);
      MulSwap(f, Squares(f, a, k - 1), Squares(f, b, k - 1), Squares(f, a, k - 1), Squares(f, b, k - 1));
    }
  }

  lemma {:induction false} OnesTimes<T(!new)>(f: Field<T>, a: T, k: nat)
    requires IsRing(f)
    ensures f.mul(a, Ones(f.mul, a, k)) == Squares(f, a, k + 1)
  {
    if k > 0 {
      var o := Ones(f.mul, a, k - 1);
      OnesTimes(f, a, k - 1);
      MulSwap(f, a, o, a, o);
      assert Laws(f, a, f.mul(o, o), a) && Laws(f, a, a, f.mul(o, o)) && Laws(f, f.mul(o, o), a, a);
    } else {
      assert Squares(f, a, 1) == f.mul(Squares(f, a, 0), Squares(f, a, 0));
    }
  }

  /** When a = a * (a * y), the product a * y is idempotent. */
  lemma Idempotent<T(!new)>(f: Field<T>, a: T, y: T)
    requires IsRing(f) && f.mul(a, f.mul(a, y)) == a
    ensures f.mul(f.mul(a, y), f.mul(a, y)) == f.mul(a, y)
  {
    var e := f.mul(a, y);
    assert Laws(f, y, a, e) && Laws(f, a, y, y);
  }

  ghost predicate OnlyTrivialIdempotents<T(!new)>(f: Field<T>) {
    forall e :: f.mul(e, e) == e ==> e == f.zero || e == f.one
  }

  /** In a ring of 256 elements with no idempotents but 0 and 1, a^254 inverts a. */
  lemma InverseByPowers<T(!new)>(f: Field<T>, a: T)
    requires IsRing(f) && OnlyTrivialIdempotents(f)
    requires a != f.zero && Squares(f, a, 8) == a
    requires f.inv(a) == f.mul(Ones(f.mul, a, 6), Ones(f.mul, a, 6))
    ensures Invertible(f, a)
  {
    var e := f.mul(a, f.inv(a));
    assert e == Ones(f.mul, a, 7) by {
      assert Laws(f, a, f.inv(a), a);
    }
    OnesTimes(f, a, 7);
    Idempotent(f, a, f.inv(a));
    MulZero(f, a);
  }

  // ----- inverses

  lemma InverseUnique<T(!new)>(f: Field<T>, a: T, r: T)
    requires IsField(f) && a != f.zero
    ensures f.inv(a) == r <==> f.mul(a, r) == f.one
  {
    var i := f.inv(a);
    assert Invertible(f, a);
    assert Laws(f, i, a, r) && Laws(f, a, i, i) && Laws(f, r, r, r);
    MulZero(f, i);
  }

  lemma {:induction false} OnesOfZero<T(!new)>(f: Field<T>, k: nat)
    requires IsRing(f)
    ensures Ones(f.mul, f.zero, k) == f.zero
  {
    if k > 0 {
      MulZero(f, f.mul(Ones(f.mul, f.zero, k - 1), Ones(f.mul, f.zero, k - 1)));
    }
  }
}
