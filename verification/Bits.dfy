/** Division with remainder, by its defining equation. */
module Arithmetic {
  lemma DivModUnique(q: nat, m: nat, t: nat)
    requires t < m
    ensures (m * q + t) / m == q && (m * q + t) % m == t
  {
    var y := m * q + t;
    var d := q - y / m;
    assert m * d == y % m - t;
    assert d == 0;
  }
}

/** Bit strings, most significant bit first, and their packing into fixed-width numbers. */
module Bits {
  import opened Arithmetic

  function Pow2(k: nat): (p: nat)
    ensures p > 0
  {
    if k == 0 then 1 else 2 * Pow2(k - 1)
  }

  /** The low `w` bits of n. */
  function NatBits(n: nat, w: nat): (b: seq<bool>)
    ensures |b| == w
  {
    if w == 0 then [] else NatBits(n / 2, w - 1) + [n % 2 == 1]
  }

  function BitsToNat(b: seq<bool>): (n: nat)
    ensures n < Pow2(|b|)
  {
    if b == [] then 0 else 2 * BitsToNat(b[..|b| - 1]) + if b[|b| - 1] then 1 else 0
  }

  /** n >> k. */
  function Shr(n: nat, k: nat): nat
  {
    if k == 0 then n else Shr(n / 2, k - 1)
  }

  lemma {:induction false} BitsOfNat(n: nat, w: nat)
    requires n < Pow2(w)
    ensures BitsToNat(NatBits(n, w)) == n
    decreases w
  {
    if w > 0 {
      BitsOfNat(n / 2, w - 1);
      assert NatBits(n, w)[..w - 1] == NatBits(n / 2, w - 1);
    }
  }

  lemma {:induction false} NatOfBits(b: seq<bool>)
    ensures NatBits(BitsToNat(b), |b|) == b
  {
    if b != [] {
      var front := b[..|b| - 1];
      NatOfBits(front);
      assert BitsToNat(b) / 2 == BitsToNat(front);
      assert b == front + [b[|b| - 1]];
    }
  }

  /** The low a + b bits are the low a bits of n >> b, then the low b bits of n. */
  lemma {:induction false} SplitBits(n: nat, a: nat, b: nat)
    ensures NatBits(n, a + b) == NatBits(Shr(n, b), a) + NatBits(n, b)
    decreases b
  {
    if b > 0 {
      SplitBits(n / 2, a, b - 1);
    }
  }

  lemma Halve(y: int, r: int)
    ensures (2 * y + r) / 2 == y + r / 2 && (2 * y + r) % 2 == r % 2
  {
  }

  lemma DoubleFactor(n: int, p: int)
    ensures n * (2 * p) == 2 * (n * p)
  {
  }

  lemma {:induction false} ShiftIn(n: nat, k: nat, v: nat, w: nat)
    requires v < Pow2(k)
    ensures NatBits(n * Pow2(k) + v, w + k) == NatBits(n, w) + NatBits(v, k)
    decreases k
  {
    if k > 0 {
      var p := Pow2(k - 1);
      DoubleFactor(n, p);
      Halve(n * p, v);
      ShiftIn(n, k - 1, v / 2, w);
    }
  }

  lemma ModDouble(q: nat, m: nat, t: nat, bit: nat)
    requires t < m && bit < 2
    ensures (2 * (m * q + t) + bit) % (2 * m) == 2 * t + bit
  {
    DoubleFactor(q, m);
    DivModUnique(q, 2 * m, 2 * t + bit);
  }

  lemma Divided(x: nat, m: nat) returns (q: nat, t: nat)
    requires m > 0
    ensures x == m * q + t && t < m && t == x % m
  {
    q, t := x / m, x % m;
  }

  lemma ModHalf(x: nat, m: nat)
    requires m > 0
    ensures x % (2 * m) == 2 * (x / 2 % m) + x % 2
  {
    var q, t := Divided(x / 2, m);
    ModDouble(q, m, t, x % 2);
    assert x == 2 * (m * q + t) + x % 2;
  }

  /** Bits above the k-th do not show in the low w <= k bits. */
  lemma {:induction false} HighBitsShed(x: nat, k: nat, w: nat)
    requires w <= k
    ensures NatBits(x % Pow2(k), w) == NatBits(x, w)
    decreases w
  {
    if w > 0 {
      ModHalf(x, Pow2(k - 1));
      Halve(x / 2 % Pow2(k - 1), x % 2);
      HighBitsShed(x / 2, k - 1, w - 1);
    }
  }

  // ----- packing

  function Unpack(xs: seq<nat>, w: nat): (b: seq<bool>) {
    if xs == [] then [] else NatBits(xs[0], w) + Unpack(xs[1..], w)
  }

  function Pack(b: seq<bool>, w: nat): (xs: seq<nat>)
    requires w > 0
    decreases |b|
  {
    if |b| < w then [] else [BitsToNat(b[..w])] + Pack(b[w..], w)
  }

  ghost predicate Fits(xs: seq<nat>, w: nat) {
    forall i :: 0 <= i < |xs| ==> xs[i] < Pow2(w)
  }

  lemma {:induction false} UnpackAppend(xs: seq<nat>, x: nat, w: nat)
    ensures Unpack(xs + [x], w) == Unpack(xs, w) + NatBits(x, w)
  {
    if xs == [] {
      assert [] + [x] == [x] && [x][1..] == [];
    } else {
      assert (xs + [x])[1..] == xs[1..] + [x];
      UnpackAppend(xs[1..], x, w);
    }
  }

  lemma {:induction false} PackUnpack(xs: seq<nat>, w: nat, tail: seq<bool>)
    requires w > 0 && Fits(xs, w) && |tail| < w
    ensures Pack(Unpack(xs, w) + tail, w) == xs
  {
    if xs == [] {
      assert [] + tail == tail;
    } else {
      var first, rest := NatBits(xs[0], w), Unpack(xs[1..], w) + tail;
      assert Unpack(xs, w) + tail == first + rest;
      assert (first + rest)[..w] == first && (first + rest)[w..] == rest;
      BitsOfNat(xs[0], w);
      PackUnpack(xs[1..], w, tail);
    }
  }

  lemma {:induction false} UnpackPack(b: seq<bool>, w: nat)
    requires w > 0
    ensures Fits(Pack(b, w), w)
    ensures Unpack(Pack(b, w), w) <= b && |b| - |Unpack(Pack(b, w), w)| < w
    decreases |b|
  {
    if |b| >= w {
      UnpackPack(b[w..], w);
      NatOfBits(b[..w]);
      var xs := Pack(b, w);
      assert xs[1..] == Pack(b[w..], w);
      assert b == b[..w] + b[w..];
    }
  }

  lemma {:induction false} UnpackLength(xs: seq<nat>, w: nat)
    ensures |Unpack(xs, w)| == |xs| * w
  {
    if xs != [] {
      UnpackLength(xs[1..], w);
    }
  }
}
