/** Powers of two, the binary logarithm and single bits, as the graph arithmetic uses them. */
module Powers {

  function Pow2(n: nat): (p: nat)
    ensures p >= 1
  {
    if n == 0 then 1 else 2 * Pow2(n - 1)
  }

  lemma {:induction false} Pow2Monotone(a: nat, b: nat)
    requires a <= b
    ensures Pow2(a) <= Pow2(b)
    decreases b
  {
    if a < b {
      Pow2Monotone(a, b - 1);
    }
  }

  /** Log2: counts the halvings down to one. */
  method Log2(x: nat) returns (r: nat)
    ensures x >= 1 ==> Pow2(r) <= x < Pow2(r + 1)
    ensures x == 0 ==> r == 0
  {
    r := 0;
    var y := x;
    while y > 1
      invariant x == 0 ==> r == 0 && y == 0
      invariant x >= 1 ==> y >= 1 && y * Pow2(r) <= x < (y + 1) * Pow2(r)
    {
      ghost var p := Pow2(r);
      HalveBounds(y, p, x);
      y := y / 2;
      r := r + 1;
    }
  }

  lemma HalveBounds(y: nat, p: nat, x: nat)
    requires y * p <= x < (y + 1) * p
    ensures y / 2 * (2 * p) <= x < (y / 2 + 1) * (2 * p)
  {
    var z := y / 2;
    assert z * (2 * p) == (2 * z) * p && (z + 1) * (2 * p) == (2 * z + 2) * p;
    assert 2 * z <= y <= 2 * z + 1;
    assert (2 * z) * p <= y * p && (y + 1) * p <= (2 * z + 2) * p;
  }

  /** Whether bit s of i is set. */
  predicate Bit(i: nat, s: nat) {
    i / Pow2(s) % 2 == 1
  }

  /** i with bit s inverted. */
  function Flip(i: nat, s: nat): (r: nat) {
    if Bit(i, s) then
      DividesWhole(i, Pow2(s));
      i - Pow2(s)
    else i + Pow2(s)
  }

  lemma DividesWhole(i: nat, p: nat)
    requires p >= 1 && i / p % 2 == 1
    ensures i >= p
  {
    var d := i / p;
    assert i < p ==> d == 0;
  }

  lemma MulMonotone(a: nat, b: nat, p: nat)
    requires a <= b
    ensures a * p <= b * p
  {
    assert (b - a) * p >= 0;
  }

  lemma DivShift(i: nat, p: nat)
    requires p >= 1
    ensures (i + p) / p == i / p + 1
  {
    DivUnique(i + p, p, i / p + 1);
  }

  lemma DivUnique(i: nat, p: nat, q: nat)
    requires p >= 1 && q * p <= i < (q + 1) * p
    ensures i / p == q && i % p == i - q * p
  {
    var d := i / p;
    assert d * p <= i < (d + 1) * p;
    assert d < q ==> (d + 1) * p <= q * p;
    assert d > q ==> (q + 1) * p <= d * p;
  }

  /** Flipping a bit changes that bit, and flipping it again restores the number. */
  lemma FlipTwice(i: nat, s: nat)
    ensures Bit(Flip(i, s), s) != Bit(i, s)
    ensures Flip(Flip(i, s), s) == i
  {
    var p := Pow2(s);
    if Bit(i, s) {
      DividesWhole(i, p);
      DivShift(i - p, p);
    } else {
      DivShift(i, p);
    }
  }

  /** Flipping a bit below n stays below 2^n. */
  lemma FlipInRange(i: nat, s: nat, n: nat)
    requires s < n && i < Pow2(n)
    ensures Flip(i, s) < Pow2(n)
  {
    if !Bit(i, s) {
      var m := EvenMultiple(s, n);
      EvenRoom(i, Pow2(s), m);
    }
  }

  lemma EvenRoom(i: nat, p: nat, m: nat)
    requires p >= 1 && i < (2 * m) * p && i / p % 2 == 0
    ensures i + p < (2 * m) * p
  {
    var d := i / p;
    assert d * p <= i < (d + 1) * p;
    if d >= 2 * m {
      MulMonotone(2 * m, d, p);
      assert false;
    }
    MulMonotone(d + 2, 2 * m, p);
    assert (d + 2) * p == (d + 1) * p + p;
  }

  lemma {:induction false} EvenMultiple(s: nat, n: nat) returns (m: nat)
    requires s < n
    ensures Pow2(n) == (2 * m) * Pow2(s)
    decreases n
  {
    if s + 1 == n {
      m := 1;
    } else {
      var k := EvenMultiple(s, n - 1);
      m := 2 * k;
      assert 2 * ((2 * k) * Pow2(s)) == (2 * (2 * k)) * Pow2(s);
    }
  }

  /** Adding multiples of m leaves the remainder alone. */
  lemma ModPlus(r: nat, k: nat, m: nat)
    requires m >= 1
    ensures (r + k * m) % m == r % m
  {
    var q := r / m;
    assert (q + k) * m == q * m + k * m && (q + k + 1) * m == q * m + k * m + m;
    DivUnique(r + k * m, m, q + k);
  }
}
