/** Division by a positive number and 64-bit arithmetic, for the proofs about averages and shares. */
module Division {

  function Div(a: nat, n: nat): nat
    requires n > 0
  {
    a / n
  }

  lemma MulMonotone(n: nat, a: int, b: int)
    requires a <= b
    ensures n * a <= n * b
  {
  }

  /** A quotient compares with k as the dividend does with n * k. */
  lemma Quotient(a: nat, n: nat, k: int)
    requires n > 0
    ensures a <= n * k ==> Div(a, n) <= k
    ensures a >= n * k ==> Div(a, n) >= k
    ensures a < n * k ==> Div(a, n) < k
  {
    var q, r := a / n, a % n;
    assert a == n * q + r && n * (q + 1) == n * q + n && n * (k + 1) == n * k + n;
    if q >= k {
      MulMonotone(n, k, q);
    } else {
      MulMonotone(n, q + 1, k);
    }
    if q > k {
      MulMonotone(n, k + 1, q);
    }
  }

  lemma DivAdd(x: nat, n: nat)
    requires n > 0
    ensures Div(x + n, n) == Div(x, n) + 1
  {
    var q := Div(x, n);
    assert x == n * q + x % n && n * (q + 1) == n * q + n && n * (q + 2) == n * q + n + n;
    Quotient(x + n, n, q + 1);
    Quotient(x + n, n, q + 2);
  }

  lemma DivMonotone(a: nat, b: nat, n: nat)
    requires n > 0 && a <= b
    ensures Div(a, n) <= Div(b, n)
  {
    var q := Div(a, n);
    assert a == n * q + a % n;
    Quotient(b, n, q);
  }

  lemma DivSmall(a: nat, n: nat)
    requires a < n
    ensures Div(a, n) == 0
  {
  }

  // ---------------------------------------------------------------- signed 64-bit numbers

  const TWO_63: int := 0x8000_0000_0000_0000
  const TWO_64: int := 0x1_0000_0000_0000_0000

  predicate Fits64(x: int) {
    -TWO_63 <= x < TWO_63
  }

  type int64 = x: int | Fits64(x)

  /** What is left of x in 64 bits, two's complement. */
  function Wrap64(x: int): (r: int64) {
    (x + TWO_63) % TWO_64 - TWO_63
  }

  function Add64(a: int, b: int): int64 {
    Wrap64(a + b)
  }

  function Sub64(a: int, b: int): int64 {
    Wrap64(a - b)
  }

  lemma WrapFits(x: int)
    ensures Wrap64(x) == x <==> Fits64(x)
  {
  }

  lemma WrapMultiple(x: int)
    ensures exists k: int :: Wrap64(x) == x - TWO_64 * k
  {
    var k := (x + TWO_63) / TWO_64;
    assert Wrap64(x) == x - TWO_64 * k;
  }

  lemma WrapShift(x: int, k: int)
    ensures Wrap64(x - TWO_64 * k) == Wrap64(x)
  {
    var y, q := x + TWO_63, (x + TWO_63) / TWO_64;
    var r := y - TWO_64 * q;
    assert y - TWO_64 * k == TWO_64 * (q - k) + r;
  }

  /** Wrapping early makes no difference to a sum. */
  lemma WrapAdd(a: int, b: int)
    ensures Wrap64(Wrap64(a) + b) == Wrap64(a + b)
  {
    WrapMultiple(a);
    var k: int :| Wrap64(a) == a - TWO_64 * k;
    WrapShift(a + b, k);
  }

  /** A number that does not fit is changed by 2^64 at least. */
  lemma WrapFar(x: int)
    requires !Fits64(x)
    ensures Wrap64(x) <= x - TWO_64 || Wrap64(x) >= x + TWO_64
  {
    WrapMultiple(x);
    var k: int :| Wrap64(x) == x - TWO_64 * k;
  }
}
