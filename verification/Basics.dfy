/** What every part of the model shares: optional values, byte strings, and a little arithmetic. */
module Basics {
  datatype Option<+T> = None | Some(value: T)

  type Bytes = seq<nat>

  function Min(a: int, b: int): int { if a < b then a else b }

  function Max(a: int, b: int): int { if a > b then a else b }

  function Pow2(n: nat): (r: nat)
    ensures r > 0
  {
    if n == 0 then 1 else 2 * Pow2(n - 1)
  }

  lemma MulMono(k: int, x: int, y: int)
    requires k >= 0
    ensures x <= y ==> k * x <= k * y
    ensures k > 0 && x < y ==> k * x < k * y
  {
    if k > 0 && x < y {
      assert k * (y - x) > 0;
    }
  }

  lemma DivUnique(i: int, a: nat, q: int, r: nat)
    requires r < a && i == q * a + r
    ensures i / a == q && i % a == r
  {
    var q', r' := i / a, i % a;
    assert i == q' * a + r';
    if q < q' {
      MulMono(a, q + 1, q');
    } else if q' < q {
      MulMono(a, q' + 1, q);
    }
  }

  lemma DivZero(i: nat, a: nat)
    requires a > 0
    ensures i < a <==> i / a == 0
  {
    if i < a {
      DivUnique(i, a, 0, i);
    }
  }

  lemma DivTwice(i: nat, a: nat)
    requires a > 0
    ensures (i / a) / 2 == i / (2 * a)
  {
    var q, r := i / a, i % a;
    var half, odd := q / 2, q % 2;
    assert odd * a <= a by { MulMono(a, odd, 1); }
    assert i == q * a + r == half * (2 * a) + (odd * a + r);
    DivUnique(i, 2 * a, half, odd * a + r);
  }

  lemma DivMono(x: int, y: int, d: int)
    requires 0 <= x <= y && d > 0
    ensures 0 <= x / d <= y / d
  {
    var q, r := x / d, y / d;
    if q > r {
      MulMono(d, r + 1, q);
    }
  }
}
