/** Integer division as the programs use it, and the few facts about floors that the models rest on. */
module Arithmetic {

  /** JavaScript's bigint `/`: the quotient truncated toward zero. */
  function TruncDiv(a: int, b: int): int
    requires b != 0
  {
    if a >= 0 then a / b else -((-a) / b)
  }

  /** JavaScript's bigint `%`: the remainder carries the sign of the dividend. */
  function TruncMod(a: int, b: int): int
    requires b > 0
  {
    if a >= 0 then a % b else -((-a) % b)
  }

  function Min(a: int, b: int): int {
    if a < b then a else b
  }

  lemma MulMono(a: int, b: int, c: int)
    requires a <= b && 0 <= c
    ensures a * c <= b * c
    ensures c * a <= c * b
  {
    assert 0 <= (b - a) * c;
  }

  /** A product of naturals is natural. */
  lemma MulNonNeg(a: int, b: int)
    requires 0 <= a && 0 <= b
    ensures 0 <= a * b
  {}

  lemma MulDistributes(a: int, b: int, c: int)
    ensures a * (b + c) == a * b + a * c
    ensures (b + c) * a == b * a + c * a
  {}

  lemma MulAssociates(a: int, b: int, c: int)
    ensures a * (b * c) == a * b * c
  {}

  lemma MulCancel(a: int, b: int, c: int)
    requires c > 0 && a * c <= b * c
    ensures a <= b
  {
    if a > b {
      MulMono(b + 1, a, c);
      MulDistributes(c, b, 1);
    }
  }

  /** The floor quotient is the one integer whose multiples bracket the dividend. */
  lemma DivBounds(a: int, d: int)
    requires d > 0
    ensures a / d * d <= a < a / d * d + d
    ensures a % d == a - a / d * d
  {}

  lemma DivUnique(a: int, d: int, q: int)
    requires d > 0 && q * d <= a < q * d + d
    ensures a / d == q
  {
    DivBounds(a, d);
    var k := a / d;
    assert (k + 1) * d == k * d + d && (q + 1) * d == q * d + d;
    if k < q {
      MulMono(k + 1, q, d);
    } else if q < k {
      MulMono(q + 1, k, d);
    }
  }

  /** `a / d >= q` exactly when `a` reaches the q-th multiple of `d`. */
  lemma DivAtLeast(a: int, d: int, q: int)
    requires d > 0
    ensures a / d >= q <==> a >= q * d
  {
    DivBounds(a, d);
    var k := a / d;
    if k >= q {
      MulMono(q, k, d);
    } else {
      MulMono(k + 1, q, d);
      assert (k + 1) * d == k * d + d;
    }
  }

  lemma DivMono(a: int, b: int, d: int)
    requires d > 0 && a <= b
    ensures a / d <= b / d
  {
    DivBounds(a, d);
    DivAtLeast(b, d, a / d);
  }

  lemma DivNonNeg(a: int, d: int)
    requires d > 0 && a >= 0
    ensures a / d >= 0
  {
    DivAtLeast(a, d, 0);
  }

  /** Two floors together miss at most one unit of the floor of the sum. */
  lemma DivSuperAdditive(a: int, b: int, d: int)
    requires d > 0
    ensures a / d + b / d <= (a + b) / d <= a / d + b / d + 1
  {
    DivBounds(a, d);
    DivBounds(b, d);
    var q := a / d + b / d;
    assert q * d == a / d * d + b / d * d;
    assert (q + 2) * d == q * d + 2 * d;
    DivAtLeast(a + b, d, q);
    DivAtLeast(a + b, d, q + 2);
  }

  /** Below the modulus the remainder is the dividend; from it on, it drops by at least the modulus. */
  lemma ModBounds(a: int, m: int)
    requires m > 0 && a >= 0
    ensures 0 <= a % m < m
    ensures a < m ==> a % m == a
    ensures a >= m ==> a % m <= a - m
  {
    DivBounds(a, m);
    if a < m {
      DivUnique(a, m, 0);
    } else {
      DivAtLeast(a, m, 1);
      MulMono(1, a / m, m);
    }
  }

  // ----- sums

  function Sum(values: seq<nat>): nat {
    if values == [] then 0 else values[0] + Sum(values[1..])
  }

  lemma {:induction false} SumAppend(values: seq<nat>, last: nat)
    ensures Sum(values + [last]) == Sum(values) + last
  {
    if values == [] {
      assert ([] + [last])[1..] == [];
    } else {
      assert (values + [last])[1..] == values[1..] + [last];
      SumAppend(values[1..], last);
    }
  }

  /** The last summand apart. */
  lemma SumSplitLast(values: seq<nat>)
    requires values != []
    ensures Sum(values) == Sum(values[..|values| - 1]) + values[|values| - 1]
  {
    assert values == values[..|values| - 1] + [values[|values| - 1]];
    SumAppend(values[..|values| - 1], values[|values| - 1]);
  }

  /** Replacing one summand. */
  lemma {:induction false} SumUpdate(values: seq<nat>, k: nat, value: nat)
    requires k < |values|
    ensures Sum(values[k := value]) == Sum(values) - values[k] + value
  {
    if k == 0 {
      assert values[0 := value][1..] == values[1..];
    } else {
      assert values[k := value][1..] == values[1..][k - 1 := value];
      SumUpdate(values[1..], k - 1, value);
    }
  }
}
