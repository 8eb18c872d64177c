/** Euclidean division facts with a variable divisor. */
module Arith {

  lemma MultipleOf(k: int, d: int)
    requires 0 < d
    ensures k >= 1 ==> k * d >= d
    ensures k <= -1 ==> k * d <= -d
  {
    if k >= 1 {
      assert k * d == d + (k - 1) * d;
    } else if k <= -1 {
      assert k * d == -d - (-k - 1) * d;
    }
  }

  lemma MulNext(k: int, d: int)
    ensures (k + 1) * d == k * d + d
  {
  }

  lemma MulOrder(j: int, k: int, d: int)
    requires j <= k && 0 <= d
    ensures j * d <= k * d
  {
    assert k * d == j * d + (k - j) * d;
  }

  lemma DivMod(w: int, d: int, q: int, r: int)
    requires w == q * d + r && 0 <= r < d
    ensures w / d == q && w % d == r
  {
    assert w == w / d * d + w % d;
    assert (w / d - q) * d == r - w % d;
    MultipleOf(w / d - q, d);
  }

  lemma DivAtLeast(a: int, d: int, k: int)
    requires 0 < d && k * d <= a
    ensures k <= a / d
  {
    assert a == a / d * d + a % d;
    assert (k - a / d) * d <= a % d;
    MultipleOf(k - a / d, d);
  }

  lemma DivBelow(a: int, d: int, k: int)
    requires 0 < d && a < k * d
    ensures a / d < k
  {
    assert a == a / d * d + a % d;
    assert (a / d - k) * d < 0;
    MultipleOf(a / d - k, d);
  }

  lemma DivExactly(a: int, d: int, k: int)
    requires 0 < d
    ensures k <= a / d <==> k * d <= a
  {
    if k * d <= a {
      DivAtLeast(a, d, k);
    } else {
      DivBelow(a, d, k);
    }
  }

  lemma DivMonotone(a: int, b: int, d: int)
    requires 0 < d && a <= b
    ensures a / d <= b / d
    ensures a + d <= b ==> a / d + 1 <= b / d
  {
    assert a == a / d * d + a % d;
    DivAtLeast(b, d, a / d);
    if a + d <= b {
      assert (a / d + 1) * d == a / d * d + d;
      DivAtLeast(b, d, a / d + 1);
    }
  }
}
