module Arithmetic {

  lemma MultipleIsLarge(k: int, m: int)
    requires m > 0 && k != 0
    ensures k * m >= m || k * m <= -m
  {
    if k > 0 {
      assert k * m >= m;
    } else {
      assert k * m <= -m;
    }
  }

  lemma DivMod(q: nat, m: nat, r: nat)
    requires r < m
    ensures (q * m + r) / m == q && (q * m + r) % m == r
  {
    var x := q * m + r;
    var d, e := x / m, x % m;
    assert x == d * m + e;
    assert (q - d) * m == e - r;
    if q != d {
      MultipleIsLarge(q - d, m);
    }
  }

  lemma ModNext(k: nat, n: nat)
    requires n > 0
    ensures (k + 1) % n == if k % n + 1 == n then 0 else k % n + 1
  {
    var d, r := k / n, k % n;
    assert k == d * n + r;
    if r + 1 == n {
      assert k + 1 == (d + 1) * n + 0;
      DivMod(d + 1, n, 0);
    } else {
      DivMod(d, n, r + 1);
    }
  }
}
