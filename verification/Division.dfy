/** Quotients and remainders. */
module Division {
  lemma MulLe(a: nat, b: nat, m: nat)
    requires a <= b
    ensures m * a <= m * b
  {
  }

  /** Division with a remainder has one result. */
  lemma ModUnique(a: nat, m: nat, q: nat, r: nat)
    requires r < m && a == m * q + r
    ensures a % m == r
  {
    var q', r' := a / m, a % m;
    assert a == m * q' + r' && r' < m;
    if q < q' {
      MulLe(q + 1, q', m);
    } else if q' < q {
      MulLe(q' + 1, q, m);
    }
  }

  lemma Multiples(m: nat, i: nat, j: nat)
    ensures m * (i + j) == m * i + m * j
  {
  }

  lemma ModOfSum(k: nat, n: nat, m: nat)
    requires m > 0 && k % m == 0
    ensures (k + n) % m == n % m
  {
    var i, j := k / m, n / m;
    assert k == m * i && n == m * j + n % m;
    Multiples(m, i, j);
    ModUnique(k + n, m, i + j, n % m);
  }

  /** A count kept modulo `m` goes on right. */
  lemma ModOfCount(count: nat, n: nat, m: nat)
    requires m > 0
    ensures (count % m + n) % m == (count + n) % m
  {
    var q, r := count / m, (count % m + n) % m;
    var k := (count % m + n) / m;
    assert count == m * q + count % m && count % m + n == m * k + r;
    Multiples(m, q, k);
    ModUnique(count + n, m, q + k, r);
  }

  lemma WholeLength(n: nat, m: nat)
    requires m > 0
    ensures (n - n % m) % m == 0 && n % m <= n
  {
    ModUnique(n - n % m, m, n / m, 0);
  }

  lemma WithoutOne(n: nat, m: nat)
    requires 0 < m <= n && n % m == 0
    ensures (n - m) % m == 0
  {
    assert n == m * (n / m) && m * (n / m - 1) == m * (n / m) - m;
    ModUnique(n - m, m, n / m - 1, 0);
  }

  lemma DivRest(total: nat, bs: nat)
    requires bs > 0
    ensures total == bs * (total / bs) + total % bs && total % bs < bs
  {
  }

  lemma QuotientLe(bs: nat, q: nat, r: nat, q': nat, r': nat)
    requires r' < bs && bs * q + r <= bs * q' + r'
    ensures q <= q'
  {
    if q' < q { MulLe(q' + 1, q, bs); }
  }

  lemma SameQuotient(bs: nat, i: nat, n: nat, q: nat, r: nat)
    requires bs * i + n == bs * q + r && n < bs && r < bs
    ensures i == q && n == r
  {
    QuotientLe(bs, i, n, q, r);
    QuotientLe(bs, q, r, i, n);
  }
}
