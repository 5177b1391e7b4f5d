/** The few facts about products that the solver should not have to find among others. */
module Products {
  lemma Distributes(m: int, a: int, b: int)
    ensures m * (a + b) == m * a + m * b
  {
  }

  lemma Associates(a: int, b: int, c: int)
    ensures a * b * c == a * (b * c)
  {
  }

  lemma {:induction false} Grows(m: nat, a: int, b: int)
    requires a <= b
    ensures m * a <= m * b
    decreases b - a
  {
    if a < b {
      Grows(m, a, b - 1);
      Distributes(m, b - 1, 1);
    }
  }

  lemma {:induction false} QuotientIs(x: nat, m: nat, q: nat, r: nat)
    requires m > 0 && x == m * q + r && r < m
    ensures x / m == q && x % m == r
  {
    var p, s := x / m, x % m;
    Divides(x, m);
    if p > q {
      Grows(m, q + 1, p);
      Distributes(m, q, 1);
    } else if p < q {
      Grows(m, p + 1, q);
      Distributes(m, p, 1);
    }
  }

  lemma {:induction false} TwoDigits(m: nat, n: nat, p: nat, s: nat, r: nat)
    requires s < n && r < m
    ensures m * (n * p + s) + r == m * n * p + (m * s + r) && m * s + r < m * n
  {
    Distributes(m, n * p, s);
    Associates(m, n, p);
    Grows(m, s + 1, n);
    Distributes(m, s, 1);
  }

  lemma {:induction false} DivideTwice(v: nat, m: nat, n: nat)
    requires m > 0 && n > 0
    ensures m * n > 0 && v / m / n == v / (m * n)
  {
    var q, r := v / m, v % m;
    var p, s := q / n, q % n;
    Divides(v, m);
    Divides(q, n);
    TwoDigits(m, n, p, s, r);
    QuotientIs(v, m * n, p, m * s + r);
  }

  lemma Divides(v: nat, m: nat)
    requires m > 0
    ensures v == m * (v / m) + v % m && 0 <= v % m < m
  {
  }
}
