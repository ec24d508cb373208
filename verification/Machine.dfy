/** 32-bit words as the compiler for the target sees them, and the size constants. */
module Machine {
  const NULL := 0
  const TWO31 := 0x8000_0000
  const TWO32 := 0x1_0000_0000
  const PAGE := 4096
  const HEADER := 32
  const MIN_PAGES := 16
  const MIN_EXP := 8
  const MAX_EXP := 32
  const MAX_COMPLETE := 5
  const MAGIC := 0xc001_c0de

  /** A value stored in an `unsigned int`. */
  function Wrap(x: int): int {
    x % TWO32
  }

  /** The same bits read as an `int`. */
  function AsInt(x: int): int {
    if x < TWO31 then x else x - TWO32
  }

  function Max(x: int, y: int): int {
    if x < y then y else x
  }

  function Min(x: int, y: int): int {
    if x < y then x else y
  }

  function Pow2(n: nat): (p: int)
    ensures p >= 1
  {
    if n == 0 then 1 else 2 * Pow2(n - 1)
  }

  lemma {:induction false} Pow2Monotone(a: nat, b: nat)
    requires a < b
    ensures 2 * Pow2(a) <= Pow2(b)
  {
    if a + 1 < b {
      Pow2Monotone(a, b - 1);
    }
  }

  lemma {:induction false} TimesMore(d: nat, a: nat, b: nat)
    requires a < b
    ensures d * a + d <= d * b
    decreases b
  {
    assert d * b == d * (b - 1) + d;
    if a + 1 < b {
      TimesMore(d, a, b - 1);
    }
  }

  /** A quotient is known by the bounds on its remainder. */
  lemma QuotientIs(x: nat, d: nat, q: nat)
    requires d > 0 && d * q <= x < d * q + d
    ensures x / d == q
  {
    var p := x / d;
    assert d * p <= x < d * p + d;
    if p < q {
      TimesMore(d, p, q);
    } else if q < p {
      TimesMore(d, q, p);
    }
  }

  ghost function Pick<T>(s: set<T>): (k: T)
    requires s != {}
    ensures k in s
  {
    var k :| k in s; k
  }

  /** The sum of the values of a finite map, whatever order they are taken in. */
  ghost function Sum(m: map<int, int>): int
    decreases |m|
  {
    if m.Keys == {} then 0
    else
      var k := Pick(m.Keys);
      m[k] + Sum(m - {k})
  }

  lemma RemoveKey(m: map<int, int>, k: int)
    requires k in m
    ensures (m - {k}).Keys == m.Keys - {k} && |m - {k}| < |m|
    ensures forall j | j in m && j != k :: (m - {k})[j] == m[j]
  {
    assert |(m - {k}).Keys| == |m.Keys| - 1;
  }

  lemma {:induction false} SumWithout(m: map<int, int>, k: int)
    requires k in m
    ensures Sum(m) == m[k] + Sum(m - {k})
    decreases |m|
  {
    var j := Pick(m.Keys);
    if j != k {
      RemoveKey(m, j);
      RemoveKey(m, k);
      SumWithout(m - {j}, k);
      SumWithout(m - {k}, j);
      SwapRemovals(m, j, k);
    }
  }

  lemma SwapRemovals(m: map<int, int>, j: int, k: int)
    ensures m - {j} - {k} == m - {k} - {j}
  {
    assert m - {j} - {k} == m - {j, k} == m - {k} - {j};
  }

  lemma SumWith(m: map<int, int>, k: int, v: int)
    ensures k !in m ==> Sum(m[k := v]) == Sum(m) + v
    ensures k in m ==> Sum(m[k := v]) == Sum(m) - m[k] + v
  {
    SumWithout(m[k := v], k);
    assert m[k := v] - {k} == m - {k};
    if k in m {
      SumWithout(m, k);
    } else {
      assert m - {k} == m;
    }
  }
}
