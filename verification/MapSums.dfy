/** Finite maps of integer totals: the accumulation `d[k] += x` of a defaultdict and the sum of all values. */
module MapSums {

  function Get<K>(m: map<K, int>, k: K): int {
    if k in m then m[k] else 0
  }

  function Add<K>(m: map<K, int>, k: K, x: int): map<K, int> {
    m[k := Get(m, k) + x]
  }

  ghost function Total<K>(m: map<K, int>): int
    decreases |m|
  {
    if m == map[] then 0
    else
      var k :| k in m;
      m[k] + Total(m - {k})
  }

  /** The sum of the values does not depend on the order in which keys are taken. */
  lemma {:induction false} TotalRemove<K>(m: map<K, int>, k: K)
    requires k in m
    ensures Total(m) == m[k] + Total(m - {k})
    decreases |m|
  {
    var c :| c in m && Total(m) == m[c] + Total(m - {c});
    if c != k {
      TotalRemove(m - {c}, k);
      TotalRemove(m - {k}, c);
      assert m - {c} - {k} == m - {k} - {c};
    }
  }

  lemma TotalAdd<K>(m: map<K, int>, k: K, x: int)
    ensures Total(Add(m, k, x)) == Total(m) + x
  {
    var m' := Add(m, k, x);
    TotalRemove(m', k);
    if k in m {
      TotalRemove(m, k);
      assert m' - {k} == m - {k};
    } else {
      assert m' - {k} == m;
    }
  }

  lemma SomeKey<K>(m: map<K, int>) returns (k: K)
    requires m != map[]
    ensures k in m
  {
    k :| k in m;
  }

  function AtLeast(m: map<int, int>, b: int): map<int, int> {
    map k | k in m && k >= b :: m[k]
  }

  function Below(m: map<int, int>, b: int): map<int, int> {
    map k | k in m && k < b :: m[k]
  }

  lemma AddAtLeast(m: map<int, int>, k: int, x: int, b: int)
    ensures Total(AtLeast(Add(m, k, x), b)) == Total(AtLeast(m, b)) + if k >= b then x else 0
  {
    if k >= b {
      assert AtLeast(Add(m, k, x), b) == Add(AtLeast(m, b), k, x);
      TotalAdd(AtLeast(m, b), k, x);
    } else {
      assert AtLeast(Add(m, k, x), b) == AtLeast(m, b);
    }
  }

  /** Removing a key from one side of the bound leaves the other side alone. */
  lemma SidesWithout(m: map<int, int>, b: int, k: int)
    ensures if k >= b
            then AtLeast(m, b) - {k} == AtLeast(m - {k}, b) && Below(m, b) == Below(m - {k}, b)
            else Below(m, b) - {k} == Below(m - {k}, b) && AtLeast(m, b) == AtLeast(m - {k}, b)
  {
  }

  lemma {:induction false} TotalSplits(m: map<int, int>, b: int)
    ensures Total(m) == Total(AtLeast(m, b)) + Total(Below(m, b))
    decreases |m|
  {
    if m == map[] {
      assert AtLeast(m, b) == map[] && Below(m, b) == map[];
    } else {
      var k := SomeKey(m);
      TotalRemove(m, k);
      TotalSplits(m - {k}, b);
      SidesWithout(m, b, k);
      if k >= b {
        TotalRemove(AtLeast(m, b), k);
      } else {
        TotalRemove(Below(m, b), k);
      }
    }
  }

  method SumValues(m: map<int, int>) returns (sum: int)
    ensures sum == Total(m)
  {
    sum := 0;
    var rest := m;
    while rest != map[]
      invariant sum + Total(rest) == Total(m)
      decreases |rest|
    {
      ghost var some := SomeKey(rest);
      var k :| k in rest;
      TotalRemove(rest, k);
      sum, rest := sum + rest[k], rest - {k};
    }
  }
}
