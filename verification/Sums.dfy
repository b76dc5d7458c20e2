// Sums over finite maps: the meaning of the redundant totals the held ledger keeps.
module Sums {

  ghost function Sum(m: map<string, real>): real {
    if m == map[] then 0.0 else var k :| k in m; m[k] + Sum(m - {k})
  }

  function Get(m: map<string, real>, k: string): real {
    if k in m then m[k] else 0.0
  }

  /** The choice made inside `Sum` does not matter. */
  lemma {:induction false} SumAt(m: map<string, real>, k: string)
    requires k in m
    ensures Sum(m) == m[k] + Sum(m - {k})
    decreases |m|
  {
    var j :| j in m && Sum(m) == m[j] + Sum(m - {j});
    if j != k {
      SumAt(m - {j}, k);
      SumAt(m - {k}, j);
      assert m - {j} - {k} == m - {k} - {j};
    }
  }

  lemma SumUpdate(m: map<string, real>, k: string, v: real)
    ensures Sum(m[k := v]) == Sum(m) - Get(m, k) + v
  {
    SumAt(m[k := v], k);
    assert m[k := v] - {k} == m - {k};
    if k in m {
      SumAt(m, k);
    } else {
      assert m - {k} == m;
    }
  }

  ghost predicate NonNegative(m: map<string, real>) {
    forall k :: k in m ==> m[k] >= 0.0
  }

  lemma {:induction false} SumNonNegative(m: map<string, real>)
    requires NonNegative(m)
    ensures Sum(m) >= 0.0
    decreases |m|
  {
    if m != map[] {
      var k :| k in m;
      SumAt(m, k);
      SumNonNegative(m - {k});
    }
  }

  lemma PartAtMostSum(m: map<string, real>, k: string)
    requires NonNegative(m)
    ensures Get(m, k) <= Sum(m)
  {
    if k in m {
      SumAt(m, k);
      SumNonNegative(m - {k});
    } else {
      SumNonNegative(m);
    }
  }

  function Only(m: map<string, real>, s: set<string>): map<string, real> {
    map k | k in m && k in s :: m[k]
  }

  lemma DropFromSplit(m: map<string, real>, s: set<string>, k: string)
    ensures Only(m, s) - {k} == Only(m - {k}, s)
    ensures m - s - {k} == m - {k} - s
    ensures k !in s ==> Only(m, s) == Only(m - {k}, s)
    ensures k in s ==> m - s == m - {k} - s
  {}

  /** A sum splits over any set of keys. */
  lemma {:induction false} SumSplit(m: map<string, real>, s: set<string>)
    ensures Sum(m) == Sum(Only(m, s)) + Sum(m - s)
    decreases |m|
  {
    if m == map[] {
      assert Only(m, s) == map[] && m - s == map[];
    } else {
      var k :| k in m;
      DropFromSplit(m, s, k);
      SumAt(m, k);
      SumSplit(m - {k}, s);
      if k in s {
        SumAt(Only(m, s), k);
      } else {
        SumAt(m - s, k);
      }
    }
  }

  lemma DropOne(m: map<string, real>, k: string)
    ensures Sum(m) == Get(m, k) + Sum(m - {k})
  {
    if k in m { SumAt(m, k); } else { assert m - {k} == m; }
  }
}
