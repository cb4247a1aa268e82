/** The sum of the values of a finite map. */
module Totals {

  /** Some element of a set that is not empty. */
  method Pick<T>(s: set<T>) returns (x: T)
    requires s != {}
    ensures x in s
  {
    x :| x in s;
  }

  lemma Member<T>(s: set<T>) returns (x: T)
    requires s != {}
    ensures x in s
  {
    x :| x in s;
  }

  ghost function Total<K(!new)>(m: map<K, nat>): nat
    decreases |m.Keys|
  {
    if m.Keys == {} then 0
    else
      var k :| k in m;
      assert (m - {k}).Keys == m.Keys - {k};
      m[k] + Total(m - {k})
  }

  /** Any entry can be the one taken out. */
  lemma {:induction false} TotalWithout<K(!new)>(m: map<K, nat>, k: K)
    requires k in m
    ensures Total(m) == m[k] + Total(m - {k})
    decreases |m.Keys|
  {
    var j :| j in m && Total(m) == m[j] + Total(m - {j});
    assert (m - {j}).Keys == m.Keys - {j} && (m - {k}).Keys == m.Keys - {k};
    if j != k {
      TotalWithout(m - {j}, k);
      TotalWithout(m - {k}, j);
      assert m - {j} - {k} == m - {k} - {j};
    }
  }

  lemma TotalSet<K(!new)>(m: map<K, nat>, k: K, v: nat)
    ensures Total(m[k := v]) == Total(m - {k}) + v
  {
    TotalWithout(m[k := v], k);
    assert m[k := v] - {k} == m - {k};
  }

  lemma TotalEmpty<K(!new)>(m: map<K, nat>)
    requires m.Keys == {}
    ensures Total(m) == 0
  {
  }

  function Inside<K(!new), V>(m: map<K, V>, s: set<K>): map<K, V> { map k | k in m && k in s :: m[k] }

  function Outside<K(!new), V>(m: map<K, V>, s: set<K>): map<K, V> { map k | k in m && k !in s :: m[k] }

  lemma SplitWithout<K(!new)>(m: map<K, nat>, s: set<K>, k: K)
    requires k in m
    ensures k in s ==> Inside(m, s) - {k} == Inside(m - {k}, s) && Outside(m, s) == Outside(m - {k}, s)
    ensures k !in s ==> Inside(m, s) == Inside(m - {k}, s) && Outside(m, s) - {k} == Outside(m - {k}, s)
  {
  }

  /** The entries with keys in `s`, and the others, add up to the whole. */
  lemma {:induction false} TotalSplit<K(!new)>(m: map<K, nat>, s: set<K>)
    ensures Total(m) == Total(Inside(m, s)) + Total(Outside(m, s))
    decreases |m.Keys|
  {
    if m.Keys == {} {
      TotalEmpty(m);
      TotalEmpty(Inside(m, s));
      TotalEmpty(Outside(m, s));
    } else {
      var k :| k in m;
      assert (m - {k}).Keys == m.Keys - {k};
      TotalWithout(m, k);
      SplitWithout(m, s, k);
      TotalSplit(m - {k}, s);
      if k in s { TotalWithout(Inside(m, s), k); } else { TotalWithout(Outside(m, s), k); }
    }
  }
}
