/** Finite maps whose values are pairwise distinct. */
module Mapas {

  /** Each value of a map is stored under some key. */
  lemma ChaveDe<K, V>(m: map<K, V>, v: V) returns (k: K)
    requires v in m.Values
    ensures k in m && m[k] == v
  {
    k :| k in m && m[k] == v;
  }

  /** A map that gives distinct keys distinct values has as many values as keys. */
  lemma {:induction false} ValoresInjetivos<K, V>(m: map<K, V>)
    requires forall i, j :: i in m && j in m && m[i] == m[j] ==> i == j
    ensures |m.Values| == |m|
    decreases |m|
  {
    if |m| > 0 {
      assert m.Keys != {};
      var k :| k in m.Keys;
      var r := m - {k};
      forall v | v in m.Values ensures v in r.Values + {m[k]} {
        var j :| j in m && m[j] == v;
        if j != k { assert j in r; }
      }
      assert m.Values == r.Values + {m[k]};
      assert m[k] !in r.Values;
      assert m.Keys == r.Keys + {k};
      ValoresInjetivos(r);
    }
  }
}
