// Facts about finite sets and maps that several components count with.
module Collections {

  lemma Member<T>(s: set<T>) returns (x: T)
    requires s != {}
    ensures x in s
  {
    x :| x in s;
  }

  lemma KeyOf<K, V>(m: map<K, V>, v: V) returns (k: K)
    requires v in m.Values
    ensures k in m && m[k] == v
  {
    k :| k in m && m[k] == v;
  }

  lemma SubsetCount<T>(a: set<T>, b: set<T>)
    requires a <= b
    ensures |a| <= |b|
    ensures |a| == |b| ==> a == b
  {
    assert b == a + (b - a);
  }

  /** Taking one key out of an injective map takes exactly its value out. */
  lemma ValuesWithout(m: map<int, int>, k: int)
    requires k in m
    requires forall a, b :: a in m && b in m && m[a] == m[b] ==> a == b
    ensures m.Values == (m - {k}).Values + {m[k]} && m[k] !in (m - {k}).Values
  {
    var rest := m - {k};
    forall v | v in m.Values
      ensures v in rest.Values || v == m[k]
    {
      var key := KeyOf(m, v);
      assert key == k || rest[key] == v;
    }
    forall v | v in rest.Values
      ensures v in m.Values && v != m[k]
    {
      var key := KeyOf(rest, v);
      assert m[key] == v;
    }
  }

  lemma {:induction false} InjectiveValueCount(m: map<int, int>)
    requires forall a, b :: a in m && b in m && m[a] == m[b] ==> a == b
    ensures |m.Values| == |m|
    decreases |m|
  {
    if m.Keys == {} {
      assert m.Values == {};
    } else {
      var k := Member(m.Keys);
      var rest := m - {k};
      InjectiveValueCount(rest);
      ValuesWithout(m, k);
      assert m.Keys == rest.Keys + {k};
    }
  }

  ghost function UpTo(n: nat): (all: set<int>)
    ensures |all| == n
    ensures forall i :: i in all <==> 0 <= i < n
  {
    if n == 0 then {} else UpTo(n - 1) + {n - 1}
  }

  /** An injective table into 0..n is full exactly when every one of the n places is taken. */
  lemma FullTable(m: map<int, int>, n: nat)
    requires forall a, b :: a in m && b in m && m[a] == m[b] ==> a == b
    requires forall k :: k in m ==> 0 <= m[k] < n
    ensures |m| <= n
    ensures |m| == n <==> forall i :: 0 <= i < n ==> i in m.Values
  {
    var all := UpTo(n);
    InjectiveValueCount(m);
    forall v | v in m.Values ensures v in all {
      var k := KeyOf(m, v);
    }
    SubsetCount(m.Values, all);
    if forall i :: 0 <= i < n ==> i in m.Values {
      SubsetCount(all, m.Values);
    }
  }
}
