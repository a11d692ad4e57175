/** The `BTreeMap<Equation, V>` that simplify_addition and simplify_multiplication
    collect terms in, as a sequence of (key, value) pairs sorted strictly ascending by
    the derived order `Lt`. Only the operations the simplifier uses are modelled:
    `get`, `insert` and in-order iteration. */
module TermMap {
  import opened Wrappers
  import opened Expressions

  type TermMap<V> = seq<(Equation, V)>

  /** The map's invariant: keys strictly ascending, so iteration is in key order. */
  ghost predicate Sorted<V>(m: TermMap<V>) {
    forall i, j :: 0 <= i < j < |m| ==> Lt(m[i].0, m[j].0)
  }

  function Keys<V>(m: TermMap<V>): set<Equation> {
    set i | 0 <= i < |m| :: m[i].0
  }

  /** `BTreeMap::get`. */
  function Get<V>(m: TermMap<V>, k: Equation): Option<V> {
    if m == [] then None
    else if m[0].0 == k then Some(m[0].1)
    else Get(m[1..], k)
  }

  /** `BTreeMap::insert`: binds k to v, replacing an existing binding, in key order. */
  function Insert<V>(m: TermMap<V>, k: Equation, v: V): TermMap<V> {
    if m == [] then [(k, v)]
    else
      match Cmp(k, m[0].0)
      case Less => [(k, v)] + m
      case Equal => [(k, v)] + m[1..]
      case Greater => [m[0]] + Insert(m[1..], k, v)
  }

  /** A lookup finds a binding exactly when the key is in the map. */
  lemma {:induction false} GetFacts<V>(m: TermMap<V>, k: Equation)
    ensures Get(m, k).Some? <==> k in Keys(m)
    ensures Get(m, k).Some? ==> exists i :: 0 <= i < |m| && m[i] == (k, Get(m, k).value)
  {
    if m != [] {
      KeysCons(m);
      GetFacts(m[1..], k);
      if m[0].0 != k && Get(m, k).Some? {
        var i :| 0 <= i < |m[1..]| && m[1..][i] == (k, Get(m, k).value);
        assert m[i + 1] == (k, Get(m, k).value);
      }
    }
  }

  lemma {:induction false} TailSorted<V>(m: TermMap<V>)
    requires Sorted(m) && m != []
    ensures Sorted(m[1..])
  {
    forall i, j | 0 <= i < j < |m[1..]| ensures Lt(m[1..][i].0, m[1..][j].0) {
      assert m[1..][i] == m[i + 1] && m[1..][j] == m[j + 1];
    }
  }

  /** The map laws of insert: the key set grows by k, k is bound to v, every other
      binding is kept, and the keys stay sorted. */
  lemma {:induction false} InsertFacts<V>(m: TermMap<V>, k: Equation, v: V)
    ensures Keys(Insert(m, k, v)) == Keys(m) + {k}
    ensures Get(Insert(m, k, v), k) == Some(v)
    ensures forall k' :: k' != k ==> Get(Insert(m, k, v), k') == Get(m, k')
    ensures Sorted(m) ==> Sorted(Insert(m, k, v))
  {
    InsertBindings(m, k, v);
    if Sorted(m) {
      InsertSorted(m, k, v);
    }
  }

  lemma {:induction false} InsertBindings<V>(m: TermMap<V>, k: Equation, v: V)
    ensures Keys(Insert(m, k, v)) == Keys(m) + {k}
    ensures Get(Insert(m, k, v), k) == Some(v)
    ensures forall k' :: k' != k ==> Get(Insert(m, k, v), k') == Get(m, k')
  {
    if m == [] {
      assert Keys([(k, v)]) == {k} by { KeysCons([(k, v)]); }
    } else {
      var r := Insert(m, k, v);
      CmpEqual(k, m[0].0);
      KeysCons(r);
      KeysCons(m);
      match Cmp(k, m[0].0)
      case Less =>
        assert r[1..] == m;
      case Equal =>
        assert r[1..] == m[1..];
      case Greater =>
        InsertBindings(m[1..], k, v);
        assert r[1..] == Insert(m[1..], k, v);
    }
  }

  lemma {:induction false} InsertSorted<V>(m: TermMap<V>, k: Equation, v: V)
    requires Sorted(m)
    ensures Sorted(Insert(m, k, v))
  {
    if m != [] {
      var r := Insert(m, k, v);
      CmpEqual(k, m[0].0);
      match Cmp(k, m[0].0)
      case Less =>
        ConsSorted(k, v, m);
      case Equal =>
        assert r[1..] == m[1..];
        forall i, j | 0 <= i < j < |r| ensures Lt(r[i].0, r[j].0) {
          assert r[j] == m[j];
          if i > 0 { assert r[i] == m[i]; }
        }
      case Greater =>
        var rest := Insert(m[1..], k, v);
        TailSorted(m);
        InsertSorted(m[1..], k, v);
        InsertBindings(m[1..], k, v);
        assert r[1..] == rest;
        CmpFlip(k, m[0].0);
        forall i, j | 0 <= i < j < |r| ensures Lt(r[i].0, r[j].0) {
          if i == 0 {
            assert r[j] == rest[j - 1];
            KeysCons(rest);
            assert r[j].0 in Keys(rest) by {
              assert rest[j - 1].0 in Keys(rest);
            }
            if r[j].0 != k {
              HeadIsLeast(m, r[j].0);
            }
          } else {
            assert r[i] == rest[i - 1] && r[j] == rest[j - 1];
          }
        }
    }
  }

  lemma {:induction false} KeysCons<V>(m: TermMap<V>)
    requires m != []
    ensures Keys(m) == {m[0].0} + Keys(m[1..])
  {
    forall x | x in Keys(m) ensures x in {m[0].0} + Keys(m[1..]) {
      var i :| 0 <= i < |m| && m[i].0 == x;
      if i > 0 { assert m[1..][i - 1].0 == x; }
    }
    forall x | x in Keys(m[1..]) ensures x in Keys(m) {
      var i :| 0 <= i < |m[1..]| && m[1..][i].0 == x;
      assert m[i + 1].0 == x;
    }
  }

  lemma {:induction false} ConsSorted<V>(k: Equation, v: V, m: TermMap<V>)
    requires Sorted(m) && m != [] && Lt(k, m[0].0)
    ensures Sorted([(k, v)] + m)
  {
    var r := [(k, v)] + m;
    forall i, j | 0 <= i < j < |r| ensures Lt(r[i].0, r[j].0) {
      if i == 0 && j > 1 {
        CmpTrans(k, m[0].0, m[j - 1].0);
      }
    }
  }

  /** The first key of a sorted map is smaller than every other key. */
  lemma {:induction false} HeadIsLeast<V>(m: TermMap<V>, k: Equation)
    requires Sorted(m) && m != [] && k in Keys(m[1..])
    ensures Lt(m[0].0, k)
  {
    var i :| 0 <= i < |m[1..]| && m[1..][i].0 == k;
    assert m[i + 1].0 == k;
  }

  lemma {:induction false} HeadNotInTail<V>(m: TermMap<V>)
    requires Sorted(m) && m != []
    ensures m[0].0 !in Keys(m[1..])
  {
    if m[0].0 in Keys(m[1..]) {
      HeadIsLeast(m, m[0].0);
      StrictTotalOrder(m[0].0, m[0].0, m[0].0);
    }
  }

  /** A sorted map is determined by its lookups: iteration order is forced. */
  lemma {:induction false} SortedUnique<V>(m1: TermMap<V>, m2: TermMap<V>)
    requires Sorted(m1) && Sorted(m2)
    requires forall k :: Get(m1, k) == Get(m2, k)
    ensures m1 == m2
    decreases |m1|
  {
    if m1 == [] {
      if m2 != [] {
        KeysCons(m2);
        GetFacts(m2, m2[0].0);
      }
    } else if m2 == [] {
      KeysCons(m1);
      GetFacts(m1, m1[0].0);
    } else {
      var a, b := m1[0].0, m2[0].0;
      KeysCons(m1);
      KeysCons(m2);
      GetFacts(m1, b);
      GetFacts(m2, a);
      if a != b {
        HeadIsLeast(m2, a);
        HeadIsLeast(m1, b);
        StrictTotalOrder(a, b, a);
      }
      TailSorted(m1);
      TailSorted(m2);
      HeadNotInTail(m1);
      HeadNotInTail(m2);
      forall k ensures Get(m1[1..], k) == Get(m2[1..], k) {
        GetFacts(m1[1..], k);
        GetFacts(m2[1..], k);
        if k != a {
          assert Get(m1, k) == Get(m1[1..], k);
          assert Get(m2, k) == Get(m2[1..], k);
        }
      }
      SortedUnique(m1[1..], m2[1..]);
      assert Get(m1, a) == Get(m2, a);
      assert m1 == [m1[0]] + m1[1..] && m2 == [m2[0]] + m2[1..];
    }
  }
}
