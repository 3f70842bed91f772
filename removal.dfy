/** Removing eaten sheep at the end of a tick (maincode.py:228-231): the prey
    indices are sorted in descending order and each is deleted from the flock in
    turn. `SortDescending` is `sorted(..., reverse=True)` on those indices;
    `DeleteAll` is the loop of `del` statements, `None` standing for the
    IndexError a `del` past the end raises; `Without` is the flock with a set of
    its positions taken out, the rest kept in order. */
module Removal {

  import opened Framework

  predicate Descending(s: seq<nat>)
  {
    forall p, q :: 0 <= p < q < |s| ==> s[p] >= s[q]
  }

  predicate StrictlyDescending(s: seq<nat>)
  {
    forall p, q :: 0 <= p < q < |s| ==> s[p] > s[q]
  }

  predicate Distinct(s: seq<nat>)
  {
    forall p, q :: 0 <= p < q < |s| ==> s[p] != s[q]
  }

  /** Inserts `x` into a descending list before the first element not above it. */
  function Insert(x: nat, s: seq<nat>): (r: seq<nat>)
    ensures |r| == |s| + 1
    ensures multiset(r) == multiset(s) + multiset{x}
  {
    if s == [] || s[0] <= x then
      [x] + s
    else
      assert s == [s[0]] + s[1..];
      [s[0]] + Insert(x, s[1..])
  }

  lemma {:induction false} InsertKeepsDescending(x: nat, s: seq<nat>)
    requires Descending(s)
    ensures Descending(Insert(x, s))
  {
    if s != [] && s[0] > x {
      InsertKeepsDescending(x, s[1..]);
      var r := Insert(x, s[1..]);
      forall q | 0 <= q < |r| ensures r[q] <= s[0] {
        assert r[q] in multiset(r);
        assert r[q] == x || r[q] in multiset(s[1..]);
      }
    }
  }

  /** `sorted(s, reverse=True)` on a list of indices: the same indices, largest first. */
  function SortDescending(s: seq<nat>): (r: seq<nat>)
    ensures |r| == |s|
    ensures multiset(r) == multiset(s)
    ensures Descending(r)
  {
    if s == [] then
      []
    else
      assert s == [s[0]] + s[1..];
      InsertKeepsDescending(s[0], SortDescending(s[1..]));
      Insert(s[0], SortDescending(s[1..]))
  }

  lemma {:induction false} InsertKeepsDistinct(x: nat, s: seq<nat>)
    requires Distinct(s) && x !in s
    ensures Distinct(Insert(x, s))
  {
    if s != [] && s[0] > x {
      InsertKeepsDistinct(x, s[1..]);
      var r := Insert(x, s[1..]);
      assert s[0] !in s[1..];
      assert s[0] !in multiset(r);
    }
  }

  lemma {:induction false} SortDescendingKeepsDistinct(s: seq<nat>)
    requires Distinct(s)
    ensures Distinct(SortDescending(s))
  {
    if s != [] {
      SortDescendingKeepsDistinct(s[1..]);
      var r := SortDescending(s[1..]);
      assert s[0] !in s[1..];
      assert s[0] !in multiset(r);
      InsertKeepsDistinct(s[0], r);
    }
  }

  /** Sorting distinct indices in descending order gives a strictly
      descending list of the same indices. */
  lemma SortDistinctIsStrict(s: seq<nat>)
    requires Distinct(s)
    ensures StrictlyDescending(SortDescending(s))
    ensures forall v :: v in SortDescending(s) <==> v in s
  {
    SortDescendingKeepsDistinct(s);
    var r := SortDescending(s);
    forall v ensures v in r <==> v in s {
      assert v in r <==> v in multiset(r);
      assert v in s <==> v in multiset(s);
    }
  }

  /** The loop `for k in order: del s[k]`, or `None` once an index is past the
      end of the list. */
  function DeleteAll<T(==)>(s: seq<T>, order: seq<nat>): (r: Option<seq<T>>)
    ensures r.Some? ==> |r.value| + |order| == |s|
    ensures r.Some? ==> forall e :: e in r.value ==> e in s
    decreases order
  {
    if order == [] then
      Some(s)
    else if order[0] < |s| then
      var t := s[..order[0]] + s[order[0] + 1..];
      assert forall e :: e in t ==> e in s;
      DeleteAll(t, order[1..])
    else
      None
  }

  /** `s` with the elements at the positions in `gone` taken out, the others
      kept in their original order. */
  function Without<T>(s: seq<T>, gone: set<nat>): seq<T>
  {
    if s == [] then
      []
    else
      Without(s[..|s| - 1], gone) + (if |s| - 1 in gone then [] else [s[|s| - 1]])
  }

  /** Positions at or past the end of the list do not matter. */
  lemma {:induction false} WithoutIgnoresPastEnd<T>(s: seq<T>, gone: set<nat>, k: nat)
    requires k >= |s|
    ensures Without(s, gone + {k}) == Without(s, gone)
  {
    if s != [] {
      WithoutIgnoresPastEnd(s[..|s| - 1], gone, k);
    }
  }

  /** When every removed position is below `m`, everything from `m` on is kept. */
  lemma {:induction false} WithoutKeepsSuffix<T>(s: seq<T>, gone: set<nat>, m: nat)
    requires m <= |s|
    requires forall d :: d in gone ==> d < m
    ensures Without(s, gone) == Without(s[..m], gone) + s[m..]
  {
    if |s| > m {
      var n := |s| - 1;
      WithoutKeepsSuffix(s[..n], gone, m);
      assert s[..n][..m] == s[..m];
      assert s[..n][m..] + [s[n]] == s[m..];
    } else {
      assert s[..m] == s;
    }
  }

  /** Deleting position `k` of `s`, then the positions `gone` (all below `k`),
      is taking `gone` and `k` out of `s` at once. */
  lemma DeleteThenWithout<T>(s: seq<T>, k: nat, gone: set<nat>)
    requires k < |s|
    requires forall d :: d in gone ==> d < k
    ensures Without(s[..k] + s[k + 1..], gone) == Without(s, gone + {k})
  {
    var t := s[..k] + s[k + 1..];
    WithoutKeepsSuffix(t, gone, k);
    assert t[..k] == s[..k] && t[k..] == s[k + 1..];
    WithoutKeepsSuffix(s, gone + {k}, k + 1);
    assert s[..k + 1][..k] == s[..k];
    WithoutIgnoresPastEnd(s[..k], gone, k);
  }

  function Elements(s: seq<nat>): set<nat>
  {
    set v | v in s
  }

  /** Deleting distinct in-range indices largest first removes exactly the
      elements at those indices and keeps the rest in their original order. */
  lemma {:induction false} DeleteDescendingRemovesExactly<T>(s: seq<T>, order: seq<nat>)
    requires StrictlyDescending(order)
    requires forall t :: 0 <= t < |order| ==> order[t] < |s|
    ensures DeleteAll(s, order) == Some(Without(s, Elements(order)))
  {
    if order != [] {
      var k := order[0];
      var rest := order[1..];
      var t := s[..k] + s[k + 1..];
      assert forall d :: d in Elements(rest) ==> d < k;
      DeleteDescendingRemovesExactly(t, rest);
      DeleteThenWithout(s, k, Elements(rest));
      assert Elements(order) == Elements(rest) + {k};
    } else {
      assert Elements(order) == {};
      WithoutEmpty(s);
    }
  }

  /** The removal step on distinct in-range indices: sorting them largest first
      and deleting in that order takes out exactly those positions. */
  lemma DeleteDistinctIndices<T>(s: seq<T>, indices: seq<nat>)
    requires Distinct(indices)
    requires forall t :: 0 <= t < |indices| ==> indices[t] < |s|
    ensures DeleteAll(s, SortDescending(indices)) == Some(Without(s, Elements(indices)))
  {
    var order := SortDescending(indices);
    SortDistinctIsStrict(indices);
    forall t | 0 <= t < |order|
      ensures order[t] < |s|
    {
      assert order[t] in indices;
    }
    DeleteDescendingRemovesExactly(s, order);
    assert Elements(order) == Elements(indices);
  }

  lemma {:induction false} WithoutEmpty<T>(s: seq<T>)
    ensures Without(s, {}) == s
  {
    if s != [] {
      WithoutEmpty(s[..|s| - 1]);
    }
  }

  /** A repeated index is not skipped: the second `del` removes the element that
      shifted into that slot. */
  lemma RepeatedIndexRemovesNeighbour<T>(s: seq<T>, k: nat)
    requires k + 1 < |s|
    ensures DeleteAll(s, [k, k]) == Some(s[..k] + s[k + 2..])
  {
    var t := s[..k] + s[k + 1..];
    var u := t[..k] + t[k + 1..];
    assert [k, k][1..] == [k] && [k][1..] == [];
    assert DeleteAll(s, [k, k]) == DeleteAll(t, [k]);
    assert DeleteAll(t, [k]) == DeleteAll(u, []);
    assert u == s[..k] + s[k + 2..];
  }

  /** A repeated index that names the last element fails on its second `del`. */
  lemma RepeatedLastIndexFails<T>(s: seq<T>, k: nat)
    requires k + 1 == |s|
    ensures DeleteAll(s, [k, k]) == None
  {
  }
}
