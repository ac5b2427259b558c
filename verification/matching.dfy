/**
 * The greedy nearest-neighbour association of the centroid tracker.
 * Rows are the existing identities (in creation order), columns the new
 * centroids (in input order). Each row proposes its own nearest column; rows
 * are visited in ascending order of their minimum distance, and a proposal is
 * accepted when neither side is taken and the pair is within the radius.
 */
module Matching {
  import opened Basics
  import opened Geometry

  /** `order` lists each of `0 .. n-1` exactly once. */
  predicate IsPermutation(order: seq<nat>, n: nat) {
    && |order| == n
    && (forall k :: 0 <= k < |order| ==> order[k] < n)
    && Distinct(order)
    && (forall i :: 0 <= i < n ==> i in order)
  }

  /**
   * The column nearest to `p`, ties going to the first index (NumPy's
   * `argmin` along one row of the distance matrix).
   */
  function ArgMin(p: Point, cols: seq<Point>): (k: nat)
    requires |cols| > 0
    ensures k < |cols|
    ensures forall j :: 0 <= j < |cols| ==> Dist2(p, cols[k]) <= Dist2(p, cols[j])
    ensures forall j :: 0 <= j < k ==> Dist2(p, cols[k]) < Dist2(p, cols[j])
  {
    if |cols| == 1 then 0
    else
      var k := ArgMin(p, cols[..|cols| - 1]);
      if Dist2(p, cols[|cols| - 1]) < Dist2(p, cols[k]) then |cols| - 1 else k
  }

  /** Each row's nearest column. */
  function Nearest(rows: seq<Point>, cols: seq<Point>): (r: seq<nat>)
    requires |cols| > 0
    ensures |r| == |rows|
    ensures forall i :: 0 <= i < |rows| ==> r[i] == ArgMin(rows[i], cols)
  {
    seq(|rows|, i requires 0 <= i < |rows| => ArgMin(rows[i], cols))
  }

  /**
   * Each row's minimum squared distance: the sort key for the row order.
   * Sorting on squared distances orders rows as sorting on distances does.
   */
  function RowKeys(rows: seq<Point>, cols: seq<Point>): (key: seq<int>)
    requires |cols| > 0
    ensures |key| == |rows|
    ensures forall i :: 0 <= i < |rows| ==> key[i] == Dist2(rows[i], cols[ArgMin(rows[i], cols)])
    ensures forall i, j :: 0 <= i < |rows| && 0 <= j < |cols| ==> key[i] <= Dist2(rows[i], cols[j])
  {
    seq(|rows|, i requires 0 <= i < |rows| => Dist2(rows[i], cols[ArgMin(rows[i], cols)]))
  }

  /** `order` visits rows by non-decreasing key. */
  predicate SortedBy(order: seq<nat>, key: seq<int>)
    requires forall k :: 0 <= k < |order| ==> order[k] < |key|
  {
    forall p, q :: 0 <= p < q < |order| ==> key[order[p]] <= key[order[q]]
  }

  /**
   * A row order the source's `argsort` of the row minima can produce: every
   * row once, ascending by key. The order among equal keys is left open.
   */
  predicate IsRowOrder(order: seq<nat>, key: seq<int>) {
    IsPermutation(order, |key|) && SortedBy(order, key)
  }

  /** Inserts `x` into a key-sorted sequence, after every entry with a key not above its own. */
  function InsertByKey(s: seq<nat>, x: nat, key: seq<int>): (r: seq<nat>)
    requires x < |key| && forall k :: 0 <= k < |s| ==> s[k] < |key|
    requires SortedBy(s, key)
    ensures |r| == |s| + 1
    ensures forall v :: v in r <==> v in s || v == x
    ensures forall k :: 0 <= k < |r| ==> r[k] < |key|
    ensures SortedBy(r, key)
  {
    if s == [] then [x]
    else if key[x] < key[s[0]] then [x] + s
    else
      var rest := InsertByKey(s[1..], x, key);
      assert forall k :: 0 <= k < |rest| ==> key[s[0]] <= key[rest[k]] by {
        forall k | 0 <= k < |rest| ensures key[s[0]] <= key[rest[k]] {
          assert rest[k] in rest;
          if rest[k] != x {
            var j :| 0 <= j < |s[1..]| && s[1..][j] == rest[k];
            assert s[j + 1] == rest[k];
          }
        }
      }
      [s[0]] + rest
  }

  /** Inserting a new value into a duplicate-free sequence keeps it duplicate-free. */
  lemma {:induction false} InsertKeepsDistinct(s: seq<nat>, x: nat, key: seq<int>)
    requires x < |key| && forall k :: 0 <= k < |s| ==> s[k] < |key|
    requires SortedBy(s, key)
    requires Distinct(s) && x !in s
    ensures Distinct(InsertByKey(s, x, key))
  {
    if s != [] && key[s[0]] <= key[x] {
      assert Distinct(s[1..]);
      InsertKeepsDistinct(s[1..], x, key);
      var rest := InsertByKey(s[1..], x, key);
      assert s[0] !in s[1..];
      var r := [s[0]] + rest;
      forall p, q | 0 <= p < q < |r| ensures r[p] != r[q] {
        assert r[q] == rest[q - 1];
        if p > 0 {
          assert r[p] == rest[p - 1];
        } else {
          assert r[q] in rest;
        }
      }
    } else if s != [] {
      var r := [x] + s;
      forall p, q | 0 <= p < q < |r| ensures r[p] != r[q] {
        assert r[q] == s[q - 1];
        if p > 0 {
          assert r[p] == s[p - 1];
        }
      }
    }
  }

  /** Insertion sort of the rows `0 .. n-1` by key. */
  function SortRows(key: seq<int>, n: nat): (r: seq<nat>)
    requires n <= |key|
    ensures |r| == n
    ensures forall k :: 0 <= k < |r| ==> r[k] < n
    ensures forall i :: 0 <= i < n ==> i in r
    ensures Distinct(r)
    ensures SortedBy(r, key)
  {
    if n == 0 then []
    else
      var s := SortRows(key, n - 1);
      assert n - 1 !in s;
      InsertKeepsDistinct(s, n - 1, key);
      var r := InsertByKey(s, n - 1, key);
      assert forall k :: 0 <= k < |r| ==> r[k] < n by {
        forall k | 0 <= k < |r| ensures r[k] < n {
          assert r[k] in r;
        }
      }
      r
  }

  /** One admissible result of the source's row `argsort`. */
  function RowOrder(key: seq<int>): (r: seq<nat>)
    ensures IsRowOrder(r, key)
  {
    SortRows(key, |key|)
  }

  /** In a row order, a row with a strictly smaller key is visited strictly earlier. */
  lemma SmallerKeyFirst(order: seq<nat>, key: seq<int>, i: nat, j: nat) returns (p: nat, q: nat)
    requires IsRowOrder(order, key) && i < |key| && j < |key| && key[i] < key[j]
    ensures p < q < |order| && order[p] == i && order[q] == j
  {
    assert i in order && j in order;
    p :| 0 <= p < |order| && order[p] == i;
    q :| 0 <= q < |order| && order[q] == j;
    if q <= p {
      assert false;
    }
  }

  /** A partial matching never uses a column twice. */
  predicate Injective(a: seq<Option<nat>>) {
    forall p, q :: 0 <= p < q < |a| && a[p].Some? ==> a[p] != a[q]
  }

  /** Every bound row is bound to its own nearest column, and that pair is within the radius. */
  predicate Sound(a: seq<Option<nat>>, nearest: seq<nat>, near: seq<bool>)
    requires |a| == |nearest| == |near|
  {
    forall i :: 0 <= i < |a| && a[i].Some? ==> a[i].value == nearest[i] && near[i]
  }

  /**
   * A row needs no further look: it is bound, its proposal is too far, or the
   * column it proposes is already taken.
   */
  predicate Settled(a: seq<Option<nat>>, i: nat, nearest: seq<nat>, near: seq<bool>)
    requires i < |a| == |nearest| == |near|
  {
    a[i].Some? || !near[i] || Some(nearest[i]) in a
  }

  /**
   * The greedy walk: rows in `order`, each proposing `nearest[row]`; the pair
   * is skipped when the row or the column is already used or the distance is
   * too large (`near[row]` false), and bound otherwise.
   */
  function Walk(order: seq<nat>, nearest: seq<nat>, near: seq<bool>, a: seq<Option<nat>>): (r: seq<Option<nat>>)
    requires |a| == |nearest| == |near|
    requires forall k :: 0 <= k < |order| ==> order[k] < |a|
    ensures |r| == |a|
    ensures forall i :: 0 <= i < |a| && a[i].Some? ==> r[i] == a[i]
    ensures Sound(a, nearest, near) ==> Sound(r, nearest, near)
    ensures Injective(a) ==> Injective(r)
    decreases |order|
  {
    if order == [] then a
    else
      var row := order[0];
      var col := nearest[row];
      var a' := if a[row].Some? || Some(col) in a || !near[row] then a else a[row := Some(col)];
      Walk(order[1..], nearest, near, a')
  }

  /** Whether each row's own proposal is within the radius. */
  function Gate(rows: seq<Point>, cols: seq<Point>, nearest: seq<nat>, maxDistance: real): (near: seq<bool>)
    requires |nearest| == |rows|
    requires forall i :: 0 <= i < |rows| ==> nearest[i] < |cols|
    ensures |near| == |rows|
    ensures forall i :: 0 <= i < |rows| ==> (near[i] <==> Within(Dist2(rows[i], cols[nearest[i]]), maxDistance))
  {
    seq(|rows|, i requires 0 <= i < |rows| => Within(Dist2(rows[i], cols[nearest[i]]), maxDistance))
  }

  /** Walking a permutation of the rows settles every row. */
  lemma WalkSettlesAll(order: seq<nat>, nearest: seq<nat>, near: seq<bool>, a: seq<Option<nat>>)
    requires |a| == |nearest| == |near|
    requires IsPermutation(order, |a|)
    ensures forall i :: 0 <= i < |a| ==> Settled(Walk(order, nearest, near, a), i, nearest, near)
  {
    var r := Walk(order, nearest, near, a);
    forall i | 0 <= i < |a| ensures Settled(r, i, nearest, near) {
      assert i in order;
      var k :| 0 <= k < |order| && order[k] == i;
      WalkSettled(order, nearest, near, a, k);
    }
  }

  /**
   * The whole association: rows proposed in `order`, starting from no binding.
   * The result gives, per row, the column it is bound to.
   */
  function Greedy(rows: seq<Point>, cols: seq<Point>, order: seq<nat>, maxDistance: real): (a: seq<Option<nat>>)
    requires |cols| > 0
    requires IsPermutation(order, |rows|)
    ensures |a| == |rows|
    ensures Injective(a)
    ensures forall i :: 0 <= i < |a| && a[i].Some? ==>
      a[i].value == ArgMin(rows[i], cols) && Within(Dist2(rows[i], cols[a[i].value]), maxDistance)
    ensures forall i :: 0 <= i < |a| ==>
      a[i].Some? || !Within(Dist2(rows[i], cols[ArgMin(rows[i], cols)]), maxDistance)
      || Some(ArgMin(rows[i], cols)) in a
  {
    var nearest := Nearest(rows, cols);
    var near := Gate(rows, cols, nearest, maxDistance);
    var none := Unassigned(|rows|);
    assert Sound(none, nearest, near) && Injective(none);
    WalkSettlesAll(order, nearest, near, none);
    var a := Walk(order, nearest, near, none);
    assert Sound(a, nearest, near);
    assert forall i :: 0 <= i < |a| && a[i].Some? ==>
      a[i].value == ArgMin(rows[i], cols) && Within(Dist2(rows[i], cols[a[i].value]), maxDistance) by {
      forall i | 0 <= i < |a| && a[i].Some?
        ensures a[i].value == ArgMin(rows[i], cols) && Within(Dist2(rows[i], cols[a[i].value]), maxDistance)
      {
        assert a[i].value == nearest[i] && near[i];
      }
    }
    assert forall i :: 0 <= i < |a| ==>
      a[i].Some? || !Within(Dist2(rows[i], cols[ArgMin(rows[i], cols)]), maxDistance)
      || Some(ArgMin(rows[i], cols)) in a by {
      forall i | 0 <= i < |a|
        ensures a[i].Some? || !Within(Dist2(rows[i], cols[ArgMin(rows[i], cols)]), maxDistance)
                || Some(ArgMin(rows[i], cols)) in a
      {
        assert Settled(a, i, nearest, near);
      }
    }
    a
  }

  /** No row bound yet. */
  function Unassigned(n: nat): (a: seq<Option<nat>>)
    ensures |a| == n
    ensures forall i :: 0 <= i < n ==> a[i].None?
  {
    if n == 0 then [] else [None] + Unassigned(n - 1)
  }

  /**
   * One step of the walk: `row` proposes `col`, and is bound to it unless
   * the row is already bound, the column is taken, or the pair is too far.
   */
  function Propose(a: seq<Option<nat>>, row: nat, col: nat, near: bool): (r: seq<Option<nat>>)
    requires row < |a|
    ensures |r| == |a|
    ensures forall j :: 0 <= j < |a| && (j != row || a[j].Some?) ==> r[j] == a[j]
    ensures forall c :: Some(c) in a ==> Some(c) in r
    ensures near && a[row].None? ==> Some(col) in r
  {
    if a[row].Some? || Some(col) in a || !near then a
    else
      var r := a[row := Some(col)];
      assert r[row] == Some(col);
      r
  }

  /** A step leaves every row but its own as it was. */
  lemma ProposeElsewhere(a: seq<Option<nat>>, row: nat, col: nat, near: bool, j: nat)
    requires row < |a| && j < |a| && j != row
    ensures Propose(a, row, col, near)[j] == a[j]
  {
  }

  /** The walk is its first step followed by the walk over the remaining rows. */
  lemma WalkUnfold(order: seq<nat>, nearest: seq<nat>, near: seq<bool>, a: seq<Option<nat>>)
    requires |a| == |nearest| == |near| && |order| > 0
    requires forall k :: 0 <= k < |order| ==> order[k] < |a|
    ensures Walk(order, nearest, near, a)
      == Walk(order[1..], nearest, near, Propose(a, order[0], nearest[order[0]], near[order[0]]))
  {
  }

  /**
   * After the walk, every visited row is bound, too far from its proposed
   * column, or wanting a column some row holds.
   */
  lemma {:induction false} WalkSettled(order: seq<nat>, nearest: seq<nat>, near: seq<bool>, a: seq<Option<nat>>, k: nat)
    requires |a| == |nearest| == |near| && k < |order|
    requires forall m :: 0 <= m < |order| ==> order[m] < |a|
    ensures Settled(Walk(order, nearest, near, a), order[k], nearest, near)
    decreases |order|
  {
    var row := order[0];
    var a' := Propose(a, row, nearest[row], near[row]);
    if k == 0 {
      assert Settled(a', row, nearest, near);
      SettledStays(order[1..], nearest, near, a', row);
    } else {
      assert order[1..][k - 1] == order[k];
      WalkSettled(order[1..], nearest, near, a', k - 1);
    }
    WalkUnfold(order, nearest, near, a);
  }

  /** The walk only adds bindings, so a settled row stays settled. */
  lemma SettledStays(order: seq<nat>, nearest: seq<nat>, near: seq<bool>, a: seq<Option<nat>>, i: nat)
    requires |a| == |nearest| == |near| && i < |a|
    requires forall m :: 0 <= m < |order| ==> order[m] < |a|
    requires Settled(a, i, nearest, near)
    ensures Settled(Walk(order, nearest, near, a), i, nearest, near)
  {
    var r := Walk(order, nearest, near, a);
    if a[i].Some? {
      assert r[i] == a[i];
    } else if near[i] {
      var j :| 0 <= j < |a| && a[j] == Some(nearest[i]);
      assert r[j] == Some(nearest[i]);
    }
  }

  /** A row the walk never visits keeps its binding. */
  lemma {:induction false} WalkUntouched(order: seq<nat>, nearest: seq<nat>, near: seq<bool>, a: seq<Option<nat>>, i: nat)
    requires |a| == |nearest| == |near| && i < |a| && i !in order
    requires forall k :: 0 <= k < |order| ==> order[k] < |a|
    ensures Walk(order, nearest, near, a)[i] == a[i]
    decreases |order|
  {
    if order != [] {
      var a' := Propose(a, order[0], nearest[order[0]], near[order[0]]);
      WalkUnfold(order, nearest, near, a);
      assert order == [order[0]] + order[1..];
      WalkUntouched(order[1..], nearest, near, a', i);
    }
  }

  /** Dropping the first row of a duplicate-free order shifts every later row down by one. */
  lemma TailIndex(order: seq<nat>, k: nat)
    requires Distinct(order) && 0 < k < |order|
    ensures Distinct(order[1..]) && order[1..][k - 1] == order[k] && order[k] != order[0]
  {
    DistinctTail(order);
    assert order[1..][k - 1] == order[k];
  }

  /** A row still unbound when its proposed column is already taken ends unbound. */
  lemma {:induction false} WalkBlocked(order: seq<nat>, nearest: seq<nat>, near: seq<bool>, a: seq<Option<nat>>, k: nat)
    requires |a| == |nearest| == |near| && Distinct(order) && k < |order|
    requires forall m :: 0 <= m < |order| ==> order[m] < |a|
    requires a[order[k]].None? && Some(nearest[order[k]]) in a
    ensures Walk(order, nearest, near, a)[order[k]].None?
    decreases |order|
  {
    var a' := Propose(a, order[0], nearest[order[0]], near[order[0]]);
    WalkUnfold(order, nearest, near, a);
    if k == 0 {
      DistinctTail(order);
      WalkUntouched(order[1..], nearest, near, a', order[0]);
    } else {
      TailIndex(order, k);
      WalkBlocked(order[1..], nearest, near, a', k - 1);
    }
  }

  /**
   * Priority: when two unbound rows propose the same column and the earlier
   * one in `order` is within the radius, the later one ends unbound, whoever
   * takes the column.
   */
  lemma {:induction false} WalkLaterLoses(order: seq<nat>, nearest: seq<nat>, near: seq<bool>, a: seq<Option<nat>>,
                                          p: nat, q: nat)
    requires |a| == |nearest| == |near| && Distinct(order)
    requires forall k :: 0 <= k < |order| ==> order[k] < |a|
    requires p < q < |order| && a[order[p]].None? && a[order[q]].None?
    requires nearest[order[p]] == nearest[order[q]] && near[order[p]]
    ensures Walk(order, nearest, near, a)[order[q]].None?
    decreases |order|
  {
    if Some(nearest[order[q]]) in a {
      WalkBlocked(order, nearest, near, a, q);
    } else {
      var a' := Propose(a, order[0], nearest[order[0]], near[order[0]]);
      var rest := order[1..];
      assert Distinct(rest) && rest[q - 1] == order[q] && order[q] != order[0] by {
        TailIndex(order, q);
      }
      if p == 0 {
        WalkBlocked(rest, nearest, near, a', q - 1);
      } else {
        assert rest[p - 1] == order[p] && a'[order[p]].None? && a'[order[q]].None? by {
          TailIndex(order, p);
          ProposeElsewhere(a, order[0], nearest[order[0]], near[order[0]], order[p]);
          ProposeElsewhere(a, order[0], nearest[order[0]], near[order[0]], order[q]);
        }
        WalkLaterLoses(rest, nearest, near, a', p - 1, q - 1);
      }
      WalkUnfold(order, nearest, near, a);
    }
  }

  /**
   * Closest first, on the whole association: of two rows proposing the same
   * column, the later one in `order` is left unbound when the earlier one is
   * within the radius.
   */
  lemma GreedyLaterLoses(rows: seq<Point>, cols: seq<Point>, order: seq<nat>, maxDistance: real, p: nat, q: nat)
    requires |cols| > 0 && IsPermutation(order, |rows|)
    requires p < q < |order|
    requires ArgMin(rows[order[p]], cols) == ArgMin(rows[order[q]], cols)
    requires Within(Dist2(rows[order[p]], cols[ArgMin(rows[order[p]], cols)]), maxDistance)
    ensures Greedy(rows, cols, order, maxDistance)[order[q]].None?
  {
    var nearest := Nearest(rows, cols);
    var near := Gate(rows, cols, nearest, maxDistance);
    var none := Unassigned(|rows|);
    assert Greedy(rows, cols, order, maxDistance) == Walk(order, nearest, near, none);
    WalkLaterLoses(order, nearest, near, none, p, q);
  }

  /**
   * Which row gets a column: the row at position `p` of `order` is bound to
   * its nearest column exactly when that pair is within the radius and no
   * earlier row in `order` proposes the same column within the radius.
   */
  lemma GreedyPriority(rows: seq<Point>, cols: seq<Point>, order: seq<nat>, maxDistance: real, p: nat)
    requires |cols| > 0 && IsPermutation(order, |rows|) && p < |order|
    ensures var c := ArgMin(rows[order[p]], cols);
      Greedy(rows, cols, order, maxDistance)[order[p]] == Some(c)
      <==> Within(Dist2(rows[order[p]], cols[c]), maxDistance)
           && forall e :: 0 <= e < p ==>
                !(ArgMin(rows[order[e]], cols) == c && Within(Dist2(rows[order[e]], cols[c]), maxDistance))
  {
    var a := Greedy(rows, cols, order, maxDistance);
    var i := order[p];
    var c := ArgMin(rows[i], cols);
    if a[i] == Some(c) {
      forall e | 0 <= e < p
        ensures !(ArgMin(rows[order[e]], cols) == c && Within(Dist2(rows[order[e]], cols[c]), maxDistance))
      {
        if ArgMin(rows[order[e]], cols) == c && Within(Dist2(rows[order[e]], cols[c]), maxDistance) {
          GreedyLaterLoses(rows, cols, order, maxDistance, e, p);
          assert false;
        }
      }
    } else if Within(Dist2(rows[i], cols[c]), maxDistance) {
      var e := GreedyBlocker(rows, cols, order, maxDistance, p);
    }
  }

  /** A row left unbound though within the radius lost its column to an earlier row in `order`. */
  lemma GreedyBlocker(rows: seq<Point>, cols: seq<Point>, order: seq<nat>, maxDistance: real, p: nat) returns (e: nat)
    requires |cols| > 0 && IsPermutation(order, |rows|) && p < |order|
    requires Greedy(rows, cols, order, maxDistance)[order[p]].None?
    requires Within(Dist2(rows[order[p]], cols[ArgMin(rows[order[p]], cols)]), maxDistance)
    ensures e < p && ArgMin(rows[order[e]], cols) == ArgMin(rows[order[p]], cols)
    ensures Within(Dist2(rows[order[e]], cols[ArgMin(rows[order[p]], cols)]), maxDistance)
  {
    var a := Greedy(rows, cols, order, maxDistance);
    var c := ArgMin(rows[order[p]], cols);
    assert Some(c) in a;
    var j :| 0 <= j < |a| && a[j] == Some(c);
    assert j in order;
    e :| 0 <= e < |order| && order[e] == j;
    if e > p {
      GreedyLaterLoses(rows, cols, order, maxDistance, p, e);
      assert false;
    }
  }

  /** The columns of `order` that no row is bound to, in the order `order` lists them. */
  function Unused(order: seq<nat>, a: seq<Option<nat>>): (r: seq<nat>)
    ensures forall j :: j in r <==> j in order && Some(j) !in a
    ensures |r| <= |order|
  {
    if order == [] then []
    else if Some(order[0]) in a then Unused(order[1..], a)
    else [order[0]] + Unused(order[1..], a)
  }

  /** Filtering a duplicate-free sequence keeps it duplicate-free. */
  lemma {:induction false} UnusedKeepsDistinct(order: seq<nat>, a: seq<Option<nat>>)
    requires Distinct(order)
    ensures Distinct(Unused(order, a))
  {
    if order != [] {
      assert Distinct(order[1..]);
      UnusedKeepsDistinct(order[1..], a);
      var rest := Unused(order[1..], a);
      assert order[0] !in order[1..];
      if Some(order[0]) !in a {
        var r := [order[0]] + rest;
        forall p, q | 0 <= p < q < |r| ensures r[p] != r[q] {
          assert r[q] == rest[q - 1];
          if p > 0 {
            assert r[p] == rest[p - 1];
          } else {
            assert r[q] in rest;
          }
        }
      }
    }
  }
}
