/**
 * `update_task_order` (app.py): the task at position i of the submitted id
 * list gets display order i. When an id is unknown the route answers 404;
 * the model then keeps no order change, the all-or-nothing behaviour the
 * route's nested transaction is meant to give.
 */
module Reorder {
  import opened Wrappers
  import opened Dates
  import opened Models
  import opened Lifecycle
  import opened Listing

  /** The last position of `x` in `s`, or -1 when `x` does not occur. */
  function LastIndex(s: seq<int>, x: int): (k: int)
    ensures -1 <= k < |s|
    ensures k == -1 <==> x !in s
    ensures k >= 0 ==> s[k] == x && forall j :: k < j < |s| ==> s[j] != x
  {
    if s == [] then -1
    else if s[|s| - 1] == x then |s| - 1
    else LastIndex(s[..|s| - 1], x)
  }

  /** Every listed id names a task. */
  predicate AllKnown(m: map<int, Task>, ids: seq<int>) {
    forall k :: 0 <= k < |ids| ==> ids[k] in m
  }

  predicate Distinct(ids: seq<int>) {
    forall i, j :: 0 <= i < j < |ids| ==> ids[i] != ids[j]
  }

  /**
   * The table after the loop of `update_task_order` went through all of
   * `ids`: a listed task's order is the position where the loop saw it last;
   * an unlisted task is untouched. No row appears or disappears and only
   * display order and update time change.
   */
  function Reordered(m: map<int, Task>, ids: seq<int>, now: DateTime): (r: map<int, Task>)
    ensures r.Keys == m.Keys
    ensures forall id :: id in m && id !in ids ==> r[id] == m[id]
    ensures forall id :: id in m ==> SameEntry(m[id], r[id]) && r[id].status == m[id].status
    ensures forall id :: id in m && Consistent(m[id]) ==> Consistent(r[id])
  {
    map id | id in m :: if id in ids then Place(m[id], LastIndex(ids, id), now) else m[id]
  }

  /** One more loop iteration: the next id takes the next position. */
  lemma ReorderedSnoc(m: map<int, Task>, ids: seq<int>, x: int, now: DateTime)
    requires x in m
    ensures var before := Reordered(m, ids, now);
      Reordered(m, ids + [x], now) == before[x := Place(before[x], |ids|, now)]
  {
    var before, after := Reordered(m, ids, now), Reordered(m, ids + [x], now);
    assert (ids + [x])[..|ids|] == ids;
    forall id | id in m
      ensures after[id] == before[x := Place(before[x], |ids|, now)][id]
    {
      if id != x {
        assert id in ids + [x] <==> id in ids;
      }
    }
  }

  /** A prefix one longer is the prefix and the next element. */
  lemma PrefixSnoc(s: seq<int>, i: int)
    requires 0 <= i < |s|
    ensures s[..i + 1] == s[..i] + [s[i]]
  {
  }

  /** Without repeated ids, the task at position k of the list gets order k. */
  lemma ReorderedPositions(m: map<int, Task>, ids: seq<int>, now: DateTime)
    requires AllKnown(m, ids) && Distinct(ids)
    ensures forall k :: 0 <= k < |ids| ==> Reordered(m, ids, now)[ids[k]].displayOrder == k
  {
    forall k | 0 <= k < |ids|
      ensures Reordered(m, ids, now)[ids[k]].displayOrder == k
    {
      var last := LastIndex(ids, ids[k]);
      assert ids[k] in ids;
      assert last == k;
    }
  }

  /**
   * Integers that strictly increase, stay in [0, n) and cover every value
   * of [0, n) are exactly 0, 1, ..., n - 1.
   */
  lemma {:induction false} CoveringRun(d: seq<int>, n: int, p: int)
    requires forall i, j :: 0 <= i < j < |d| ==> d[i] < d[j]
    requires forall i :: 0 <= i < |d| ==> 0 <= d[i] < n
    requires forall k :: 0 <= k < n ==> k in d
    requires 0 <= p <= |d|
    ensures forall q :: 0 <= q < p ==> d[q] == q
    decreases p
  {
    if p > 0 {
      CoveringRun(d, n, p - 1);
      var q := p - 1;
      // d[q] >= q: d[q] is above the q values before it, which are 0 .. q - 1.
      if q > 0 { assert d[q - 1] == q - 1 && d[q - 1] < d[q]; }
      // and d[q] <= q: the value q occurs at some index w, which is not below q.
      assert q <= d[q] < n;
      assert q in d;
      var w :| 0 <= w < |d| && d[w] == q;
    }
  }

  lemma CoveringRunLength(d: seq<int>, n: nat)
    requires forall i, j :: 0 <= i < j < |d| ==> d[i] < d[j]
    requires forall i :: 0 <= i < |d| ==> 0 <= d[i] < n
    requires forall k :: 0 <= k < n ==> k in d
    ensures |d| == n && forall q :: 0 <= q < |d| ==> d[q] == q
  {
    CoveringRun(d, n, |d|);
    if |d| > 0 {
      assert d[|d| - 1] == |d| - 1;
    }
    if n > 0 {
      assert n - 1 in d;
      var w :| 0 <= w < |d| && d[w] == n - 1;
      assert d[w] == w;
      assert |d| >= n;
    }
  }

  /** An element occurring at two positions is counted at least twice. */
  lemma TwiceCounted<T>(s: seq<T>, i: int, j: int)
    requires 0 <= i < j < |s| && s[i] == s[j]
    ensures multiset(s)[s[i]] >= 2
  {
    assert s == s[..j] + s[j..];
    assert s[i] in s[..j] && s[j] in s[j..];
  }

  /**
   * A listing that holds each active row of `m` once, sorted by display
   * order first, where the active rows are those of `ids` and the row of
   * `ids[k]` has order k, lists the rows of `ids` in the order of `ids`.
   */
  lemma ListedInIdOrder(m: map<int, Task>, ids: seq<int>, r: seq<Task>)
    requires forall id :: id in m ==> m[id].id == id
    requires Distinct(ids) && AllKnown(m, ids)
    requires forall id :: id in ids <==> id in m && Active(m[id].status)
    requires forall k :: 0 <= k < |ids| ==> m[ids[k]].displayOrder == k
    requires forall t :: multiset(r)[t] == if Stored(m, t) && Active(t.status) then 1 else 0
    requires Sorted(r, OrderThenLimit)
    ensures |r| == |ids| && forall k :: 0 <= k < |ids| ==> r[k].id == ids[k]
  {
    forall p | 0 <= p < |r|
      ensures r[p] == m[r[p].id] && 0 <= r[p].displayOrder < |ids| && ids[r[p].displayOrder] == r[p].id
    {
      assert r[p] in multiset(r);
      assert r[p].id in ids;
      var k :| 0 <= k < |ids| && ids[k] == r[p].id;
    }
    var d := seq(|r|, p requires 0 <= p < |r| => r[p].displayOrder);
    forall i, j | 0 <= i < j < |d|
      ensures d[i] < d[j]
    {
      assert KeyLe(Key(r[i], OrderThenLimit), Key(r[j], OrderThenLimit));
      if d[i] == d[j] {
        assert r[i] == r[j];
        TwiceCounted(r, i, j);
        assert false;
      }
    }
    forall k | 0 <= k < |ids|
      ensures k in d
    {
      var t := m[ids[k]];
      assert ids[k] in ids;
      assert t.id == ids[k];
      assert Stored(m, t) && Active(t.status);
      assert t in multiset(r);
      var p :| 0 <= p < |r| && r[p] == t;
      assert d[p] == k;
    }
    CoveringRunLength(d, |ids|);
    forall k | 0 <= k < |ids|
      ensures r[k].id == ids[k]
    {
      assert d[k] == k;
    }
  }

  /**
   * Reordering by the list of the active tasks (what the client sends after
   * a drag) and then listing by display order gives the tasks in exactly
   * the submitted order.
   */
  lemma ReorderThenList(m: map<int, Task>, nextId: nat, ids: seq<int>, now: DateTime)
    requires WellKeyed(m, nextId) && Distinct(ids)
    requires forall id :: id in ids <==> id in m && Active(m[id].status)
    ensures var r := ActiveTasks(Reordered(m, ids, now), nextId, "display_order");
      |r| == |ids| && forall k :: 0 <= k < |ids| ==> r[k].id == ids[k]
  {
    var m' := Reordered(m, ids, now);
    assert m'.Keys == m.Keys;
    forall k | 0 <= k < |ids|
      ensures ids[k] in m && ids[k] in m'
    {
      var id := ids[k];
      assert id in ids;
      assert id in m && Active(m[id].status);
      assert id in m'.Keys;
    }
    ReorderedPositions(m, ids, now);
    assert WellKeyed(m', nextId);
    ListedInIdOrder(m', ids, ActiveTasks(m', nextId, "display_order"));
  }
}
