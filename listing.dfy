/**
 * The three read routes of app.py as the queries they run: `get_tasks`,
 * `get_completed_tasks` and `get_deleted_tasks` each filter the table by
 * status and ask for an order.
 */
module Listing {
  import opened Wrappers
  import opened Dates
  import opened Models

  /** Every key of the table is its row's id and lies below the next id to assign. */
  predicate WellKeyed(m: map<int, Task>, nextId: int) {
    forall id :: id in m ==> m[id].id == id && 0 <= id < nextId
  }

  /** `t` is the row stored under its own id. */
  predicate Stored(m: map<int, Task>, t: Task) {
    t.id in m && m[t.id] == t
  }

  /** The ORDER BY clauses of the three routes. */
  datatype Order =
    | LimitThenOrder  // limit_date ASC, display_order ASC
    | OrderThenLimit  // display_order ASC, limit_date ASC
    | NewestEnd       // actual_end_date DESC
    | NewestUpdate    // updated_at DESC

  /**
   * The sort key of a row, compared lexicographically. SQLite places NULL
   * before every value, so a descending order puts rows without an end date last.
   */
  function Key(t: Task, o: Order): (int, int) {
    match o
    case LimitThenOrder => (Ordinal(t.limitDate), t.displayOrder)
    case OrderThenLimit => (t.displayOrder, Ordinal(t.limitDate))
    case NewestEnd => if t.actualEnd.Some? then (0, -Ordinal(t.actualEnd.value)) else (1, 0)
    case NewestUpdate => (-Ordinal(t.updatedAt), 0)
  }

  predicate KeyLe(a: (int, int), b: (int, int)) {
    a.0 < b.0 || (a.0 == b.0 && a.1 <= b.1)
  }

  /** Each element's key is at most the key of every element after it. */
  predicate SortedBy<T>(s: seq<T>, key: T -> (int, int)) {
    forall i, j :: 0 <= i < j < |s| ==> KeyLe(key(s[i]), key(s[j]))
  }

  predicate Sorted(s: seq<Task>, o: Order) {
    SortedBy(s, t => Key(t, o))
  }

  /** The rows whose ids lie in [0, n), in id order (the table's scan order). */
  function Rows(m: map<int, Task>, n: nat): (r: seq<Task>)
    requires forall id :: id in m ==> m[id].id == id
    ensures forall t :: multiset(r)[t] == if 0 <= t.id < n && Stored(m, t) then 1 else 0
  {
    if n == 0 then []
    else Rows(m, n - 1) + (if n - 1 in m then [m[n - 1]] else [])
  }

  /** The WHERE clause: the rows whose status is in `keep`. */
  function Filter(s: seq<Task>, keep: set<Status>): (r: seq<Task>)
    ensures forall t :: multiset(r)[t] == if t.status in keep then multiset(s)[t] else 0
  {
    if s == [] then []
    else
      assert s == [s[0]] + s[1..];
      (if s[0].status in keep then [s[0]] else []) + Filter(s[1..], keep)
  }

  /** A sorted sequence stays sorted under a head whose key is at most every key in it. */
  lemma SortedCons<T>(h: T, s: seq<T>, key: T -> (int, int))
    requires SortedBy(s, key)
    requires forall y :: y in s ==> KeyLe(key(h), key(y))
    ensures SortedBy([h] + s, key)
  {
    var r := [h] + s;
    forall i, j | 0 <= i < j < |r|
      ensures KeyLe(key(r[i]), key(r[j]))
    {
      if i > 0 {
        assert r[i] == s[i - 1] && r[j] == s[j - 1];
      } else {
        assert r[j] == s[j - 1] && r[j] in s;
      }
    }
  }

  function Insert<T>(x: T, s: seq<T>, key: T -> (int, int)): (r: seq<T>)
    requires SortedBy(s, key)
    ensures SortedBy(r, key) && multiset(r) == multiset(s) + multiset{x}
    ensures forall y :: y in r ==> y == x || y in s
  {
    if s == [] then [x]
    else if KeyLe(key(x), key(s[0])) then
      assert forall y :: y in s ==> KeyLe(key(x), key(y)) by {
        forall y | y in s ensures KeyLe(key(x), key(y)) {
          var k :| 0 <= k < |s| && s[k] == y;
          if k > 0 { assert KeyLe(key(s[0]), key(s[k])); }
        }
      }
      SortedCons(x, s, key);
      [x] + s
    else
      var rest := Insert(x, s[1..], key);
      assert forall y :: y in rest ==> KeyLe(key(s[0]), key(y)) by {
        forall y | y in rest ensures KeyLe(key(s[0]), key(y)) {
          if y != x {
            var k :| 0 <= k < |s[1..]| && s[1..][k] == y;
            assert s[k + 1] == y;
          }
        }
      }
      SortedCons(s[0], rest, key);
      assert s == [s[0]] + s[1..];
      [s[0]] + rest
  }

  /** The ORDER BY: a permutation of `s` in key order. */
  function Sort<T>(s: seq<T>, key: T -> (int, int)): (r: seq<T>)
    ensures SortedBy(r, key) && multiset(r) == multiset(s)
  {
    if s == [] then []
    else
      assert s == [s[0]] + s[1..];
      Insert(s[0], Sort(s[1..], key), key)
  }

  /** Sorted by descending end date: newest end first, rows without one last. */
  lemma NewestEndFirst(r: seq<Task>)
    requires Sorted(r, NewestEnd)
    ensures forall i, j :: 0 <= i < j < |r| && r[j].actualEnd.Some? ==>
      r[i].actualEnd.Some? && Ordinal(r[j].actualEnd.value) <= Ordinal(r[i].actualEnd.value)
  {
    forall i, j | 0 <= i < j < |r| && r[j].actualEnd.Some?
      ensures r[i].actualEnd.Some? && Ordinal(r[j].actualEnd.value) <= Ordinal(r[i].actualEnd.value)
    {
      assert KeyLe(Key(r[i], NewestEnd), Key(r[j], NewestEnd));
    }
  }

  /** Sorted by descending update time. */
  lemma NewestUpdateFirst(r: seq<Task>)
    requires Sorted(r, NewestUpdate)
    ensures forall i, j :: 0 <= i < j < |r| ==> Ordinal(r[j].updatedAt) <= Ordinal(r[i].updatedAt)
  {
    forall i, j | 0 <= i < j < |r|
      ensures Ordinal(r[j].updatedAt) <= Ordinal(r[i].updatedAt)
    {
      assert KeyLe(Key(r[i], NewestUpdate), Key(r[j], NewestUpdate));
    }
  }

  /**
   * `get_tasks`: every todo or doing task exactly once, by limit date then
   * display order when `sort_by` is "limit_date", otherwise by display order
   * then limit date.
   */
  function ActiveTasks(m: map<int, Task>, nextId: nat, sortBy: string): (r: seq<Task>)
    requires WellKeyed(m, nextId)
    ensures forall t :: multiset(r)[t] == if Stored(m, t) && Active(t.status) then 1 else 0
    ensures Sorted(r, if sortBy == "limit_date" then LimitThenOrder else OrderThenLimit)
  {
    var o := if sortBy == "limit_date" then LimitThenOrder else OrderThenLimit;
    Sort(Filter(Rows(m, nextId), {Todo, Doing}), t => Key(t, o))
  }

  /**
   * `get_completed_tasks`: every completed task exactly once, most recently
   * ended first, those without an end date last.
   */
  function CompletedTasks(m: map<int, Task>, nextId: nat): (r: seq<Task>)
    requires WellKeyed(m, nextId)
    ensures forall t :: multiset(r)[t] == if Stored(m, t) && t.status == Completed then 1 else 0
    ensures forall i, j :: 0 <= i < j < |r| && r[j].actualEnd.Some? ==>
      r[i].actualEnd.Some? && Ordinal(r[j].actualEnd.value) <= Ordinal(r[i].actualEnd.value)
  {
    var r := Sort(Filter(Rows(m, nextId), {Completed}), t => Key(t, NewestEnd));
    NewestEndFirst(r);
    r
  }

  /** `get_deleted_tasks`: every deleted task exactly once, most recently updated first. */
  function DeletedTasks(m: map<int, Task>, nextId: nat): (r: seq<Task>)
    requires WellKeyed(m, nextId)
    ensures forall t :: multiset(r)[t] == if Stored(m, t) && t.status == Deleted then 1 else 0
    ensures forall i, j :: 0 <= i < j < |r| ==> Ordinal(r[j].updatedAt) <= Ordinal(r[i].updatedAt)
  {
    var r := Sort(Filter(Rows(m, nextId), {Deleted}), t => Key(t, NewestUpdate));
    NewestUpdateFirst(r);
    r
  }
}
