/**
 * The `applications` table as the rest of the model sees it: rows by
 * primary key, the order in which an unordered query returns them, and the
 * serial counter that assigns new ids.  A commit is an immediate write.
 */
module Db {
  import opened Wrappers
  import opened Models

  predicate Distinct(ids: seq<int>)
  {
    forall i, j :: 0 <= i < j < |ids| ==> ids[i] != ids[j]
  }

  function Min(a: int, b: int): int { if a <= b then a else b }

  function Max(a: int, b: int): int { if a >= b then a else b }

  /** The first position of `x` in `ids`. */
  function IndexOf(ids: seq<int>, x: int): (i: nat)
    requires x in ids
    ensures i < |ids| && ids[i] == x && x !in ids[..i]
    decreases |ids|
  {
    if ids[0] == x then 0
    else
      var i := 1 + IndexOf(ids[1..], x);
      assert ids[..i] == [ids[0]] + ids[1..][..i - 1];
      i
  }

  /** In a list without repetitions, the position of an element is its index. */
  lemma IndexOfDistinct(ids: seq<int>, k: int)
    requires Distinct(ids) && 0 <= k < |ids|
    ensures IndexOf(ids, ids[k]) == k
  {
    var i := IndexOf(ids, ids[k]);
    assert forall j :: 0 <= j < i ==> ids[j] in ids[..i];
  }

  /**
   * `WHERE keep(row)` over the given ids: the ids whose row passes, each
   * once (`WhereInOrder`: in their order in `ids`).
   */
  function Where(rows: map<int, Application>, ids: seq<int>, keep: Application -> bool): (r: seq<int>)
    ensures forall id :: id in r <==> id in ids && id in rows && keep(rows[id])
    ensures Distinct(ids) ==> Distinct(r)
    ensures |r| <= |ids|
    ensures forall k :: 0 <= k < |r| ==> r[k] in rows && keep(rows[r[k]])
    decreases |ids|
  {
    if ids == [] then []
    else
      var n := |ids| - 1;
      var front := ids[..n];
      var rest := Where(rows, front, keep);
      var id := ids[n];
      assert forall x :: x in front ==> x in ids;
      assert Distinct(ids) ==> id !in front;
      if id in rows && keep(rows[id]) then rest + [id] else rest
  }

  /** Every element of `r` occurs in `ids`, and `r` lists them in their order there. */
  predicate InOrder(r: seq<int>, ids: seq<int>)
  {
    forall i, j :: 0 <= i < j < |r| ==> r[i] in ids && r[j] in ids && IndexOf(ids, r[i]) < IndexOf(ids, r[j])
  }

  /** Without repeated ids, `Where` keeps the ids in their order in `ids`. */
  lemma {:induction false} WhereInOrder(rows: map<int, Application>, ids: seq<int>, keep: Application -> bool)
    requires Distinct(ids)
    ensures InOrder(Where(rows, ids, keep), ids)
    decreases |ids|
  {
    if ids != [] {
      var n := |ids| - 1;
      var front := ids[..n];
      var id := ids[n];
      assert ids == front + [id];
      assert Distinct(front);
      var rest := Where(rows, front, keep);
      WhereInOrder(rows, front, keep);
      assert forall k :: 0 <= k < |rest| ==> rest[k] in rest;
      ExtendKeepsOrder(front, id, rest, id in rows && keep(rows[id]));
      assert Where(rows, ids, keep) == if id in rows && keep(rows[id]) then rest + [id] else rest;
    }
  }

  /**
   * A selection from `front`, in its order, stays in order in `front + [id]`,
   * with or without `id` appended.
   */
  lemma ExtendKeepsOrder(front: seq<int>, id: int, rest: seq<int>, kept: bool)
    requires Distinct(front + [id])
    requires forall k :: 0 <= k < |rest| ==> rest[k] in front
    requires InOrder(rest, front)
    ensures InOrder(if kept then rest + [id] else rest, front + [id])
  {
    var ids := front + [id];
    var n := |front|;
    assert Distinct(front) by {
      assert forall k :: 0 <= k < n ==> front[k] == ids[k];
    }
    forall k | 0 <= k < |rest|
      ensures rest[k] in ids && IndexOf(ids, rest[k]) == IndexOf(front, rest[k]) < n
    {
      var m := IndexOf(front, rest[k]);
      assert ids[m] == rest[k];
      IndexOfDistinct(ids, m);
    }
    assert ids[n] == id;
    IndexOfDistinct(ids, n);
  }

  /** The query order once `x` is deleted. */
  function Without(ids: seq<int>, x: int): (r: seq<int>)
    ensures forall y :: y in r <==> y in ids && y != x
    ensures Distinct(ids) ==> Distinct(r)
    decreases |ids|
  {
    if ids == [] then []
    else
      var front := ids[..|ids| - 1];
      var rest := Without(front, x);
      var id := ids[|ids| - 1];
      assert forall y :: y in front ==> y in ids;
      assert Distinct(ids) ==> id !in front;
      if id != x then rest + [id] else rest
  }

  /** The rows for a list of ids, in that order. */
  function Records(rows: map<int, Application>, ids: seq<int>): seq<Application>
    requires forall k :: 0 <= k < |ids| ==> ids[k] in rows
  {
    seq(|ids|, k requires 0 <= k < |ids| => rows[ids[k]])
  }

  /** `.offset(skip).limit(limit)`: the elements at positions skip .. skip+limit-1. */
  function Window<T>(xs: seq<T>, skip: nat, limit: nat): (r: seq<T>)
    ensures |r| == Min(limit, Max(0, |xs| - skip))
    ensures forall k :: 0 <= k < |r| ==> r[k] == xs[skip + k]
  {
    if skip >= |xs| then [] else xs[skip..Min(|xs|, skip + limit)]
  }

  /** A sequence without repetitions has as many distinct elements as positions. */
  lemma {:induction false} DistinctCardinality(ids: seq<int>)
    requires Distinct(ids)
    ensures |set id | id in ids| == |ids|
    decreases |ids|
  {
    if ids != [] {
      var front := ids[..|ids| - 1];
      var last := ids[|ids| - 1];
      DistinctCardinality(front);
      assert (set id | id in ids) == (set id | id in front) + {last};
      assert last !in (set id | id in front);
    }
  }

  class Table {
    var rows: map<int, Application>
    var order: seq<int>
    var nextId: int

    /** Every row is listed once in query order under its own id, below the serial counter. */
    ghost predicate Valid()
      reads this
    {
      && Distinct(order)
      && (forall id :: id in rows <==> id in order)
      && (forall k :: 0 <= k < |order| ==> order[k] in rows)
      && (forall id :: id in rows ==> rows[id].id == id && id < nextId)
    }

    /** An empty table whose serial starts at 1. */
    constructor ()
      ensures Valid() && rows == map[] && order == [] && nextId == 1
    {
      rows := map[];
      order := [];
      nextId := 1;
    }

    /**
     * `db.add(...)` then `db.commit()`: the row gets the next serial id and
     * comes last in query order; no other row changes.
     */
    method Add(input: ApplicationCreate, owner: Option<string>, now: int) returns (app: Application)
      requires Valid()
      modifies this
      ensures Valid()
      ensures app == NewApplication(old(nextId), input, owner, now) && app.id !in old(rows)
      ensures rows == old(rows)[app.id := app]
      ensures order == old(order) + [app.id] && nextId == old(nextId) + 1
    {
      app := NewApplication(nextId, input, owner, now);
      assert app.id !in order;
      rows := rows[app.id := app];
      order := order + [app.id];
      nextId := nextId + 1;
    }

    /**
     * An `UPDATE ... WHERE id = ...` (or an ORM edit) then a commit: row `id`
     * is replaced; the query order, the serial and every other row stay.
     */
    method Put(id: int, row: Application)
      requires Valid()
      requires id in rows && row.id == id
      modifies this
      ensures Valid()
      ensures rows == old(rows)[id := row]
      ensures order == old(order) && nextId == old(nextId)
    {
      rows := rows[id := row];
    }
  }

  /** In a valid table the query order lists exactly as many ids as there are rows. */
  lemma TableSize(db: Table)
    requires db.Valid()
    ensures |db.rows| == |db.order|
  {
    assert forall id :: id in db.rows.Keys <==> id in (set x | x in db.order);
    assert db.rows.Keys == set id | id in db.order;
    DistinctCardinality(db.order);
  }
}
