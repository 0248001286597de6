/** A SQLite table whose primary key is `id INTEGER PRIMARY KEY AUTOINCREMENT`, as the
    services see it: a sequence of rows in insertion order plus the next id to hand out.
    `WHERE id = ?` reads, `UPDATE ... WHERE id = ?` and `DELETE ... WHERE id = ?` are the
    relational operations below; `WHERE <condition on columns>` is `Filter`. */
module Table {
  import opened Common

  /** One row: its generated id and the remaining columns. */
  datatype Row<T> = Row(id: int, cols: T)

  predicate IdsAscending<T>(rows: seq<Row<T>>) {
    forall i, j :: 0 <= i < j < |rows| ==> rows[i].id < rows[j].id
  }

  /** Rows in ascending id order (so ids are unique), every id at least 1 and below the
      id AUTOINCREMENT hands out next. */
  predicate WellFormed<T>(rows: seq<Row<T>>, nextId: int) {
    IdsAscending(rows) && forall i :: 0 <= i < |rows| ==> 1 <= rows[i].id < nextId
  }

  function MapOption<T>(o: Option<T>, f: T -> T): Option<T> {
    if o.None? then None else Some(f(o.value))
  }

  /** The columns of the row with this id, if there is one (the first such row). */
  function Lookup<T>(rows: seq<Row<T>>, id: int): (r: Option<T>)
    ensures r.None? <==> forall i :: 0 <= i < |rows| ==> rows[i].id != id
    ensures r.Some? ==> Row(id, r.value) in rows
  {
    if rows == [] then None
    else
      var r := Lookup(rows[..|rows| - 1], id);
      if r.Some? then r
      else if rows[|rows| - 1].id == id then Some(rows[|rows| - 1].cols)
      else None
  }

  /** `WHERE keep(row)`: the rows that satisfy `keep`, in their original order. */
  function Filter<T>(rows: seq<Row<T>>, keep: Row<T> -> bool): (r: seq<Row<T>>)
    ensures forall i :: 0 <= i < |r| ==> r[i] in rows && keep(r[i])
    ensures forall i :: 0 <= i < |rows| && keep(rows[i]) ==> rows[i] in r
    ensures |r| <= |rows|
    ensures IdsAscending(rows) ==> IdsAscending(r)
  {
    if rows == [] then []
    else
      var init := rows[..|rows| - 1];
      var last := rows[|rows| - 1];
      var r := Filter(init, keep);
      assert rows == init + [last];
      FilterStep(init, last, keep, r);
      r + (if keep(last) then [last] else [])
  }

  /** The step of `Filter`: what holds of a filtered prefix holds after the next row. */
  lemma FilterStep<T>(init: seq<Row<T>>, last: Row<T>, keep: Row<T> -> bool, r: seq<Row<T>>)
    requires forall i :: 0 <= i < |r| ==> r[i] in init && keep(r[i])
    requires forall i :: 0 <= i < |init| && keep(init[i]) ==> init[i] in r
    requires |r| <= |init|
    requires IdsAscending(init) ==> IdsAscending(r)
    ensures var rows, r' := init + [last], r + (if keep(last) then [last] else []);
      && (forall i :: 0 <= i < |r'| ==> r'[i] in rows && keep(r'[i]))
      && (forall i :: 0 <= i < |rows| && keep(rows[i]) ==> rows[i] in r')
      && |r'| <= |rows|
      && (IdsAscending(rows) ==> IdsAscending(r'))
  {
    var rows, r' := init + [last], r + (if keep(last) then [last] else []);
    assert forall i :: 0 <= i < |r'| ==> r'[i] in rows && keep(r'[i]) by {
      assert forall i :: 0 <= i < |r'| ==> r'[i] == if i < |r| then r[i] else last;
    }
    assert forall i :: 0 <= i < |rows| && keep(rows[i]) ==> rows[i] in r' by {
      assert forall i :: 0 <= i < |rows| ==> rows[i] == if i < |init| then init[i] else last;
    }
    if IdsAscending(rows) {
      assert IdsAscending(init) by {
        assert forall i :: 0 <= i < |init| ==> init[i] == rows[i];
      }
      forall i | 0 <= i < |r| ensures r[i].id < last.id {
        var k :| 0 <= k < |init| && init[k] == r[i];
        assert rows[k] == init[k] && rows[|init|] == last;
      }
      assert IdsAscending(r');
    }
  }

  /** `UPDATE ... WHERE id = ?`: the row with that id gets `f` of its columns. */
  function Update<T>(rows: seq<Row<T>>, id: int, f: T -> T): (r: seq<Row<T>>)
    ensures |r| == |rows|
    ensures forall i :: 0 <= i < |rows| ==> r[i].id == rows[i].id
    ensures forall i :: 0 <= i < |rows| && rows[i].id != id ==> r[i] == rows[i]
    ensures forall i :: 0 <= i < |rows| && rows[i].id == id ==> r[i].cols == f(rows[i].cols)
  {
    seq(|rows|, i requires 0 <= i < |rows| => if rows[i].id == id then Row(id, f(rows[i].cols)) else rows[i])
  }

  predicate IdIsNot<T>(id: int, x: Row<T>) {
    x.id != id
  }

  /** `DELETE ... WHERE id = ?`. */
  function Delete<T>(rows: seq<Row<T>>, id: int): (r: seq<Row<T>>)
    ensures forall i :: 0 <= i < |r| ==> r[i] in rows && r[i].id != id
    ensures forall i :: 0 <= i < |rows| && rows[i].id != id ==> rows[i] in r
  {
    Filter(rows, x => IdIsNot(id, x))
  }

  /** INSERT with a generated id: the new row takes `nextId`, the table stays well
      formed with the next id one higher, and only the new id's lookup changes. */
  lemma {:induction false} LookupAfterInsert<T>(rows: seq<Row<T>>, nextId: int, cols: T, id: int)
    requires WellFormed(rows, nextId) && nextId >= 1
    ensures WellFormed(rows + [Row(nextId, cols)], nextId + 1)
    ensures Lookup(rows + [Row(nextId, cols)], id) == if id == nextId then Some(cols) else Lookup(rows, id)
  {
    var rows' := rows + [Row(nextId, cols)];
    assert rows'[..|rows'| - 1] == rows;
    if id == nextId {
      assert Lookup(rows, id).None?;
    }
  }

  /** UPDATE changes the lookup of its own id only, and that by `f`. */
  lemma {:induction false} LookupAfterUpdate<T>(rows: seq<Row<T>>, id: int, f: T -> T, other: int)
    ensures Lookup(Update(rows, id, f), other) ==
            if other == id then MapOption(Lookup(rows, id), f) else Lookup(rows, other)
  {
    if rows != [] {
      var init := rows[..|rows| - 1];
      assert Update(rows, id, f)[..|rows| - 1] == Update(init, id, f);
      LookupAfterUpdate(init, id, f, other);
    }
  }

  /** UPDATE keeps the ids, so a well-formed table stays well formed. */
  lemma UpdateWellFormed<T>(rows: seq<Row<T>>, nextId: int, id: int, f: T -> T)
    requires WellFormed(rows, nextId)
    ensures WellFormed(Update(rows, id, f), nextId)
  {
  }

  /** DELETE makes its own id absent and changes no other lookup. */
  lemma {:induction false} LookupAfterDelete<T>(rows: seq<Row<T>>, id: int, other: int)
    ensures Lookup(Delete(rows, id), other) == if other == id then None else Lookup(rows, other)
  {
    if rows != [] {
      var init := rows[..|rows| - 1];
      LookupAfterDelete(init, id, other);
      var last := rows[|rows| - 1];
      var d := Delete(init, id);
      if last.id != id {
        assert Delete(rows, id) == d + [last];
        assert (d + [last])[..|d|] == d;
      } else {
        assert Delete(rows, id) == d;
      }
    }
  }

  /** DELETE of an id no row has leaves the table as it was. */
  lemma {:induction false} DeleteAbsent<T>(rows: seq<Row<T>>, id: int)
    requires Lookup(rows, id).None?
    ensures Delete(rows, id) == rows
  {
    if rows != [] {
      var init := rows[..|rows| - 1];
      var last := rows[|rows| - 1];
      assert rows == init + [last];
      assert IdIsNot(id, last);
      assert Lookup(init, id).None? by {
        assert forall i :: 0 <= i < |init| ==> init[i] == rows[i];
      }
      DeleteAbsent(init, id);
      assert Delete(rows, id) == Delete(init, id) + [last];
    }
  }

  /** On a well-formed table DELETE removes exactly one row when the id is present. */
  lemma {:induction false} DeleteCount<T>(rows: seq<Row<T>>, nextId: int, id: int)
    requires WellFormed(rows, nextId)
    ensures WellFormed(Delete(rows, id), nextId)
    ensures |Delete(rows, id)| == if Lookup(rows, id).Some? then |rows| - 1 else |rows|
  {
    if rows != [] {
      var init := rows[..|rows| - 1];
      var last := rows[|rows| - 1];
      DeleteCount(init, nextId, id);
      if last.id == id {
        assert Lookup(init, id).None?;
        DeleteAbsent(init, id);
      }
    }
  }
}
