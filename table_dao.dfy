/** The `tables` relation and the queries and updates that TableDAO runs against it. */
module TableDao {
  import opened Wrappers

  /** The value stored in `booking_time`; the database fills it from its clock (NOW()). */
  type Time = int

  /** One row of `tables`, keyed by `table_id`. */
  datatype TableRow = TableRow(capacity: int, booked: bool, bookingTime: Option<Time>)

  /** The model object a query builds from a row (model/Table.java). */
  datatype Table = Table(tableId: int, capacity: int, booked: bool, bookingTime: Option<Time>)

  function AsTable(id: int, row: TableRow): Table {
    Table(id, row.capacity, row.booked, row.bookingTime)
  }

  /** A table is booked exactly when it carries a booking time. */
  predicate Consistent(row: TableRow) {
    row.booked <==> row.bookingTime.Some?
  }

  predicate WellFormed(tables: map<int, TableRow>) {
    forall id :: id in tables ==> Consistent(tables[id])
  }

  predicate IsFree(tables: map<int, TableRow>, id: int) {
    id in tables && !tables[id].booked
  }

  predicate NoneFree(tables: map<int, TableRow>) {
    forall id :: id in tables ==> tables[id].booked
  }

  /** The relation after `UPDATE tables SET is_booked = TRUE, booking_time = NOW() WHERE table_id = id`.
      The WHERE clause matches on the id only: a table that is already booked is booked again
      and gets a new booking time. */
  function Booked(tables: map<int, TableRow>, id: int, now: Time): (r: map<int, TableRow>)
    ensures r.Keys == tables.Keys
    ensures id in tables ==> r[id].booked && r[id].bookingTime == Some(now) && r[id].capacity == tables[id].capacity
    ensures forall k :: k in tables && k != id ==> r[k] == tables[k]
    ensures WellFormed(tables) ==> WellFormed(r)
    ensures id in tables ==> !IsFree(r, id)
  {
    if id in tables then tables[id := tables[id].(booked := true, bookingTime := Some(now))] else tables
  }

  /** The relation after `UPDATE tables SET is_booked = FALSE, booking_time = NULL WHERE table_id = id`. */
  function Freed(tables: map<int, TableRow>, id: int): (r: map<int, TableRow>)
    ensures r.Keys == tables.Keys
    ensures id in tables ==> !r[id].booked && r[id].bookingTime.None? && r[id].capacity == tables[id].capacity
    ensures forall k :: k in tables && k != id ==> r[k] == tables[k]
    ensures WellFormed(tables) ==> WellFormed(r)
    ensures id in tables ==> IsFree(r, id)
  {
    if id in tables then tables[id := tables[id].(booked := false, bookingTime := None)] else tables
  }

  /** Freeing is idempotent: a second free leaves the relation as the first one did. */
  lemma FreeTwice(tables: map<int, TableRow>, id: int)
    ensures Freed(Freed(tables, id), id) == Freed(tables, id)
  {
  }

  /** Booking then freeing a table gives back a free table of the same capacity and touches no other. */
  lemma BookThenFree(tables: map<int, TableRow>, id: int, now: Time)
    requires id in tables
    ensures Freed(Booked(tables, id, now), id) == Freed(tables, id)
  {
  }

  /** Every finite non-empty set of ids has a least element. */
  lemma {:induction false} HasMinimum(ids: set<int>)
    requires ids != {}
    ensures exists m :: m in ids && forall k :: k in ids ==> m <= k
  {
    if forall k :: k !in ids {
      assert false;
    }
    var x :| x in ids;
    var rest := ids - {x};
    assert forall k :: k in ids && k != x ==> k in rest;
    if rest == {} {
      assert forall k :: k in ids ==> x <= k;
    } else {
      HasMinimum(rest);
      var m :| m in rest && forall k :: k in rest ==> m <= k;
      var low := if x < m then x else m;
      assert low in ids && forall k :: k in ids ==> low <= k;
    }
  }

  /** The least id of a non-empty set. */
  function Least(ids: set<int>): (m: int)
    requires ids != {}
    ensures m in ids && forall k :: k in ids ==> m <= k
  {
    HasMinimum(ids);
    var m :| m in ids && forall k :: k in ids ==> m <= k; m
  }

  /** The ids in ascending order (`ORDER BY table_id`). */
  function SortedIds(ids: set<int>): (r: seq<int>)
    ensures |r| == |ids|
    ensures forall i :: 0 <= i < |r| ==> r[i] in ids
    ensures forall id :: id in ids ==> id in r
    ensures Ascending(r)
    decreases |ids|
  {
    if ids == {} then []
    else
      var m := Least(ids);
      var rest := SortedIds(ids - {m});
      PrependLeast(m, rest);
      assert forall id :: id in ids ==> id == m || id in ids - {m};
      [m] + rest
  }

  predicate Ascending(s: seq<int>) {
    forall i, j :: 0 <= i < j < |s| ==> s[i] < s[j]
  }

  lemma PrependLeast(m: int, rest: seq<int>)
    requires Ascending(rest) && forall i :: 0 <= i < |rest| ==> m < rest[i]
    ensures Ascending([m] + rest)
  {
    var r := [m] + rest;
    assert forall i :: 1 <= i < |r| ==> r[i] == rest[i - 1];
  }

  /** The rows for the given ids, in the order of the ids. */
  function RowsFor(tables: map<int, TableRow>, ids: seq<int>): (r: seq<Table>)
    requires forall i :: 0 <= i < |ids| ==> ids[i] in tables
    ensures |r| == |ids|
    ensures forall i :: 0 <= i < |r| ==> r[i].tableId == ids[i] && r[i] == AsTable(ids[i], tables[ids[i]])
  {
    seq(|ids|, i requires 0 <= i < |ids| => AsTable(ids[i], tables[ids[i]]))
  }

  /** Every row of a relation as a Table, in ascending id order. */
  function Listing(tables: map<int, TableRow>): (r: seq<Table>)
    ensures |r| == |tables.Keys|
    ensures forall i :: 0 <= i < |r| ==> r[i].tableId in tables && r[i] == AsTable(r[i].tableId, tables[r[i].tableId])
    ensures forall id :: id in tables ==> exists i :: 0 <= i < |r| && r[i].tableId == id
    ensures forall i, j :: 0 <= i < j < |r| ==> r[i].tableId < r[j].tableId
  {
    var ids := SortedIds(tables.Keys);
    var r := RowsFor(tables, ids);
    assert forall i, j :: 0 <= i < j < |r| ==> ids[i] < ids[j];
    EveryIdListed(tables.Keys, ids, r);
    r
  }

  lemma EveryIdListed(keys: set<int>, ids: seq<int>, r: seq<Table>)
    requires forall id :: id in keys ==> id in ids
    requires |r| == |ids| && forall i :: 0 <= i < |r| ==> r[i].tableId == ids[i]
    ensures forall id :: id in keys ==> exists i :: 0 <= i < |r| && r[i].tableId == id
  {
    forall id | id in keys
      ensures exists i :: 0 <= i < |r| && r[i].tableId == id
    {
      var k := IndexOf(ids, id);
      assert r[k].tableId == id;
    }
  }

  function IndexOf(s: seq<int>, x: int): (i: nat)
    requires x in s
    ensures i < |s| && s[i] == x
  {
    if s[0] == x then 0 else 1 + IndexOf(s[1..], x)
  }

  /** The rows with `is_booked = FALSE`. */
  function Vacant(tables: map<int, TableRow>): (r: map<int, TableRow>)
    ensures forall id :: id in r <==> IsFree(tables, id)
    ensures forall id :: id in r ==> id in tables && r[id] == tables[id]
  {
    map id | id in tables && !tables[id].booked :: tables[id]
  }

  /** The database's `tables` relation, updated in place through the DAO. */
  class TableDAO {
    var tables: map<int, TableRow>

    /** The static seating plan the restaurant is provisioned with. */
    constructor (seatingPlan: map<int, TableRow>)
      ensures tables == seatingPlan
    {
      tables := seatingPlan;
    }

    /** `SELECT * FROM tables WHERE is_booked = FALSE LIMIT 1`: some free table, null iff none is free.
        Without ORDER BY, which free row comes back is the database's choice. */
    method GetAvailableTable() returns (t: Option<Table>)
      ensures t.None? <==> NoneFree(tables)
      ensures t.Some? ==> IsFree(tables, t.value.tableId) && t.value == AsTable(t.value.tableId, tables[t.value.tableId])
    {
      if exists id :: id in tables && !tables[id].booked {
        var id :| id in tables && !tables[id].booked;
        t := Some(AsTable(id, tables[id]));
      } else {
        t := None;
      }
    }

    /** The seat-aware lookup `getAvailableTable(requiredSeats)`. Its body is not part of this model,
        so all it promises is that a table it returns is a free one; it may also return none. */
    method GetAvailableTableFor(requiredSeats: int) returns (t: Option<Table>)
      ensures t.Some? ==> IsFree(tables, t.value.tableId) && t.value == AsTable(t.value.tableId, tables[t.value.tableId])
    {
      if * {
        t := None;
      } else {
        t := GetAvailableTable();
      }
    }

    /** Returns true iff a row with that id exists; an already booked table is booked again. */
    method AssignTable(tableId: int, now: Time) returns (ok: bool)
      modifies this
      ensures ok <==> tableId in old(tables)
      ensures tables == Booked(old(tables), tableId, now)
    {
      ok := tableId in tables;
      tables := Booked(tables, tableId, now);
    }

    /** Returns true iff a row with that id exists, whether or not it was booked. */
    method FreeTable(tableId: int) returns (ok: bool)
      modifies this
      ensures ok <==> tableId in old(tables)
      ensures tables == Freed(old(tables), tableId)
    {
      ok := tableId in tables;
      tables := Freed(tables, tableId);
    }

    /** `SELECT * FROM tables ORDER BY table_id`: every table exactly once, ascending by id. */
    function GetAllTables(): (r: seq<Table>)
      reads this
      ensures |r| == |tables.Keys|
      ensures forall i :: 0 <= i < |r| ==> r[i].tableId in tables && r[i] == AsTable(r[i].tableId, tables[r[i].tableId])
      ensures forall id :: id in tables ==> exists i :: 0 <= i < |r| && r[i].tableId == id
      ensures forall i, j :: 0 <= i < j < |r| ==> r[i].tableId < r[j].tableId
    {
      Listing(tables)
    }

    /** `SELECT * FROM tables WHERE is_booked = FALSE ORDER BY table_id`: exactly the free tables, ascending by id. */
    function GetVacantTables(): (r: seq<Table>)
      reads this
      ensures forall i :: 0 <= i < |r| ==> IsFree(tables, r[i].tableId) && r[i] == AsTable(r[i].tableId, tables[r[i].tableId])
      ensures forall id :: IsFree(tables, id) ==> exists i :: 0 <= i < |r| && r[i].tableId == id
      ensures forall i, j :: 0 <= i < j < |r| ==> r[i].tableId < r[j].tableId
      ensures r == [] <==> NoneFree(tables)
    {
      Listing(Vacant(tables))
    }
  }
}
