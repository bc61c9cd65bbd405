/** The `customers` relation and the updates and lookup that CustomerDAO runs against it. */
module CustomerDao {
  import opened Wrappers
  import opened CustomerModel

  /** One row of `customers`, keyed by `customer_id`; `tableId` is the nullable `table_id`. */
  datatype CustomerRow = CustomerRow(userId: int, name: string, tableId: Option<int>, checkedIn: bool)

  /** Some row is linked to the table (`WHERE table_id = tableId` matches). */
  predicate HasLinked(rows: map<int, CustomerRow>, tableId: int) {
    exists id :: id in rows && rows[id].tableId == Some(tableId)
  }

  /** A row that is not checked in unless it holds a table. */
  predicate Settled(row: CustomerRow) {
    row.checkedIn ==> row.tableId.Some?
  }

  /** `UPDATE customers SET table_id = tableId WHERE customer_id = customerId`. */
  function WithTable(rows: map<int, CustomerRow>, customerId: int, tableId: int): (r: map<int, CustomerRow>)
    ensures r.Keys == rows.Keys
    ensures customerId in rows ==> r[customerId] == rows[customerId].(tableId := Some(tableId))
    ensures customerId in rows ==> r[customerId].checkedIn == rows[customerId].checkedIn && HasLinked(r, tableId)
    ensures forall id :: id in rows && id != customerId ==> r[id] == rows[id]
  {
    if customerId in rows then rows[customerId := rows[customerId].(tableId := Some(tableId))] else rows
  }

  /** `UPDATE customers SET table_id = NULL, is_checked_in = FALSE WHERE customer_id = customerId`. */
  function Cleared(rows: map<int, CustomerRow>, customerId: int): (r: map<int, CustomerRow>)
    ensures r.Keys == rows.Keys
    ensures customerId in rows ==> r[customerId].tableId.None? && !r[customerId].checkedIn
    ensures customerId in rows ==> r[customerId].userId == rows[customerId].userId && r[customerId].name == rows[customerId].name
    ensures forall id :: id in rows && id != customerId ==> r[id] == rows[id]
  {
    if customerId in rows then rows[customerId := rows[customerId].(tableId := None, checkedIn := false)] else rows
  }

  /** `UPDATE customers SET table_id = NULL, is_checked_in = FALSE WHERE table_id = tableId`:
      every row linked to the table is released, every other row is left as it was. */
  function ClearedByTable(rows: map<int, CustomerRow>, tableId: int): (r: map<int, CustomerRow>)
    ensures r.Keys == rows.Keys
    ensures !HasLinked(r, tableId)
    ensures forall id :: id in rows && rows[id].tableId == Some(tableId) ==>
      r[id] == rows[id].(tableId := None, checkedIn := false)
    ensures forall id :: id in rows && rows[id].tableId != Some(tableId) ==> r[id] == rows[id]
    ensures !HasLinked(rows, tableId) ==> r == rows
  {
    var r := map id | id in rows :: if rows[id].tableId == Some(tableId) then rows[id].(tableId := None, checkedIn := false) else rows[id];
    assert !HasLinked(rows, tableId) ==> r == rows by {
      if !HasLinked(rows, tableId) {
        assert r.Keys == rows.Keys;
        assert forall id :: id in r ==> r[id] == rows[id];
      }
    }
    r
  }

  /** `UPDATE customers SET is_checked_in = checkedIn WHERE customer_id = customerId`; the table link is
      not consulted. */
  function WithCheckIn(rows: map<int, CustomerRow>, customerId: int, checkedIn: bool): (r: map<int, CustomerRow>)
    ensures r.Keys == rows.Keys
    ensures customerId in rows ==> r[customerId] == rows[customerId].(checkedIn := checkedIn)
    ensures customerId in rows ==> r[customerId].tableId == rows[customerId].tableId
    ensures forall id :: id in rows && id != customerId ==> r[id] == rows[id]
  {
    if customerId in rows then rows[customerId := rows[customerId].(checkedIn := checkedIn)] else rows
  }

  /** Checking in a row that holds no table leaves a row that is checked in without a table. */
  lemma CheckInWithoutTable(rows: map<int, CustomerRow>, customerId: int)
    requires customerId in rows && rows[customerId].tableId.None?
    ensures !Settled(WithCheckIn(rows, customerId, true)[customerId])
  {
  }

  /** After a table is linked to a customer, clearing by that customer and clearing by that table
      both find a row. */
  lemma ClearAfterAssign(rows: map<int, CustomerRow>, customerId: int, tableId: int)
    requires customerId in rows
    ensures customerId in WithTable(rows, customerId, tableId)
    ensures HasLinked(WithTable(rows, customerId, tableId), tableId)
    ensures ClearedByTable(WithTable(rows, customerId, tableId), tableId)[customerId] == Cleared(WithTable(rows, customerId, tableId), customerId)[customerId]
  {
  }

  /** The database's `customers` relation, updated in place through the DAO. */
  class CustomerDAO {
    var rows: map<int, CustomerRow>

    constructor (rows: map<int, CustomerRow>)
      ensures this.rows == rows
    {
      this.rows := rows;
    }

    /** Sets only the table link; true iff the customer's row exists. */
    method AssignTableToCustomer(customerId: int, tableId: int) returns (ok: bool)
      modifies this
      ensures ok <==> customerId in old(rows)
      ensures rows == WithTable(old(rows), customerId, tableId)
    {
      ok := customerId in rows;
      rows := WithTable(rows, customerId, tableId);
    }

    /** Releases the customer's table and check-in; true iff the customer's row exists. */
    method ClearTableForCustomer(customerId: int) returns (ok: bool)
      modifies this
      ensures ok <==> customerId in old(rows)
      ensures rows == Cleared(old(rows), customerId)
    {
      ok := customerId in rows;
      rows := Cleared(rows, customerId);
    }

    /** Releases every customer linked to the table; true iff at least one row matched. */
    method ClearCustomerByTableId(tableId: int) returns (ok: bool)
      modifies this
      ensures ok <==> HasLinked(old(rows), tableId)
      ensures rows == ClearedByTable(old(rows), tableId)
    {
      ok := HasLinked(rows, tableId);
      rows := ClearedByTable(rows, tableId);
    }

    /** Sets only the check-in flag, whether or not a table is linked; true iff the row exists. */
    method UpdateCheckInStatus(customerId: int, checkedIn: bool) returns (ok: bool)
      modifies this
      ensures ok <==> customerId in old(rows)
      ensures rows == WithCheckIn(old(rows), customerId, checkedIn)
    {
      ok := customerId in rows;
      rows := WithCheckIn(rows, customerId, checkedIn);
    }

    /** `SELECT * FROM customers WHERE user_id = userId`: a new Customer built from the first matching
        row (which one, if several match, is the database's choice) with its table link and check-in
        flag copied over, or null when no row matches. */
    method GetCustomerByUserId(userId: int) returns (c: Customer?)
      ensures c == null <==> forall id :: id in rows ==> rows[id].userId != userId
      ensures c != null ==> fresh(c) && c.customerId in rows && c.userId == userId
      ensures c != null ==> var row := rows[c.customerId];
        row.userId == userId && c.name == row.name && c.tableId == row.tableId && c.checkedIn == row.checkedIn
    {
      if exists id :: id in rows && rows[id].userId == userId {
        var id :| id in rows && rows[id].userId == userId;
        var row := rows[id];
        c := new Customer(id, row.userId, row.name);
        c.SetTableId(row.tableId);
        c.SetCheckedIn(row.checkedIn);
      } else {
        c := null;
      }
    }
  }
}
