/** The waiting line of customers (util/QueueManager.java): first in, first out, and only the
    customer at the head is ever matched against a free table. */
module Queue {
  import opened Wrappers
  import opened TableDao
  import opened CustomerModel
  import opened CustomerDao

  /** What one `tryAssignFreeTable` call does, between the queue and relations it starts from
      (unprimed) and the ones it leaves (primed). `served` is the table the head customer leaves
      the queue with, if any.
      - An empty queue, or no free table: nothing changes.
      - Otherwise some free table is booked. If the head customer's row exists, that row is linked
        to the table and the head leaves the queue; if not, the linking fails, the head stays, and
        the booking is not undone. */
  ghost predicate Drained(q: seq<Customer>, tables: map<int, TableRow>, rows: map<int, CustomerRow>, now: Time,
                          q': seq<Customer>, tables': map<int, TableRow>, rows': map<int, CustomerRow>,
                          served: Option<int>)
  {
    if q == [] || NoneFree(tables) then
      q' == q && tables' == tables && rows' == rows && served == None
    else
      exists t :: IsFree(tables, t) && tables' == Booked(tables, t, now) &&
        if q[0].customerId in rows then
          rows' == WithTable(rows, q[0].customerId, t) && q' == q[1..] && served == Some(t)
        else
          rows' == rows && q' == q && served == None
  }

  /** At most one customer leaves per call, and only the head: the rest keep their order. */
  lemma DrainedTakesOnlyTheHead(q: seq<Customer>, tables: map<int, TableRow>, rows: map<int, CustomerRow>, now: Time,
                                q': seq<Customer>, tables': map<int, TableRow>, rows': map<int, CustomerRow>,
                                served: Option<int>)
    requires Drained(q, tables, rows, now, q', tables', rows', served)
    ensures q' == q || (q != [] && q' == q[1..])
    ensures served.Some? <==> (q != [] && q' == q[1..])
    ensures served.Some? ==> IsFree(tables, served.value) && tables' == Booked(tables, served.value, now)
    ensures served.Some? ==> rows' == WithTable(rows, q[0].customerId, served.value)
  {
  }

  /** When the only free table is `t` and the head customer has a row, the drain gives `t` to the head. */
  lemma DrainedOnlyFreeTable(q: seq<Customer>, tables: map<int, TableRow>, rows: map<int, CustomerRow>, now: Time,
                             q': seq<Customer>, tables': map<int, TableRow>, rows': map<int, CustomerRow>,
                             served: Option<int>, t: int)
    requires Drained(q, tables, rows, now, q', tables', rows', served)
    requires IsFree(tables, t) && forall k :: IsFree(tables, k) ==> k == t
    requires q != [] && q[0].customerId in rows
    ensures served == Some(t) && q' == q[1..]
    ensures tables' == Booked(tables, t, now) && rows' == WithTable(rows, q[0].customerId, t)
  {
  }

  class QueueManager {
    var waitingCustomers: seq<Customer>

    constructor ()
      ensures waitingCustomers == []
    {
      waitingCustomers := [];
    }

    /** The customer object `peek` returns, as a frame. */
    function Front(): set<Customer>
      reads this
    {
      if waitingCustomers == [] then {} else {waitingCustomers[0]}
    }

    /** Appends at the tail; a customer already waiting is appended again. */
    method PutCustomerInQueue(customer: Customer)
      modifies this
      ensures waitingCustomers == old(waitingCustomers) + [customer]
    {
      waitingCustomers := waitingCustomers + [customer];
    }

    /** Tries the head of the line against the table the seatless lookup returns, ignoring party
        size. On success the head is removed and its object's `tableId` is set; the other customer
        objects, and the head's `checkedIn`, are left alone. */
    method TryAssignFreeTable(tableDao: TableDAO, customerDao: CustomerDAO, now: Time) returns (ghost served: Option<int>)
      modifies this, tableDao, customerDao, Front()`tableId
      ensures Drained(old(waitingCustomers), old(tableDao.tables), old(customerDao.rows), now,
                      waitingCustomers, tableDao.tables, customerDao.rows, served)
      ensures served.Some? ==> old(waitingCustomers)[0].tableId == served
      ensures served.None? ==> forall c :: c in old(Front()) ==> c.tableId == old(c.tableId)
    {
      served := None;
      if waitingCustomers == [] {
        return;
      }
      var firstPerson := waitingCustomers[0];
      var someTable := tableDao.GetAvailableTable();
      if someTable.Some? {
        var t := someTable.value.tableId;
        var booked := tableDao.AssignTable(t, now);
        var linked := customerDao.AssignTableToCustomer(firstPerson.customerId, t);
        if booked && linked {
          waitingCustomers := waitingCustomers[1..];
          firstPerson.SetTableId(Some(t));
          served := Some(t);
        }
      }
    }
  }
}
