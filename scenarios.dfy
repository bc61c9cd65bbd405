/** Small end-to-end runs of the booking flow over a one-table restaurant, derived from the contracts
    of the operations alone. */
module Scenarios {
  import opened Wrappers
  import opened TableDao
  import opened CustomerModel
  import opened CustomerDao
  import opened Queue
  import opened Monitor
  import opened CustomerServices
  import opened ManagerServices

  /** Table 1, the only table, is held; a customer without a table who asks for one joins the
      waiting line and nothing else changes. */
  method JoinLineWhenNoTableFree() returns (reply: Result<Reply, BookingError>, line: nat, stillBooked: bool, holder: Option<int>)
    ensures reply == Ok(PlacedInWaitingLine) && line == 1 && stillBooked && holder == None
  {
    var tableDao := new TableDAO(map[1 := TableRow(2, true, Some(0))]);
    var customerDao := new CustomerDAO(map[11 := CustomerRow(101, "second", None, false)]);
    var queue := new QueueManager();
    var second := new Customer(11, 101, "second");

    var r, _ := BookTable(tableDao, customerDao, queue, second, 2, 5);
    reply := r;
    line := |queue.waitingCustomers|;
    stillBooked := tableDao.tables[1].booked;
    holder := second.tableId;
  }

  /** Table 1 is held by customer 10 and customer 11 waits in line. The manager frees table 1: the row
      of customer 10 is cleared and customer 11, at the head of the line, gets table 1. */
  method ManualFreeServesHeadOfLine() returns (freed: bool, released: Option<int>, holder: Option<int>, line: nat)
    ensures freed && released == None && holder == Some(11) && line == 0
  {
    var tableDao := new TableDAO(map[1 := TableRow(2, true, Some(0))]);
    var customerDao := new CustomerDAO(map[10 := CustomerRow(100, "first", Some(1), false),
                                           11 := CustomerRow(101, "second", None, false)]);
    var queue := new QueueManager();
    var second := new Customer(11, 101, "second");
    queue.PutCustomerInQueue(second);

    assert HasLinked(customerDao.rows, 1) by { assert customerDao.rows[10].tableId == Some(1); }
    ghost var line0 := queue.waitingCustomers;
    var ok, freedTables, clearedRows, served := FreeTableManually(tableDao, customerDao, queue, 1, 9);
    freed := ok;
    OnlyTableGoesToHead(line0, freedTables, clearedRows, queue.waitingCustomers, tableDao.tables, customerDao.rows, served);
    holder := if customerDao.rows[11].tableId == Some(1) && second.tableId == Some(1) then Some(11) else None;
    released := customerDao.rows[10].tableId;
    line := |queue.waitingCustomers|;
  }

  /** The drain after freeing the only table hands it to the customer at the head of the line. */
  lemma OnlyTableGoesToHead(q: seq<Customer>, freedTables: map<int, TableRow>, clearedRows: map<int, CustomerRow>,
                            q': seq<Customer>, tables': map<int, TableRow>, rows': map<int, CustomerRow>, served: Option<int>)
    requires freedTables == Freed(map[1 := TableRow(2, true, Some(0))], 1)
    requires q != [] && q[0].customerId in clearedRows
    ensures Drained(q, freedTables, clearedRows, 9, q', tables', rows', served) ==>
      served == Some(1) && q' == q[1..] && rows'[q[0].customerId].tableId == Some(1)
  {
    assert freedTables == map[1 := TableRow(2, false, None)];
    if Drained(q, freedTables, clearedRows, 9, q', tables', rows', served) {
      DrainedOnlyFreeTable(q, freedTables, clearedRows, 9, q', tables', rows', served, 1);
    }
  }

  /** Customer 10 books table 1 and never checks in; when the monitor wakes it frees the table and
      clears the row, but the customer object keeps its table id. Checking in afterwards is accepted
      and leaves a row that is checked in while linked to no table. */
  method CheckInAfterReclaim() returns (tableFree: bool, reply: Result<Reply, BookingError>, row: CustomerRow)
    ensures tableFree
    ensures reply == Ok(CheckedIn)
    ensures row.checkedIn && row.tableId.None?
  {
    var tableDao := new TableDAO(map[1 := TableRow(4, true, Some(0))]);
    var customerDao := new CustomerDAO(map[10 := CustomerRow(100, "late", Some(1), false)]);
    var queue := new QueueManager();
    var late := new Customer(10, 100, "late");
    late.SetTableId(Some(1));
    var monitor := new TableMonitorThread(late, 1);

    var _, _, _, _ := monitor.Run(tableDao, customerDao, queue, GracePeriodMillis, false);
    tableFree := IsFree(tableDao.tables, 1);
    assert late.tableId == Some(1);
    reply := CheckIn(customerDao, late);
    row := customerDao.rows[10];
  }

  /** A customer who checked in before the grace period ended keeps the table: the monitor does nothing. */
  method CheckedInKeepsTable() returns (stillBooked: bool, linked: Option<int>)
    ensures stillBooked && linked == Some(1)
  {
    var tableDao := new TableDAO(map[1 := TableRow(4, true, Some(0))]);
    var customerDao := new CustomerDAO(map[10 := CustomerRow(100, "guest", Some(1), true)]);
    var queue := new QueueManager();
    var guest := new Customer(10, 100, "guest");
    guest.SetTableId(Some(1));
    guest.SetCheckedIn(true);
    var monitor := new TableMonitorThread(guest, 1);

    var _, _, _, _ := monitor.Run(tableDao, customerDao, queue, GracePeriodMillis, false);
    stillBooked := tableDao.tables[1].booked;
    linked := customerDao.rows[10].tableId;
  }

  /** Freeing a table that nobody is linked to reports failure and skips the drain, although the table
      ends up free; the customer waiting in line is not served. */
  method ManualFreeOfUnlinkedTable() returns (ok: bool, tableFree: bool, line: nat)
    ensures !ok && tableFree && line == 1
  {
    var tableDao := new TableDAO(map[1 := TableRow(2, true, Some(0))]);
    var customerDao := new CustomerDAO(map[11 := CustomerRow(101, "waiting", None, false)]);
    var queue := new QueueManager();
    var waiting := new Customer(11, 101, "waiting");
    queue.PutCustomerInQueue(waiting);

    assert !HasLinked(customerDao.rows, 1);
    var done, _, _, _ := FreeTableManually(tableDao, customerDao, queue, 1, 9);
    ok := done;
    tableFree := IsFree(tableDao.tables, 1);
    line := |queue.waitingCustomers|;
  }
}
