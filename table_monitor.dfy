/** The per-booking watchdog (util/TableMonitorThread.java). The thread, its start and its sleep
    are not modelled; `Run` is what the thread does once the grace period has passed. */
module Monitor {
  import opened Wrappers
  import opened TableDao
  import opened CustomerModel
  import opened CustomerDao
  import opened Queue

  /** Twenty minutes, in milliseconds; the same for every booking. */
  const GracePeriodMillis: int := 20 * 60 * 1000

  lemma GracePeriodIsTwentyMinutes()
    ensures GracePeriodMillis == 1200000
  {
  }

  class TableMonitorThread {
    const customer: Customer
    const tableId: int

    constructor (customer: Customer, tableId: int)
      ensures this.customer == customer && this.tableId == tableId
    {
      this.customer := customer;
      this.tableId := tableId;
    }

    /** `interrupted` says the sleep ended with an InterruptedException, in which case nothing happens.
        Otherwise, if the customer object is not checked in, the table is freed, the customer's row is
        cleared, and one drain of the waiting line follows (`reclaimedTables`/`reclaimedRows` are the
        relations between the clearing and the drain). The customer object's `tableId` is not reset: it
        changes only if the drain hands this very object a table from the head of the line. */
    method Run(tableDao: TableDAO, customerDao: CustomerDAO, queue: QueueManager, now: Time, interrupted: bool)
      returns (ghost reclaimed: bool, ghost reclaimedTables: map<int, TableRow>,
               ghost reclaimedRows: map<int, CustomerRow>, ghost served: Option<int>)
      modifies tableDao, customerDao, queue, queue.Front()`tableId
      ensures reclaimed <==> !interrupted && !old(customer.checkedIn)
      ensures !reclaimed ==>
        tableDao.tables == old(tableDao.tables) && customerDao.rows == old(customerDao.rows) &&
        queue.waitingCustomers == old(queue.waitingCustomers) && served == None
      ensures reclaimed ==>
        reclaimedTables == Freed(old(tableDao.tables), tableId) &&
        reclaimedRows == Cleared(old(customerDao.rows), customer.customerId) &&
        Drained(old(queue.waitingCustomers), reclaimedTables, reclaimedRows, now,
                queue.waitingCustomers, tableDao.tables, customerDao.rows, served)
      ensures served.Some? ==> old(queue.waitingCustomers)[0].tableId == served
      ensures served.None? ==> forall c :: c in old(queue.Front()) ==> c.tableId == old(c.tableId)
      ensures customer.checkedIn == old(customer.checkedIn)
      ensures customer.tableId == if served.Some? && old(queue.waitingCustomers)[0] == customer then served else old(customer.tableId)
    {
      reclaimed, reclaimedTables, reclaimedRows, served := false, tableDao.tables, customerDao.rows, None;
      if interrupted {
        return;
      }
      if !customer.checkedIn {
        var _ := tableDao.FreeTable(tableId);
        var _ := customerDao.ClearTableForCustomer(customer.customerId);
        reclaimed, reclaimedTables, reclaimedRows := true, tableDao.tables, customerDao.rows;
        served := queue.TryAssignFreeTable(tableDao, customerDao, now);
      }
    }
  }
}
