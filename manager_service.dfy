/** The table-freeing operations of service/ManagerService.java. */
module ManagerServices {
  import opened Wrappers
  import opened TableDao
  import opened CustomerModel
  import opened CustomerDao
  import opened Queue

  /** `freeTableManually`. The table is freed and every customer row linked to it cleared, both
      unconditionally; only when both updates matched a row is the waiting line drained once and true
      returned (`freedTables`/`clearedRows` are the relations before that drain). */
  method FreeTableManually(tableDao: TableDAO, customerDao: CustomerDAO, queue: QueueManager, tableId: int, now: Time)
    returns (ok: bool, ghost freedTables: map<int, TableRow>, ghost clearedRows: map<int, CustomerRow>,
             ghost served: Option<int>)
    modifies tableDao, customerDao, queue, queue.Front()`tableId
    ensures freedTables == Freed(old(tableDao.tables), tableId)
    ensures clearedRows == ClearedByTable(old(customerDao.rows), tableId)
    ensures ok <==> tableId in old(tableDao.tables) && HasLinked(old(customerDao.rows), tableId)
    ensures ok ==> Drained(old(queue.waitingCustomers), freedTables, clearedRows, now,
                           queue.waitingCustomers, tableDao.tables, customerDao.rows, served)
    ensures !ok ==>
      tableDao.tables == freedTables && customerDao.rows == clearedRows &&
      queue.waitingCustomers == old(queue.waitingCustomers) && served == None
    ensures served.Some? ==> old(queue.waitingCustomers)[0].tableId == served
    ensures served.None? ==> forall c :: c in old(queue.Front()) ==> c.tableId == old(c.tableId)
  {
    var tableFreed := tableDao.FreeTable(tableId);
    var customerCleared := customerDao.ClearCustomerByTableId(tableId);
    freedTables, clearedRows, served := tableDao.tables, customerDao.rows, None;
    if tableFreed && customerCleared {
      served := queue.TryAssignFreeTable(tableDao, customerDao, now);
      return true, freedTables, clearedRows, served;
    }
    ok := false;
  }

  /** The table-freeing branch of `recordPayment`. Writing the payment row is not modelled:
      `inserted` is whether the INSERT affected a row (false also for an SQL error), and `billTableId`
      is what `getTableIdFromBill` returns, -1 when no order row is found for the bill. The result is
      true exactly when the payment was inserted; the bill's table, if any, is freed, but no customer
      row is cleared and the waiting line is not drained (neither store is touched). */
  method RecordPayment(tableDao: TableDAO, billId: int, inserted: bool, billTableId: int) returns (ok: bool)
    modifies tableDao
    ensures ok == inserted
    ensures tableDao.tables == if inserted && billTableId != -1 then Freed(old(tableDao.tables), billTableId) else old(tableDao.tables)
  {
    if inserted {
      if billTableId != -1 {
        var _ := tableDao.FreeTable(billTableId);
      }
      return true;
    }
    return false;
  }
}
