/** Booking and check-in (service/CustomerService.java). The service objects hold no state of their
    own: every DAO they create talks to the one database, which the model passes in explicitly. */
module CustomerServices {
  import opened Wrappers
  import opened TableDao
  import opened CustomerModel
  import opened CustomerDao
  import opened Queue
  import opened Monitor

  /** The BookingException messages, one constructor each. */
  datatype BookingError =
    | AlreadyReserved   // "You already have a table reserved."
    | BookingFailed     // "Booking failed due to internal problem."
    | NoBookingFound    // "No booking found for you, please book table first."
    | CheckInFailed     // "Checkin failed due to some system issue."

  /** The strings returned on success, one constructor each. */
  datatype Reply =
    | TableBooked(tableId: int, requiredSeats: int)   // "Table <id> booked successfully for <seats> people. ..."
    | PlacedInWaitingLine                             // "Sorry no free tables now, but you are placed in waiting line."
    | CheckedIn                                       // "You are now checked in successfully."

  /** `bookTable`. A customer object that already holds a table is refused and nothing changes. If the
      seat-aware lookup finds nothing, the customer joins the waiting line. Otherwise the table is
      booked and the customer's row linked to it; when both succeed the object gets the table and a
      monitor is started for the pair (`monitor`). When the link fails (there is no row for the
      customer) the call fails, the object keeps no table, and the booking is not undone. */
  method BookTable(tableDao: TableDAO, customerDao: CustomerDAO, queue: QueueManager, customer: Customer,
                   requiredSeats: int, now: Time)
    returns (r: Result<Reply, BookingError>, monitor: TableMonitorThread?)
    modifies tableDao, customerDao, queue, customer`tableId
    ensures old(customer.tableId).Some? ==>
      r == Err(AlreadyReserved) && monitor == null && customer.tableId == old(customer.tableId) &&
      tableDao.tables == old(tableDao.tables) && customerDao.rows == old(customerDao.rows) &&
      queue.waitingCustomers == old(queue.waitingCustomers)
    ensures old(customer.tableId).None? ==> r != Err(AlreadyReserved)
    ensures r.Ok? ==> r.value.TableBooked? || r.value.PlacedInWaitingLine?
    ensures r == Ok(PlacedInWaitingLine) ==>
      queue.waitingCustomers == old(queue.waitingCustomers) + [customer] && monitor == null &&
      tableDao.tables == old(tableDao.tables) && customerDao.rows == old(customerDao.rows) &&
      customer.tableId == None
    ensures r.Ok? && r.value.TableBooked? ==>
      var t := r.value.tableId;
      r.value.requiredSeats == requiredSeats && IsFree(old(tableDao.tables), t) &&
      tableDao.tables == Booked(old(tableDao.tables), t, now) &&
      customerDao.rows == WithTable(old(customerDao.rows), customer.customerId, t) &&
      customer.tableId == Some(t) && queue.waitingCustomers == old(queue.waitingCustomers) &&
      monitor != null && fresh(monitor) && monitor.customer == customer && monitor.tableId == t
    ensures r == Err(BookingFailed) ==>
      customer.customerId !in old(customerDao.rows) && customer.tableId == None && monitor == null &&
      customerDao.rows == old(customerDao.rows) && queue.waitingCustomers == old(queue.waitingCustomers) &&
      exists t :: IsFree(old(tableDao.tables), t) && tableDao.tables == Booked(old(tableDao.tables), t, now)
    ensures old(customer.tableId).None? && NoneFree(old(tableDao.tables)) ==> r == Ok(PlacedInWaitingLine)
    ensures old(customer.tableId).None? && customer.customerId in old(customerDao.rows) ==> r.Ok?
  {
    monitor := null;
    if customer.tableId.Some? {
      return Err(AlreadyReserved), null;
    }
    var availableTable := tableDao.GetAvailableTableFor(requiredSeats);
    if availableTable.None? {
      queue.PutCustomerInQueue(customer);
      return Ok(PlacedInWaitingLine), null;
    }
    var t := availableTable.value.tableId;
    var tableBooked := tableDao.AssignTable(t, now);
    var customerLinked := customerDao.AssignTableToCustomer(customer.customerId, t);
    if tableBooked && customerLinked {
      customer.SetTableId(Some(t));
      monitor := new TableMonitorThread(customer, t);
      r := Ok(TableBooked(t, requiredSeats));
    } else {
      r := Err(BookingFailed);
    }
  }

  /** `checkIn`. Guarded only by the object's `tableId`, not by the row: the row's flag and then the
      object's are set, and `tableId` is left as it was. */
  method CheckIn(customerDao: CustomerDAO, customer: Customer) returns (r: Result<Reply, BookingError>)
    modifies customerDao, customer`checkedIn
    ensures customer.tableId == old(customer.tableId)
    ensures old(customer.tableId).None? ==>
      r == Err(NoBookingFound) && customerDao.rows == old(customerDao.rows) && customer.checkedIn == old(customer.checkedIn)
    ensures old(customer.tableId).Some? && customer.customerId in old(customerDao.rows) ==>
      r == Ok(CheckedIn) && customerDao.rows == WithCheckIn(old(customerDao.rows), customer.customerId, true) &&
      customer.checkedIn
    ensures old(customer.tableId).Some? && customer.customerId !in old(customerDao.rows) ==>
      r == Err(CheckInFailed) && customerDao.rows == old(customerDao.rows) && customer.checkedIn == old(customer.checkedIn)
  {
    if customer.tableId.None? {
      return Err(NoBookingFound);
    }
    var checkInUpdated := customerDao.UpdateCheckInStatus(customer.customerId, true);
    if checkInUpdated {
      customer.SetCheckedIn(true);
      r := Ok(CheckedIn);
    } else {
      r := Err(CheckInFailed);
    }
  }
}
