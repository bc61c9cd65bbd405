# Restaurant table booking and waitlist — a Dafny model

This project models the table-allocation core of a restaurant management system written in Java:
booking a table for a customer, checking in, the first-in-first-out waiting line used when no
table is free, the watchdog that reclaims a table from a customer who has not checked in once the
grace period is over, and the two manager operations that free a table (a manual release, and the
release that follows a recorded payment).

The database rows these operations touch are in-memory state:

- `TableDao.TableDAO` holds the `tables` relation as `map<int, TableRow>` (capacity, booked flag,
  booking time), keyed by table id.
- `CustomerDao.CustomerDAO` holds the `customers` relation as `map<int, CustomerRow>` (user id,
  name, nullable table id, checked-in flag), keyed by customer id.
- `CustomerModel.Customer` is the in-memory `Customer` object the services hold and change through
  its setters. It is kept apart from the customer's row because the Java code lets the two diverge.
- `Queue.QueueManager` holds the waiting line as `seq<Customer>` (object references, head first).

Every DAO call returns "some row matched" (`executeUpdate() > 0`); each update is stated as a pure
function of the relation before it (`Booked`, `Freed`, `WithTable`, `Cleared`, `ClearedByTable`,
`WithCheckIn`), and each DAO method ensures its relation afterwards equals that function of the old
one. The Java code opens a new DAO (a new connection) wherever it needs one; all of them reach the
same database, so the model passes the same two store objects to every operation. The service
classes hold nothing but such DAO handles, so `CustomerService.bookTable`/`checkIn` and
`ManagerService.freeTableManually`/`recordPayment` are module-level methods. The watchdog thread is
a class holding its customer and table; its `Run` is the part of `run()` after the sleep.

`QueueManager.tryAssignFreeTable` is specified by the predicate `Queue.Drained`, which relates the
queue and both relations before and after one call. The monitor and the manual release state their
effect as a release step followed by exactly one `Drained` step.

The row lookups that return an arbitrary matching row (`LIMIT 1` with no `ORDER BY`, and the first
row for a user id) are nondeterministic choices in methods. The seat-aware lookup
`getAvailableTable(requiredSeats)` is declared in `TableServiceInterface` and called by `bookTable`,
but `TableDAO` only implements the version with no parameter. It is modelled as returning some free
table or none, with no capacity rule.

## Where the design description and the code disagree (the model follows the code)

- Best fit: the design asks for the smallest free table that seats the party. The waiting-line drain
  uses the lookup with no seat count, and the lookup used for direct booking has no capacity rule
  here, so no fit or size property is claimed.
- Waitlist entries: the design keys entries by party size. The code queues the `Customer` object
  only, so the party size is forgotten once a customer is queued.
- Double booking guard: the design wants `markBooked` to fail on a booked table. `assignTable`
  matches on the id only (`Booked` re-stamps a booked table and reports success).
- Rollback: the design wants a failed link to release the table again. The code does not roll back:
  `BookTable` returning `BookingFailed`, and a drain whose link fails, both leave the table booked.
- Release path: the design has every release clear the customer and drain. `recordPayment` only
  frees the table. `freeTableManually` drains only when the table existed and some customer was
  linked to it. The monitor clears the row by customer id, not by table id.
- Customer invariant: the design says a customer not holding a table is never checked in. The code
  does not keep this: after a reclaim, the customer object still holds its table id, so `checkIn`
  is accepted and leaves a row that is checked in with no table
  (`Scenarios.CheckInAfterReclaim`, `CustomerDao.CheckInWithoutTable`).

## Model

| member | source | states |
|---|---|---|
| `TableDao.Booked` | src/main/java/com/restaurant/dao/TableDAO.java:38-43 | the relation after `assignTable`: that table booked and stamped `now`, capacity kept, every other row and the key set unchanged, "booked iff stamped" preserved; an already booked table is booked again |
| `TableDao.Freed` | src/main/java/com/restaurant/dao/TableDAO.java:51-56 | the relation after `freeTable`: that table free with no booking time, capacity kept, every other row and the key set unchanged, "booked iff stamped" preserved |
| `TableDao.FreeTwice` | src/main/java/com/restaurant/dao/TableDAO.java:51-56 | freeing twice leaves the same relation as freeing once |
| `TableDao.BookThenFree` | src/main/java/com/restaurant/dao/TableDAO.java:38-56 | booking then freeing an existing table gives the same relation as freeing it alone |
| `TableDao.HasMinimum` | src/main/java/com/restaurant/dao/TableDAO.java:66 | every non-empty finite set of table ids has a least id (used to order rows by id) |
| `TableDao.SortedIds` | src/main/java/com/restaurant/dao/TableDAO.java:66 | `ORDER BY table_id`: every id exactly once, strictly ascending |
| `TableDao.Listing` | src/main/java/com/restaurant/dao/TableDAO.java:66-75 | the rows of a relation as `Table` values, one per id, strictly ascending by id, each equal to its row |
| `TableDao.Vacant` | src/main/java/com/restaurant/dao/TableDAO.java:85 | `WHERE is_booked = FALSE`: exactly the free rows, unchanged |
| `TableDao.TableDAO.GetAvailableTable` | src/main/java/com/restaurant/dao/TableDAO.java:20-35 | returns a free table equal to its row, and none exactly when no table is free; which free table is not fixed |
| `TableDao.TableDAO.GetAvailableTableFor` | src/main/java/com/restaurant/service/interfaces/TableServiceInterface.java:9 | whatever it returns is a free table equal to its row; it may return none |
| `TableDao.TableDAO.AssignTable` | src/main/java/com/restaurant/dao/TableDAO.java:38-48 | true iff the id exists; the relation becomes `Booked(old, id, now)` |
| `TableDao.TableDAO.FreeTable` | src/main/java/com/restaurant/dao/TableDAO.java:51-61 | true iff the id exists (so also on a free table); the relation becomes `Freed(old, id)` |
| `TableDao.TableDAO.GetAllTables` | src/main/java/com/restaurant/dao/TableDAO.java:63-80 | every table once, ascending by id, each equal to its row; a function, so no state changes |
| `TableDao.TableDAO.GetVacantTables` | src/main/java/com/restaurant/dao/TableDAO.java:82-99 | exactly the free tables, ascending by id, each equal to its row; empty iff no table is free |
| `CustomerModel.Customer.constructor` | src/main/java/com/restaurant/model/Customer.java:7-14 | the given ids and name; no table, not checked in; `customerId` is a constant |
| `CustomerModel.Customer.SetTableId` | src/main/java/com/restaurant/model/Customer.java:24-26 | sets `tableId` and changes nothing else |
| `CustomerModel.Customer.SetCheckedIn` | src/main/java/com/restaurant/model/Customer.java:32-34 | sets `checkedIn` and changes nothing else |
| `CustomerDao.WithTable` | src/main/java/com/restaurant/dao/CustomerDAO.java:17-23 | only that customer's `table_id` changes, `is_checked_in` kept, afterwards some row links the table; other rows unchanged |
| `CustomerDao.Cleared` | src/main/java/com/restaurant/dao/CustomerDAO.java:30-35 | that customer's row has no table and is not checked in; other rows unchanged |
| `CustomerDao.ClearedByTable` | src/main/java/com/restaurant/dao/CustomerDAO.java:42-47 | every row linked to the table is released and not checked in, every other row unchanged, no row links the table afterwards |
| `CustomerDao.WithCheckIn` | src/main/java/com/restaurant/dao/CustomerDAO.java:74-80 | only that customer's `is_checked_in` changes; the table link is neither changed nor consulted |
| `CustomerDao.CheckInWithoutTable` | src/main/java/com/restaurant/dao/CustomerDAO.java:74-80 | checking in a row that holds no table yields a row checked in with no table |
| `CustomerDao.ClearAfterAssign` | src/test/java/com/restaurant/dao/CustomerDAOTest.java:73-84 | after linking a table to an existing customer, clearing by customer or by table finds a row, and both clear that row alike |
| `CustomerDao.CustomerDAO.AssignTableToCustomer` | src/main/java/com/restaurant/dao/CustomerDAO.java:17-28 | true iff the customer's row exists; the relation becomes `WithTable(old, c, t)` |
| `CustomerDao.CustomerDAO.ClearTableForCustomer` | src/main/java/com/restaurant/dao/CustomerDAO.java:30-40 | true iff the customer's row exists; the relation becomes `Cleared(old, c)` |
| `CustomerDao.CustomerDAO.ClearCustomerByTableId` | src/main/java/com/restaurant/dao/CustomerDAO.java:42-52 | true iff some row was linked to the table; the relation becomes `ClearedByTable(old, t)` |
| `CustomerDao.CustomerDAO.UpdateCheckInStatus` | src/main/java/com/restaurant/dao/CustomerDAO.java:74-85 | true iff the customer's row exists; the relation becomes `WithCheckIn(old, c, b)` |
| `CustomerDao.CustomerDAO.GetCustomerByUserId` | src/main/java/com/restaurant/dao/CustomerDAO.java:54-72 | null iff no row has that user id; otherwise a new object whose ids, name, nullable table id and flag are copied from a matching row |
| `Queue.QueueManager.constructor` | src/main/java/com/restaurant/util/QueueManager.java:17-21 | the line starts empty |
| `Queue.QueueManager.PutCustomerInQueue` | src/main/java/com/restaurant/util/QueueManager.java:30-33 | the customer is appended at the tail, earlier entries unchanged, no deduplication |
| `Queue.QueueManager.TryAssignFreeTable` | src/main/java/com/restaurant/util/QueueManager.java:35-53 | `Drained` between the old and new queue and relations: empty line or no free table changes nothing; otherwise some free table is booked, and the head leaves with its row linked and its object's `tableId` set exactly when its row exists, the rest keeping order; a failed link leaves the head queued and the table booked; no other customer object changes |
| `Queue.DrainedTakesOnlyTheHead` | src/main/java/com/restaurant/util/QueueManager.java:40-50 | one drain removes nobody or exactly the head; someone is served iff the head left, with a table that was free and is now booked and linked to the head's row |
| `Queue.DrainedOnlyFreeTable` | src/main/java/com/restaurant/util/QueueManager.java:40-50 | when exactly one table is free and the head has a row, the drain gives that table to the head |
| `Monitor.GracePeriodIsTwentyMinutes` | src/main/java/com/restaurant/util/TableMonitorThread.java:23 | the grace period is 20 x 60 x 1000 = 1,200,000 ms |
| `Monitor.TableMonitorThread.constructor` | src/main/java/com/restaurant/util/TableMonitorThread.java:15-18 | the monitor is bound to one customer object and one table |
| `Monitor.TableMonitorThread.Run` | src/main/java/com/restaurant/util/TableMonitorThread.java:21-34 | interrupted, or customer object checked in: nothing changes; otherwise the table is freed, the customer's row cleared, then exactly one `Drained` step; the object's `tableId` is not reset (it changes only if the drain serves this very object) and its flag is kept |
| `CustomerServices.BookTable` | src/main/java/com/restaurant/service/CustomerService.java:33-60 | an object already holding a table is refused with nothing changed; no table found: appended to the line, nothing else changed; success: the free table is booked, the row linked, the object holds the table, and a monitor for the pair is created; a failed link (no row) fails with the object holding no table and the booking not undone; it never fails when the row exists, and waitlists whenever no table is free |
| `CustomerServices.CheckIn` | src/main/java/com/restaurant/service/CustomerService.java:62-74 | no table on the object: refused, nothing changed; otherwise the row's flag then the object's are set when the row exists, else it fails with nothing changed; `tableId` never changes |
| `ManagerServices.FreeTableManually` | src/main/java/com/restaurant/service/ManagerService.java:75-85 | the table is freed and every linked customer row cleared; true, and one `Drained` step, exactly when the table existed and some row was linked; otherwise false and no drain |
| `ManagerServices.RecordPayment` | src/main/java/com/restaurant/service/ManagerService.java:45-68 | true exactly when the payment row was inserted; then the bill's table is freed unless the lookup gave -1; no customer row or queue can change |
| `Scenarios.JoinLineWhenNoTableFree` | src/main/java/com/restaurant/service/CustomerService.java:39-43 | with the only table booked, a request is waitlisted, the line holds one entry, and the table and the customer object are untouched |
| `Scenarios.ManualFreeServesHeadOfLine` | src/main/java/com/restaurant/service/ManagerService.java:75-85 | freeing the only table while one customer waits: the holder's row is released and the waiting customer gets that table, leaving the line empty |
| `Scenarios.OnlyTableGoesToHead` | src/main/java/com/restaurant/util/QueueManager.java:40-50 | after freeing the only table, a drain serves the head with that table |
| `Scenarios.CheckInAfterReclaim` | src/main/java/com/restaurant/util/TableMonitorThread.java:24-29 | a customer who never checked in loses the table at wake-up, yet a later check-in is accepted and leaves the row checked in with no table |
| `Scenarios.CheckedInKeepsTable` | src/main/java/com/restaurant/util/TableMonitorThread.java:24 | a checked-in customer keeps the table and the row link when the monitor wakes |
| `Scenarios.ManualFreeOfUnlinkedTable` | src/main/java/com/restaurant/service/ManagerService.java:76-84 | freeing a booked table nobody is linked to returns false and skips the drain, yet the table ends up free and the waiting customer stays in line |

## Left out

- JDBC, connections and `SQLException`: every DAO call is modelled as succeeding, with its boolean
  meaning "a row matched". A failing connection, which the Java code turns into `false` or `null`,
  is not modelled.
- Threads: `Thread.sleep`, `start()`, the `synchronized` methods and the singleton
  `QueueManager.getInstance`, and races between monitors and other callers are not modelled. `Run`
  is the post-sleep decision as one sequential step. `interrupted` stands for the
  `InterruptedException` from the sleep.
- Clock and time: `NOW()` is the `now` parameter and `booking_time` is an integer. The 20-minute
  sleep is the constant `GracePeriodMillis` only.
- `CustomerServices.BookTable`: the `assignTable` failure branch cannot be reached in this model,
  because the table comes from a lookup of an existing row and rows are never deleted. Only the
  link failure leads to `BookingFailed`.
- `TableDao.TableDAO.GetAvailableTableFor`: the body of the seat-aware lookup is not part of this
  model. It is an arbitrary choice of a free table or none, with no capacity or best-fit rule.
- `ManagerServices.RecordPayment`: the insert into `payments` and the join in `getTableIdFromBill`
  are not modelled. Their results are the `inserted` and `billTableId` parameters.
- Logging, and the user-facing strings: the replies and exception messages are datatype
  constructors (`Reply`, `BookingError`) carrying the table id and seat count that the message
  shows.
- The CLI classes, menus, orders, order items, bills and their totals, payments, staff, login, and
  the model classes other than `Customer` (a table is the `Table`/`TableRow` datatype). These are
  single-statement CRUD or console I/O around the booking core.
