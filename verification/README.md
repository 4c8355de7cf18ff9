# FlightsDB reservation core in Dafny

This project models the booking and cancellation core of the FlightsDB
flight-reservation service. A logged-in user books a list of flight legs
(`addReservations`) or cancels them (`removeReservations`). Each call runs
as one database transaction over the Reservation table.

Booking runs three loops inside the transaction:

1. For every leg, the same-day query asks whether the user already holds a
   reservation on a flight dated like that leg. If one does, the booking is
   rolled back and `RESERVATION_DAY_FULL` (3) is returned.
2. For every leg, the capacity query asks whether the leg's flight already
   holds more than two reservations. If one does, the booking is rolled
   back and `RESERVATION_FLIGHT_FULL` (2) is returned.
3. One row `(user, leg id)` is inserted per leg, the transaction commits,
   and `RESERVATION_ADDED` (1) is returned.

Cancellation deletes every `(user, leg id)` row in one transaction and
commits.

The model is functional. The Reservation table is a sequence of
`(custID, flightID)` rows whose order carries no meaning. The Flights table
is a map from flight id to date. The connection is a value holding the
database, the auto-commit flag, the open transaction (with the table as it
stood at BEGIN) and the trace of BEGIN/COMMIT/ROLLBACK statements issued.
Every operation is a pure function from one connection value to the next.

Modules:

- `Schema` (schema.dfy): dates, legs, rows, the database, the capacity
  constant and the result codes.
- `Statements` (statements.dfy): the meaning of the four SQL statements,
  which are the same-day query, the capacity query, the insert and the
  delete.
- `Transactions` (transactions.dfy): begin, commit and rollback, and the
  auto-commit flag they switch.
- `FlightsDb` (flightsdb.dfy): `AddReservations` and `RemoveReservations`,
  with their loops as recursive functions over the legs.
- `Invariants` (invariants.dfy): cross-call properties. These are the
  capacity limit, the one-booking-per-day rule, idempotent cancellation,
  and the capacity limit over any sequence of calls served one after
  another.
- `Scenarios` (scenarios.dfy): concrete runs on small tables.

Three facts about the code that a reader might not expect, all of which
the model follows:

- The code declares `MAX_FLIGHT_BOOKINGS = 3` but never reads it. The
  capacity query hard-codes `HAVING COUNT(flightID) > 2`. The model uses
  the query's `> 2`, and `Statements.CapacityRows` proves that this is the
  same as `count >= MaxFlightBookings`.
- `addReservations` accepts `year`, `month` and `dayOfMonth` but never
  uses them. Each leg is checked against its own date
  (`Invariants.AddIgnoresRequestedDay`).
- The booking path never checks a leg against the other legs of the same
  call. A list that names the same flight twice passes both checks and
  inserts two rows (`Invariants.DuplicateLegOverbooks`). Whether the
  database schema would reject the second insert cannot be seen from the
  code. Storage errors are left out.

## Model

| member | source | states |
|---|---|---|
| `Schema.Code.Value` | FlightsDB.java:177-190 | each outcome is reported as an integer between 1 and 3 |
| `Schema.CodeValuesDistinct` | FlightsDB.java:177-190 | two outcomes get the same integer only if they are the same outcome |
| `Statements.SameDayRows` | FlightsDB.java:74-75 | the same-day query returns a row exactly when it belongs to the user and its flight is listed in Flights with the given date; it never returns more rows than the table holds |
| `Statements.SameDayRowsNonEmpty` | FlightsDB.java:74-75 | the same-day query finds something exactly when the user already holds a reservation on that date |
| `Statements.SameDayRowsAppend` | FlightsDB.java:74-75 | running the same-day query over old rows plus new rows gives the old answer followed by the new answer |
| `Statements.Occupancy` | FlightsDB.java:76-77 | a flight's reservation count is at most the table size, and it is positive exactly when some row is on that flight |
| `Statements.OccupancyAppend` | FlightsDB.java:76-77 | the count over two parts of a table is the sum of the two counts |
| `Statements.CapacityRows` | FlightsDB.java:76-77 | the capacity query returns at most one row; it returns one exactly when the flight is in Flights and holds at least MAX_FLIGHT_BOOKINGS (3) reservations; that row carries the flight id and its count |
| `Statements.Insert` | FlightsDB.java:73 | the insert adds exactly one copy of row (user, flight) and keeps every existing row in place |
| `Statements.Delete` | FlightsDB.java:72 | the delete removes every copy of row (user, flight) and leaves every other row's multiplicity unchanged, including other users' rows on the same flight |
| `Statements.DeleteAbsent` | FlightsDB.java:72 | deleting a row the table does not hold leaves the table identical |
| `Statements.DeleteOccupancy` | FlightsDB.java:72 | a delete never raises any flight's count |
| `Transactions.BeginTransaction` | FlightsDB.java:264-267 | BEGIN switches auto-commit off, opens a transaction that saves the current Reservation table, leaves the data untouched and issues one Begin |
| `Transactions.CommitTransaction` | FlightsDB.java:270-273 | COMMIT keeps the transaction's writes, closes it, restores auto-commit and issues one Commit |
| `Transactions.RollbackTransaction` | FlightsDB.java:276-279 | ROLLBACK puts back the Reservation table saved at BEGIN, closes the transaction, restores auto-commit, leaves Flights alone and issues one Rollback |
| `Transactions.RollbackUndoesTransaction` | FlightsDB.java:276-279 | whatever a transaction wrote, rolling it back returns the database to its state at BEGIN |
| `FlightsDb.DayCheck` | FlightsDB.java:206-219 | the day loop reports a conflict exactly when some leg's own date already carries a reservation by the user |
| `FlightsDb.CapacityCheck` | FlightsDB.java:221-231 | the capacity loop reports a full flight exactly when some leg's flight is in Flights and already holds at least 3 reservations |
| `FlightsDb.InsertAll` | FlightsDB.java:236-241 | the insert loop appends one row (user, leg id) per leg in leg order, changes no existing row, and does not touch the transaction state |
| `FlightsDb.AddReservations` | FlightsDB.java:197-246 | DAY_FULL exactly when some leg's date is already booked by the user, even if a flight is also full; FLIGHT_FULL exactly when there is no day conflict but some leg is full; an empty leg list gives ADDED and changes nothing; a rejection leaves the database as it was; success adds exactly one row per leg; every path issues one Begin then one Commit (on success) or one Rollback, and ends with auto-commit on and no open transaction |
| `FlightsDb.DeleteAll` | FlightsDB.java:253-258 | the delete loop removes every copy of every (user, listed leg) row and keeps every other row's multiplicity |
| `FlightsDb.RemoveReservations` | FlightsDB.java:249-261 | cancellation removes every (user, listed leg) row and nothing else; Flights is untouched; it issues Begin then Commit and ends with auto-commit on |
| `Invariants.LegRowsOccupancy` | FlightsDB.java:236-241 | with distinct legs, the inserted rows put at most one reservation on any flight, and none on a flight no leg names |
| `Invariants.AddKeepsCapacity` | FlightsDB.java:221-241 | if every flight listed in Flights holds at most 3 reservations and the legs are distinct, every flight listed in Flights still holds at most 3 after the booking, whatever the outcome |
| `Invariants.DuplicateLegOverbooks` | FlightsDB.java:206-241 | a list naming a flight twice, when that flight holds 2 reservations, is booked, and the flight ends with 4 |
| `Invariants.DeleteAllOccupancy` | FlightsDB.java:253-258 | the cancellation loop never raises any flight's count |
| `Invariants.RemoveKeepsCapacity` | FlightsDB.java:249-261 | cancellation keeps every flight listed in Flights within capacity |
| `Invariants.NewRowsOnDate` | FlightsDB.java:236-241 | among the inserted rows, the ones on date d are exactly the rows of the legs dated d, in leg order |
| `Invariants.AddSameDay` | FlightsDB.java:206-241 | after a successful booking, the user's rows on any date are the earlier ones followed by the new legs of that date; on the date of any leg they are exactly the new legs of that date |
| `Invariants.DeleteAllAbsent` | FlightsDB.java:253-258 | the cancellation loop leaves the table identical when the user holds none of the listed flights |
| `Invariants.RemoveUnreservedIsNoop` | FlightsDB.java:249-261 | cancelling flights the user does not hold changes no data |
| `Invariants.RemoveIdempotent` | FlightsDB.java:249-261 | cancelling the same legs twice leaves the same data as cancelling once |
| `Invariants.AddIgnoresRequestedDay` | FlightsDB.java:197-210 | the year, month and day passed to a booking do not change its outcome or its effect |
| `Invariants.Serve` | FlightsDB.java:197-261 | serving one booking or cancellation leaves the connection idle with auto-commit on and Flights unchanged |
| `Invariants.Run` | FlightsDB.java:197-261 | serving requests one after another leaves the connection idle and Flights unchanged |
| `Invariants.ServeKeepsCapacity` | FlightsDB.java:221-261 | one booking with distinct legs, or one cancellation, keeps every flight listed in Flights within capacity |
| `Invariants.RunKeepsCapacity` | FlightsDB.java:221-261 | over any sequence of bookings and cancellations whose bookings name distinct legs, no flight listed in Flights ever holds more than 3 reservations |
| `Scenarios.FullFlightRejected` | FlightsDB.java:221-231 | a flight holding 3 reservations rejects a new user with FLIGHT_FULL and still holds 3 |
| `Scenarios.SecondLegFullRollsBack` | FlightsDB.java:221-231 | a two-leg booking whose second leg is full is rolled back and leaves no row for the first leg |
| `Scenarios.SecondBookingSameDayRejected` | FlightsDB.java:206-219 | a user holding a flight on a date gets DAY_FULL for another flight that date, and no row is added |
| `Scenarios.TwoLegBookingAdded` | FlightsDB.java:236-245 | a two-leg booking on flights at 1/3 and 2/3 succeeds and leaves them at 2/3 and 3/3 |
| `Scenarios.CancelAfterBooking` | FlightsDB.java:249-261 | cancelling the two legs booked above removes both new rows and keeps the other users' rows |
| `Scenarios.TwoLegCancellation` | FlightsDB.java:249-261 | booking then cancelling two legs restores the original rows, and cancelling again changes nothing |

## Left out

- Connection setup, statement preparation and the JDBC driver (`open`, `close`, `prepare`) are I/O and foreign library calls.
- `logIn`, `getFlights` and `getReservations` only read data and hold no booking logic. `logIn` and `getReservations` run one query each, and `getFlights` runs two (direct flights, then one-stop pairs). Their ordering and `TOP (99)` truncation happen in the SQL engine.
- Concurrency and serializable isolation are not modelled. Each call is one atomic step, and `Invariants.Run` serves calls strictly one after another. Serializable isolation is what the code relies on to make real executions look like that.
- `SQLException` and `IOException` paths are not modelled. This includes storage-layer constraint violations, such as a key on Reservation rejecting a duplicate insert.
- Nested transactions are not modelled. `BeginTransaction` requires an idle connection, and commit and rollback require an open one. In T-SQL a COMMIT or ROLLBACK with no open transaction is an error, but a BEGIN TRANSACTION inside an open one nests without failing. The code can reach that case: `addReservations` and `removeReservations` have no try/finally, so an `SQLException` after `beginTransaction()` (for example a rejected insert) leaves the transaction open with auto-commit off, and the next call's BEGIN nests inside it. That case arises only from an `SQLException` path, so it is left out with them.
- The join with Customer in the same-day query is taken to match every reservation row. Reservation's custID is assumed to name an existing customer.
- The join with Flights is modelled under three assumptions about the schema that the code does not show:
  - `fid` is a key of Flights. The map holds one date per id. A flight id listed twice in Flights would double the join rows the capacity query counts, and the model would not.
  - The positional `INSERT INTO Reservation VALUES (?, ?)` fills `(custID, flightID)` in that order, as the other statements' column names suggest.
  - A leg whose id Flights does not list is never seen as full, because the capacity query's join drops its rows. So it can collect any number of reservations. The capacity properties (`Invariants.WithinCapacity` and the lemmas built on it) therefore bound only the flights Flights lists, and "every flight" in the rows above means every listed flight.
- A flight's display fields (carrier, number, cities, duration) are dropped from `Leg`. Booking and cancelling read only the id and the date.
- The itinerary shape (one or two legs, connecting cities, one shared date) is not checked by the code, so the model does not require it.
- Integer width: ids and dates are only compared for equality, and counts are tiny, so unbounded integers behave like Java's `int` here.
- The commented-out keyboard pause between the checks and the inserts does nothing.
- `Invariants.AddKeepsCapacity`: requires pairwise distinct legs, because the code does not check a leg against the other legs of the same call (see `Invariants.DuplicateLegOverbooks`).
- `Invariants.AddSameDay`: requires each leg's own date to equal the date Flights records for its id. The check uses the leg's date, while the rows it later finds are dated through Flights, so only legs taken from the Flights table make the two agree.
- `Invariants.RunKeepsCapacity`: requires every booking request to name distinct legs, for the same reason as `Invariants.AddKeepsCapacity`.
