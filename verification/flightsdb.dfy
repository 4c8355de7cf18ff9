/** Booking and cancelling reservations on a list of flight legs, each as
    one transaction on the connection. */
module FlightsDb {
  import opened Schema
  import opened Statements
  import opened Transactions

  /** Some leg's own date already carries a reservation by `user`. */
  predicate DayConflict(db: Db, user: UserId, legs: seq<Leg>)
  {
    exists i :: 0 <= i < |legs| && BookedOnDay(db, user, legs[i].date)
  }

  /** Flight `fid` is listed in Flights and already holds the maximum
      number of reservations. */
  predicate FlightFull(db: Db, fid: FlightId)
  {
    fid in db.flights && Occupancy(db.reservations, fid) >= MaxFlightBookings
  }

  /** Some leg is already on a full flight. */
  predicate SomeLegFull(db: Db, legs: seq<Leg>)
  {
    exists i :: 0 <= i < |legs| && FlightFull(db, legs[i].id)
  }

  /** `fid` is the id of one of the legs. */
  predicate Listed(fid: FlightId, legs: seq<Leg>)
  {
    exists i :: 0 <= i < |legs| && legs[i].id == fid
  }

  /** One reservation row (user, leg id) per leg, in leg order. */
  function LegRows(user: UserId, legs: seq<Leg>): Table
  {
    seq(|legs|, i requires 0 <= i < |legs| => Row(user, legs[i].id))
  }

  /** The first loop of the booking: runs the same-day query for each leg's
      own date and stops at the first one that finds a row. */
  function DayCheck(db: Db, user: UserId, legs: seq<Leg>): (conflict: bool)
    ensures conflict <==> DayConflict(db, user, legs)
  {
    if |legs| == 0 then false
    else
      SameDayRowsNonEmpty(db, user, legs[0].date);
      var rest := DayCheck(db, user, legs[1..]);
      assert rest <==> DayConflict(db, user, legs[1..]);
      assert DayConflict(db, user, legs[1..]) ==> DayConflict(db, user, legs) by {
        if DayConflict(db, user, legs[1..]) {
          var j :| 0 <= j < |legs[1..]| && BookedOnDay(db, user, legs[1..][j].date);
          assert legs[j + 1] == legs[1..][j];
        }
      }
      |SameDayRows(db.flights, db.reservations, user, legs[0].date)| > 0 || rest
  }

  /** The second loop of the booking: runs the capacity query for each leg
      and stops at the first one that reports a full flight. */
  function CapacityCheck(db: Db, legs: seq<Leg>): (full: bool)
    ensures full <==> SomeLegFull(db, legs)
  {
    if |legs| == 0 then false
    else
      var rest := CapacityCheck(db, legs[1..]);
      assert SomeLegFull(db, legs[1..]) ==> SomeLegFull(db, legs) by {
        if SomeLegFull(db, legs[1..]) {
          var j :| 0 <= j < |legs[1..]| && FlightFull(db, legs[1..][j].id);
          assert legs[j + 1] == legs[1..][j];
        }
      }
      |CapacityRows(db, legs[0].id)| > 0 || rest
  }

  /** The third loop of the booking: one insert per leg, in leg order. */
  function InsertAll(c: Conn, user: UserId, legs: seq<Leg>): (c': Conn)
    ensures c'.db.reservations == c.db.reservations + LegRows(user, legs)
    ensures c'.db.flights == c.db.flights
    ensures c'.autoCommit == c.autoCommit && c'.txn == c.txn && c'.log == c.log
    decreases |legs|
  {
    if |legs| == 0 then c
    else
      var c1 := c.(db := c.db.(reservations := Insert(c.db.reservations, user, legs[0].id)));
      var c' := InsertAll(c1, user, legs[1..]);
      assert LegRows(user, legs) == [Row(user, legs[0].id)] + LegRows(user, legs[1..]);
      c'
  }

  /** The outcome of a booking attempt and the connection after it. */
  datatype Reply = Reply(code: Code, conn: Conn)

  /** Books `legs` for `user` in one transaction. The requested
      year/month/day are accepted but not consulted: each leg is checked
      against its own date. All day checks run before any capacity check,
      and both look only at rows that existed before the call. */
  function AddReservations(c: Conn, user: UserId, year: int, month: int, dayOfMonth: int, legs: seq<Leg>): (r: Reply)
    requires c.txn.Idle?
    // outcome precedence
    ensures r.code == ReservationDayFull <==> DayConflict(c.db, user, legs)
    ensures r.code == ReservationFlightFull <==> !DayConflict(c.db, user, legs) && SomeLegFull(c.db, legs)
    ensures |legs| == 0 ==> r.code == ReservationAdded && r.conn.db == c.db
    // effect on the tables
    ensures r.code != ReservationAdded ==> r.conn.db == c.db
    ensures r.code == ReservationAdded ==> r.conn.db == c.db.(reservations := c.db.reservations + LegRows(user, legs))
    // transaction discipline
    ensures r.conn.autoCommit && r.conn.txn.Idle?
    ensures r.conn.log == c.log + [Begin, if r.code == ReservationAdded then Commit else Rollback]
  {
    var c1 := BeginTransaction(c);
    if DayCheck(c1.db, user, legs) then
      Reply(ReservationDayFull, RollbackTransaction(c1))
    else if CapacityCheck(c1.db, legs) then
      Reply(ReservationFlightFull, RollbackTransaction(c1))
    else
      assert LegRows(user, []) == [];
      Reply(ReservationAdded, CommitTransaction(InsertAll(c1, user, legs)))
  }

  /** The loop of the cancellation: one delete per leg, in leg order. */
  function DeleteAll(c: Conn, user: UserId, legs: seq<Leg>): (c': Conn)
    ensures forall r :: multiset(c'.db.reservations)[r] == (if r.cust == user && Listed(r.flight, legs) then 0 else multiset(c.db.reservations)[r])
    ensures c'.db.flights == c.db.flights
    ensures c'.autoCommit == c.autoCommit && c'.txn == c.txn && c'.log == c.log
    decreases |legs|
  {
    if |legs| == 0 then c
    else
      var c1 := c.(db := c.db.(reservations := Delete(c.db.reservations, user, legs[0].id)));
      var c' := DeleteAll(c1, user, legs[1..]);
      assert forall fid :: Listed(fid, legs) <==> fid == legs[0].id || Listed(fid, legs[1..]) by {
        forall fid | Listed(fid, legs[1..]) ensures Listed(fid, legs) {
          var j :| 0 <= j < |legs[1..]| && legs[1..][j].id == fid;
          assert legs[j + 1] == legs[1..][j];
        }
        forall fid | Listed(fid, legs) && fid != legs[0].id ensures Listed(fid, legs[1..]) {
          var j :| 0 <= j < |legs| && legs[j].id == fid;
          assert legs[1..][j - 1] == legs[j];
        }
      }
      c'
  }

  /** Cancels `user`'s reservations on `legs` in one transaction. */
  function RemoveReservations(c: Conn, user: UserId, legs: seq<Leg>): (c': Conn)
    requires c.txn.Idle?
    ensures forall r :: multiset(c'.db.reservations)[r] == (if r.cust == user && Listed(r.flight, legs) then 0 else multiset(c.db.reservations)[r])
    ensures c'.db.flights == c.db.flights
    ensures c'.autoCommit && c'.txn.Idle? && c'.log == c.log + [Begin, Commit]
  {
    CommitTransaction(DeleteAll(BeginTransaction(c), user, legs))
  }
}
