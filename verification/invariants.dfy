/** Properties that relate the booking and cancellation operations across
    calls: the capacity limit, the one-booking-per-day rule, idempotent
    cancellation, and the capacity limit over any sequence of calls. */
module Invariants {
  import opened Schema
  import opened Statements
  import opened Transactions
  import opened FlightsDb

  /** Every flight listed in Flights holds at most the maximum number of
      reservations. */
  predicate WithinCapacity(db: Db)
  {
    forall fid :: fid in db.flights ==> Occupancy(db.reservations, fid) <= MaxFlightBookings
  }

  /** No flight appears twice among the legs. */
  predicate DistinctLegs(legs: seq<Leg>)
  {
    forall i, j :: 0 <= i < j < |legs| ==> legs[i].id != legs[j].id
  }

  /** Each leg's own date is the date Flights records for it. */
  predicate LegsScheduled(db: Db, legs: seq<Leg>)
  {
    forall i :: 0 <= i < |legs| ==> legs[i].id in db.flights && db.flights[legs[i].id] == legs[i].date
  }

  /** The rows (user, leg id) for the legs dated `d`, in leg order. */
  function LegsOn(user: UserId, legs: seq<Leg>, d: Date): (rows: Table)
    ensures forall r :: r in rows <==> r.cust == user && exists i :: 0 <= i < |legs| && legs[i].date == d && legs[i].id == r.flight
  {
    if |legs| == 0 then []
    else
      assert forall i :: 1 <= i < |legs| ==> legs[1..][i - 1] == legs[i];
      (if legs[0].date == d then [Row(user, legs[0].id)] else []) + LegsOn(user, legs[1..], d)
  }

  /** With distinct legs, the new rows put at most one reservation on any
      flight, and none on a flight no leg names. */
  lemma {:induction false} LegRowsOccupancy(user: UserId, legs: seq<Leg>, fid: FlightId)
    requires DistinctLegs(legs)
    ensures Occupancy(LegRows(user, legs), fid) <= 1
    ensures !Listed(fid, legs) ==> Occupancy(LegRows(user, legs), fid) == 0
  {
    if |legs| > 0 {
      var rest := legs[1..];
      assert LegRows(user, legs) == [Row(user, legs[0].id)] + LegRows(user, rest);
      LegRowsOccupancy(user, rest, fid);
      OccupancyAppend([Row(user, legs[0].id)], LegRows(user, rest), fid);
      if legs[0].id == fid || !Listed(fid, legs) {
        forall j | 0 <= j < |rest| ensures rest[j].id != fid {
          assert rest[j] == legs[j + 1];
        }
      }
    }
  }

  /** Booking pairwise distinct legs keeps every flight within capacity,
      whatever the outcome. */
  lemma AddKeepsCapacity(c: Conn, user: UserId, year: int, month: int, dayOfMonth: int, legs: seq<Leg>)
    requires c.txn.Idle?
    requires WithinCapacity(c.db)
    requires DistinctLegs(legs)
    ensures WithinCapacity(AddReservations(c, user, year, month, dayOfMonth, legs).conn.db)
  {
    var r := AddReservations(c, user, year, month, dayOfMonth, legs);
    if r.code == ReservationAdded {
      forall fid | fid in r.conn.db.flights
        ensures Occupancy(r.conn.db.reservations, fid) <= MaxFlightBookings
      {
        OccupancyAppend(c.db.reservations, LegRows(user, legs), fid);
        LegRowsOccupancy(user, legs, fid);
        if Listed(fid, legs) {
          var i :| 0 <= i < |legs| && legs[i].id == fid;
          assert !FlightFull(c.db, legs[i].id);
        }
      }
    }
  }

  /** With a leg listed twice, a flight one seat short of full can end up
      over capacity: the checks look only at rows that existed before the
      call, so both copies pass and both are inserted. */
  lemma DuplicateLegOverbooks()
    ensures var d := Date(2024, 3, 1);
            var c := Conn(Db(map[7 := d], [Row(1, 7), Row(2, 7)]), true, Idle, []);
            var r := AddReservations(c, 3, 2024, 3, 1, [Leg(7, d), Leg(7, d)]);
            WithinCapacity(c.db) && r.code == ReservationAdded && Occupancy(r.conn.db.reservations, 7) == 4
  {
    var d := Date(2024, 3, 1);
    var t := [Row(1, 7), Row(2, 7)];
    var c := Conn(Db(map[7 := d], t), true, Idle, []);
    var legs := [Leg(7, d), Leg(7, d)];
    assert t[1..] == [Row(2, 7)] && t[1..][1..] == [];
    assert Occupancy(t, 7) == 2;
    assert WithinCapacity(c.db);
    assert !DayConflict(c.db, 3, legs) by {
      forall i | 0 <= i < |legs| ensures !BookedOnDay(c.db, 3, legs[i].date) {
        forall r | r in t ensures r.cust != 3 {
        }
      }
    }
    assert !SomeLegFull(c.db, legs) by {
      forall i | 0 <= i < |legs| ensures legs[i].id == 7 {
      }
    }
    var rows := LegRows(3, legs);
    assert rows == [Row(3, 7), Row(3, 7)];
    assert rows[1..] == [Row(3, 7)] && rows[1..][1..] == [];
    assert Occupancy(rows, 7) == 2;
    OccupancyAppend(t, rows, 7);
  }

  /** Running the deletes of a cancellation never raises any flight's count. */
  lemma {:induction false} DeleteAllOccupancy(c: Conn, user: UserId, legs: seq<Leg>, fid: FlightId)
    ensures Occupancy(DeleteAll(c, user, legs).db.reservations, fid) <= Occupancy(c.db.reservations, fid)
    decreases |legs|
  {
    if |legs| > 0 {
      var c1 := c.(db := c.db.(reservations := Delete(c.db.reservations, user, legs[0].id)));
      DeleteOccupancy(c.db.reservations, user, legs[0].id, fid);
      DeleteAllOccupancy(c1, user, legs[1..], fid);
    }
  }

  /** Cancelling keeps every flight within capacity. */
  lemma RemoveKeepsCapacity(c: Conn, user: UserId, legs: seq<Leg>)
    requires c.txn.Idle?
    requires WithinCapacity(c.db)
    ensures WithinCapacity(RemoveReservations(c, user, legs).db)
  {
    forall fid | fid in c.db.flights
      ensures Occupancy(RemoveReservations(c, user, legs).db.reservations, fid) <= MaxFlightBookings
    {
      DeleteAllOccupancy(BeginTransaction(c), user, legs, fid);
    }
  }

  /** After a successful booking, the user's reservations on any day are
      those held before plus the new legs dated that day; on a day of one
      of the legs there were none before, so they are exactly the new legs
      of that day. */
  lemma AddSameDay(c: Conn, user: UserId, year: int, month: int, dayOfMonth: int, legs: seq<Leg>, d: Date)
    requires c.txn.Idle?
    requires LegsScheduled(c.db, legs)
    ensures var r := AddReservations(c, user, year, month, dayOfMonth, legs);
            r.code == ReservationAdded ==>
              SameDayRows(r.conn.db.flights, r.conn.db.reservations, user, d)
              == SameDayRows(c.db.flights, c.db.reservations, user, d) + LegsOn(user, legs, d)
    ensures var r := AddReservations(c, user, year, month, dayOfMonth, legs);
            r.code == ReservationAdded && (exists i :: 0 <= i < |legs| && legs[i].date == d) ==>
              SameDayRows(r.conn.db.flights, r.conn.db.reservations, user, d) == LegsOn(user, legs, d)
  {
    var r := AddReservations(c, user, year, month, dayOfMonth, legs);
    if r.code == ReservationAdded {
      SameDayRowsAppend(c.db.flights, c.db.reservations, LegRows(user, legs), user, d);
      NewRowsOnDate(c.db, user, legs, d);
      if exists i :: 0 <= i < |legs| && legs[i].date == d {
        var i :| 0 <= i < |legs| && legs[i].date == d;
        SameDayRowsNonEmpty(c.db, user, legs[i].date);
      }
    }
  }

  /** The same-day query over the new rows finds exactly the legs dated `d`. */
  lemma {:induction false} NewRowsOnDate(db: Db, user: UserId, legs: seq<Leg>, d: Date)
    requires LegsScheduled(db, legs)
    ensures SameDayRows(db.flights, LegRows(user, legs), user, d) == LegsOn(user, legs, d)
  {
    if |legs| > 0 {
      var rest := legs[1..];
      assert LegRows(user, legs) == [Row(user, legs[0].id)] + LegRows(user, rest);
      assert LegsScheduled(db, rest) by {
        forall i | 0 <= i < |rest| ensures rest[i].id in db.flights && db.flights[rest[i].id] == rest[i].date {
          assert rest[i] == legs[i + 1];
        }
      }
      NewRowsOnDate(db, user, rest, d);
      SameDayRowsAppend(db.flights, [Row(user, legs[0].id)], LegRows(user, rest), user, d);
    }
  }

  /** The deletes of a cancellation change nothing when the user holds none
      of the listed flights. */
  lemma {:induction false} DeleteAllAbsent(c: Conn, user: UserId, legs: seq<Leg>)
    requires forall i :: 0 <= i < |legs| ==> Row(user, legs[i].id) !in c.db.reservations
    ensures DeleteAll(c, user, legs).db == c.db
    decreases |legs|
  {
    if |legs| > 0 {
      DeleteAbsent(c.db.reservations, user, legs[0].id);
      var c1 := c.(db := c.db.(reservations := Delete(c.db.reservations, user, legs[0].id)));
      assert c1 == c;
      assert forall i :: 0 <= i < |legs[1..]| ==> legs[1..][i] == legs[i + 1];
      DeleteAllAbsent(c1, user, legs[1..]);
    }
  }

  /** Cancelling flights the user holds no reservation on is a no-op. */
  lemma RemoveUnreservedIsNoop(c: Conn, user: UserId, legs: seq<Leg>)
    requires c.txn.Idle?
    requires forall i :: 0 <= i < |legs| ==> Row(user, legs[i].id) !in c.db.reservations
    ensures RemoveReservations(c, user, legs).db == c.db
  {
    DeleteAllAbsent(BeginTransaction(c), user, legs);
  }

  /** Cancelling twice leaves the same tables as cancelling once. */
  lemma RemoveIdempotent(c: Conn, user: UserId, legs: seq<Leg>)
    requires c.txn.Idle?
    ensures var once := RemoveReservations(c, user, legs);
            RemoveReservations(once, user, legs).db == once.db
  {
    var once := RemoveReservations(c, user, legs);
    forall i | 0 <= i < |legs| ensures Row(user, legs[i].id) !in once.db.reservations {
      assert Listed(Row(user, legs[i].id).flight, legs);
      assert multiset(once.db.reservations)[Row(user, legs[i].id)] == 0;
    }
    RemoveUnreservedIsNoop(once, user, legs);
  }

  /** The year, month and day a caller passes to a booking do not affect
      its outcome. */
  lemma AddIgnoresRequestedDay(c: Conn, user: UserId, legs: seq<Leg>, y1: int, m1: int, d1: int, y2: int, m2: int, d2: int)
    requires c.txn.Idle?
    ensures AddReservations(c, user, y1, m1, d1, legs) == AddReservations(c, user, y2, m2, d2, legs)
  {
  }

  /** One call a client makes on the connection. */
  datatype Request =
    | Reserve(user: UserId, year: int, month: int, dayOfMonth: int, legs: seq<Leg>)
    | Cancel(user: UserId, legs: seq<Leg>)

  /** Serves one request as its own transaction. */
  function Serve(c: Conn, q: Request): (c': Conn)
    requires c.txn.Idle?
    ensures c'.txn.Idle? && c'.autoCommit && c'.db.flights == c.db.flights
  {
    match q
    case Reserve(user, year, month, dayOfMonth, legs) => AddReservations(c, user, year, month, dayOfMonth, legs).conn
    case Cancel(user, legs) => RemoveReservations(c, user, legs)
  }

  /** Serves the requests one after another, each transaction finishing
      before the next begins. */
  function Run(c: Conn, qs: seq<Request>): (c': Conn)
    requires c.txn.Idle?
    ensures c'.txn.Idle? && c'.db.flights == c.db.flights
    decreases |qs|
  {
    if |qs| == 0 then c else Run(Serve(c, qs[0]), qs[1..])
  }

  /** Every booking request names pairwise distinct legs. */
  predicate DistinctBookings(qs: seq<Request>)
  {
    forall i :: 0 <= i < |qs| && qs[i].Reserve? ==> DistinctLegs(qs[i].legs)
  }

  /** Over any sequence of bookings and cancellations whose bookings name
      distinct legs, no flight ever exceeds its capacity. */
  lemma {:induction false} RunKeepsCapacity(c: Conn, qs: seq<Request>)
    requires c.txn.Idle?
    requires WithinCapacity(c.db)
    requires DistinctBookings(qs)
    ensures WithinCapacity(Run(c, qs).db)
    decreases |qs|
  {
    if |qs| > 0 {
      ServeKeepsCapacity(c, qs[0]);
      assert DistinctBookings(qs[1..]) by {
        forall i | 0 <= i < |qs[1..]| && qs[1..][i].Reserve? ensures DistinctLegs(qs[1..][i].legs) {
          assert qs[1..][i] == qs[i + 1];
        }
      }
      RunKeepsCapacity(Serve(c, qs[0]), qs[1..]);
    }
  }

  /** Serving one request keeps every flight within capacity, provided a
      booking names distinct legs. */
  lemma ServeKeepsCapacity(c: Conn, q: Request)
    requires c.txn.Idle?
    requires WithinCapacity(c.db)
    requires q.Reserve? ==> DistinctLegs(q.legs)
    ensures WithinCapacity(Serve(c, q).db)
  {
    match q
    case Reserve(user, year, month, dayOfMonth, legs) =>
      AddKeepsCapacity(c, user, year, month, dayOfMonth, legs);
    case Cancel(user, legs) =>
      RemoveKeepsCapacity(c, user, legs);
  }
}
