/** Concrete booking and cancellation runs on small tables: a full flight,
    a full second leg, a second booking on the same day, a two-leg booking
    and its cancellation. */
module Scenarios {
  import opened Schema
  import opened Statements
  import opened Transactions
  import opened FlightsDb
  import opened Invariants

  const Day := Date(2024, 3, 1)

  /** An idle connection over `t`, with flights 10, 20, 21, 30 and 31 all
      departing on `Day`. */
  function Fresh(t: Table): (c: Conn)
    ensures c.txn.Idle? && c.db.reservations == t
  {
    Conn(Db(map[10 := Day, 20 := Day, 21 := Day, 30 := Day, 31 := Day], t), true, Idle, [])
  }

  /** Flight 10 already holds three reservations; a fourth user asking for
      it alone gets "flight full" and the flight keeps three rows. */
  lemma FullFlightRejected()
    ensures var c := Fresh([Row(1, 10), Row(2, 10), Row(3, 10)]);
            var r := AddReservations(c, 4, 2024, 3, 1, [Leg(10, Day)]);
            r.code == ReservationFlightFull && Occupancy(r.conn.db.reservations, 10) == 3
  {
    var t := [Row(1, 10), Row(2, 10), Row(3, 10)];
    var c := Fresh(t);
    var legs := [Leg(10, Day)];
    assert t[1..] == [Row(2, 10), Row(3, 10)] && t[1..][1..] == [Row(3, 10)] && t[1..][1..][1..] == [];
    assert Occupancy(t, 10) == 3;
    assert !DayConflict(c.db, 4, legs) by {
      forall r | r in t ensures r.cust != 4 {
      }
    }
    assert FlightFull(c.db, legs[0].id);
  }

  /** A two-leg booking whose second leg is on the full flight 10 is
      rolled back whole: not even the first leg gets a row. */
  lemma SecondLegFullRollsBack()
    ensures var c := Fresh([Row(1, 10), Row(2, 10), Row(3, 10)]);
            var r := AddReservations(c, 4, 2024, 3, 1, [Leg(30, Day), Leg(10, Day)]);
            r.code == ReservationFlightFull && r.conn.db == c.db && Row(4, 30) !in r.conn.db.reservations
  {
    var t := [Row(1, 10), Row(2, 10), Row(3, 10)];
    var c := Fresh(t);
    var legs := [Leg(30, Day), Leg(10, Day)];
    assert t[1..] == [Row(2, 10), Row(3, 10)] && t[1..][1..] == [Row(3, 10)] && t[1..][1..][1..] == [];
    assert Occupancy(t, 10) == 3;
    assert !DayConflict(c.db, 4, legs) by {
      forall r | r in t ensures r.cust != 4 {
      }
    }
    assert FlightFull(c.db, legs[1].id);
  }

  /** A user holding flight 20 cannot book flight 21 on the same day; no
      row is added. */
  lemma SecondBookingSameDayRejected()
    ensures var c := Fresh([Row(4, 20)]);
            var r := AddReservations(c, 4, 2024, 3, 1, [Leg(21, Day)]);
            r.code == ReservationDayFull && r.conn.db == c.db
  {
    var c := Fresh([Row(4, 20)]);
    assert c.db.reservations[0] == Row(4, 20);
    assert OnDate(c.db.flights, Row(4, 20), 4, Day);
    var legs := [Leg(21, Day)];
    assert BookedOnDay(c.db, 4, legs[0].date);
  }

  /** The table of the two-leg booking below: flight 30 at one of three,
      flight 31 at two of three, none of them held by user 4. */
  function Before(): Table
  {
    [Row(1, 30), Row(2, 31), Row(3, 31)]
  }

  /** The seat counts and holders of `Before`. */
  lemma BeforeFacts()
    ensures Occupancy(Before(), 30) == 1 && Occupancy(Before(), 31) == 2
    ensures forall r :: r in Before() ==> r.cust != 4
  {
    var t := Before();
    assert t[1..] == [Row(2, 31), Row(3, 31)] && t[1..][1..] == [Row(3, 31)] && t[1..][1..][1..] == [];
  }

  /** Neither check stops user 4 from booking flights 30 and 31 over
      `Before`. */
  lemma TwoLegChecksPass()
    ensures !DayConflict(Fresh(Before()).db, 4, [Leg(30, Day), Leg(31, Day)])
    ensures !SomeLegFull(Fresh(Before()).db, [Leg(30, Day), Leg(31, Day)])
  {
    BeforeFacts();
    var legs := [Leg(30, Day), Leg(31, Day)];
    assert forall i :: 0 <= i < |legs| ==> legs[i].id == 30 || legs[i].id == 31;
  }

  /** Seat counts once user 4 holds flights 30 and 31 as well. */
  lemma AfterFacts()
    ensures Occupancy(Before() + [Row(4, 30), Row(4, 31)], 30) == 2
    ensures Occupancy(Before() + [Row(4, 30), Row(4, 31)], 31) == 3
  {
    BeforeFacts();
    var rows := [Row(4, 30), Row(4, 31)];
    assert rows[1..] == [Row(4, 31)] && rows[1..][1..] == [];
    OccupancyAppend(Before(), rows, 30);
    OccupancyAppend(Before(), rows, 31);
  }

  /** A two-leg booking on flights with seats left succeeds and fills
      flight 31. */
  lemma TwoLegBookingAdded()
    ensures var r := AddReservations(Fresh(Before()), 4, 2024, 3, 1, [Leg(30, Day), Leg(31, Day)]);
            && r.code == ReservationAdded
            && r.conn.db.reservations == Before() + [Row(4, 30), Row(4, 31)]
            && Occupancy(r.conn.db.reservations, 30) == 2
            && Occupancy(r.conn.db.reservations, 31) == 3
  {
    var legs := [Leg(30, Day), Leg(31, Day)];
    TwoLegChecksPass();
    AfterFacts();
    assert LegRows(4, legs) == [Row(4, 30), Row(4, 31)];
    BookingAddsLegs(Fresh(Before()), 4, legs);
  }

  /** A booking that passes both checks reports success and appends its
      rows. */
  lemma BookingAddsLegs(c: Conn, user: UserId, legs: seq<Leg>)
    requires c.txn.Idle?
    requires !DayConflict(c.db, user, legs) && !SomeLegFull(c.db, legs)
    ensures AddReservations(c, user, 2024, 3, 1, legs).code == ReservationAdded
    ensures AddReservations(c, user, 2024, 3, 1, legs).conn.db.reservations == c.db.reservations + LegRows(user, legs)
  {
  }

  /** Cancelling flights 30 and 31 for user 4 after the booking above
      leaves the rows of the other users. */
  lemma CancelAfterBooking(booked: Conn)
    requires booked.txn.Idle?
    requires booked.db.reservations == Before() + [Row(4, 30), Row(4, 31)]
    ensures multiset(RemoveReservations(booked, 4, [Leg(30, Day), Leg(31, Day)]).db.reservations) == multiset(Before())
  {
    var legs := [Leg(30, Day), Leg(31, Day)];
    var once := RemoveReservations(booked, 4, legs);
    BeforeFacts();
    assert legs[0].id == 30 && legs[1].id == 31;
    assert multiset(booked.db.reservations) == multiset(Before()) + multiset{Row(4, 30), Row(4, 31)};
    forall r ensures multiset(once.db.reservations)[r] == multiset(Before())[r] {
      if r.cust == 4 && Listed(r.flight, legs) {
        assert r !in Before();
      }
    }
  }

  /** Cancelling the two legs just booked removes both rows, and
      cancelling again changes nothing. */
  lemma TwoLegCancellation()
    ensures var booked := AddReservations(Fresh(Before()), 4, 2024, 3, 1, [Leg(30, Day), Leg(31, Day)]).conn;
            var once := RemoveReservations(booked, 4, [Leg(30, Day), Leg(31, Day)]);
            && multiset(once.db.reservations) == multiset(Before())
            && RemoveReservations(once, 4, [Leg(30, Day), Leg(31, Day)]).db == once.db
  {
    TwoLegBookingAdded();
    var legs := [Leg(30, Day), Leg(31, Day)];
    var booked := AddReservations(Fresh(Before()), 4, 2024, 3, 1, legs).conn;
    CancelAfterBooking(booked);
    RemoveIdempotent(booked, 4, legs);
  }
}
