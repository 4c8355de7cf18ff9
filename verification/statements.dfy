/** The meaning of the four SQL statements the booking core runs against
    the Reservation table: the same-day lookup, the capacity lookup, the
    insert and the delete. */
module Statements {
  import opened Schema

  /** Row `r` belongs to `user` and is on a flight the Flights table dates
      `d` (the join with Flights drops rows whose flight it does not list). */
  predicate OnDate(flights: map<FlightId, Date>, r: Row, user: UserId, d: Date)
  {
    r.cust == user && r.flight in flights && flights[r.flight] == d
  }

  /** `user` already holds some reservation on day `d`. */
  predicate BookedOnDay(db: Db, user: UserId, d: Date)
  {
    exists r :: r in db.reservations && OnDate(db.flights, r, user, d)
  }

  /** The rows the same-day query returns for day `d` and `user`, in table
      order. */
  function SameDayRows(flights: map<FlightId, Date>, t: Table, user: UserId, d: Date): (rows: Table)
    ensures forall r :: r in rows <==> r in t && OnDate(flights, r, user, d)
    ensures |rows| <= |t|
  {
    if |t| == 0 then []
    else (if OnDate(flights, t[0], user, d) then [t[0]] else []) + SameDayRows(flights, t[1..], user, d)
  }

  /** The same-day query finds a row exactly when the user is booked on
      that day. */
  lemma SameDayRowsNonEmpty(db: Db, user: UserId, d: Date)
    ensures |SameDayRows(db.flights, db.reservations, user, d)| > 0 <==> BookedOnDay(db, user, d)
  {
    var rows := SameDayRows(db.flights, db.reservations, user, d);
    if |rows| > 0 {
      assert rows[0] in rows;
    }
  }

  /** Filtering a table made of two parts filters each part. */
  lemma {:induction false} SameDayRowsAppend(flights: map<FlightId, Date>, a: Table, b: Table, user: UserId, d: Date)
    ensures SameDayRows(flights, a + b, user, d) == SameDayRows(flights, a, user, d) + SameDayRows(flights, b, user, d)
  {
    if |a| == 0 {
      assert a + b == b;
    } else {
      assert (a + b)[0] == a[0];
      assert (a + b)[1..] == a[1..] + b;
      SameDayRowsAppend(flights, a[1..], b, user, d);
    }
  }

  /** Number of rows of `t` on flight `fid`. */
  function Occupancy(t: Table, fid: FlightId): (n: nat)
    ensures n <= |t|
    ensures n > 0 <==> exists r :: r in t && r.flight == fid
  {
    if |t| == 0 then 0
    else (if t[0].flight == fid then 1 else 0) + Occupancy(t[1..], fid)
  }

  /** Counting rows of a table made of two parts counts each part. */
  lemma {:induction false} OccupancyAppend(a: Table, b: Table, fid: FlightId)
    ensures Occupancy(a + b, fid) == Occupancy(a, fid) + Occupancy(b, fid)
  {
    if |a| == 0 {
      assert a + b == b;
    } else {
      assert (a + b)[0] == a[0];
      assert (a + b)[1..] == a[1..] + b;
      OccupancyAppend(a[1..], b, fid);
    }
  }

  /** The result set of the capacity query for flight `fid`: the flight is
      counted through the join with Flights, grouped, and reported only
      when its count exceeds 2. */
  function CapacityRows(db: Db, fid: FlightId): (rows: seq<(FlightId, nat)>)
    ensures |rows| <= 1
    ensures |rows| == 1 <==> fid in db.flights && Occupancy(db.reservations, fid) >= MaxFlightBookings
    ensures |rows| == 1 ==> rows[0] == (fid, Occupancy(db.reservations, fid))
  {
    var n := if fid in db.flights then Occupancy(db.reservations, fid) else 0;
    if n > 2 then [(fid, n)] else []
  }

  /** The insert statement: one new row (user, fid). */
  function Insert(t: Table, user: UserId, fid: FlightId): (t': Table)
    ensures multiset(t') == multiset(t) + multiset{Row(user, fid)}
    ensures |t'| == |t| + 1 && t'[..|t|] == t
  {
    t + [Row(user, fid)]
  }

  /** The delete statement: every row (user, fid) goes, all others stay in
      order. */
  function Delete(t: Table, user: UserId, fid: FlightId): (t': Table)
    ensures forall r :: multiset(t')[r] == if r == Row(user, fid) then 0 else multiset(t)[r]
    ensures |t'| <= |t|
  {
    if |t| == 0 then []
    else
      assert t == [t[0]] + t[1..];
      (if t[0] == Row(user, fid) then [] else [t[0]]) + Delete(t[1..], user, fid)
  }

  /** Deleting a row the table does not hold changes nothing. */
  lemma {:induction false} DeleteAbsent(t: Table, user: UserId, fid: FlightId)
    requires Row(user, fid) !in t
    ensures Delete(t, user, fid) == t
  {
    if |t| > 0 {
      assert t[0] in t;
      assert forall r :: r in t[1..] ==> r in t;
      DeleteAbsent(t[1..], user, fid);
      assert t == [t[0]] + t[1..];
    }
  }

  /** Deleting never raises the number of rows on any flight. */
  lemma {:induction false} DeleteOccupancy(t: Table, user: UserId, fid: FlightId, f: FlightId)
    ensures Occupancy(Delete(t, user, fid), f) <= Occupancy(t, f)
  {
    if |t| > 0 {
      DeleteOccupancy(t[1..], user, fid, f);
      var head: Table := if t[0] == Row(user, fid) then [] else [t[0]];
      OccupancyAppend(head, Delete(t[1..], user, fid), f);
    }
  }
}
