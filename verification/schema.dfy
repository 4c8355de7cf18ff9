/** The data the reservation core works on: flight legs, the Reservation
    table, the Flights table reduced to its dates, and the result codes. */
module Schema {

  type UserId = int
  type FlightId = int

  /** A calendar day as the Flights table stores it (year, month_id, day_of_month). */
  datatype Date = Date(year: int, month: int, day: int)

  /** A flight leg as a caller hands it to the booking operations: the
      flight's id and the date the leg itself carries. The remaining
      display fields of a flight (carrier, number, cities, duration) play
      no part in booking or cancelling. */
  datatype Leg = Leg(id: FlightId, date: Date)

  /** One row of the Reservation table: (custID, flightID). */
  datatype Row = Row(cust: UserId, flight: FlightId)

  /** The Reservation table. Row order carries no meaning; the table may
      hold the same row more than once, since nothing in the booking path
      rules that out. */
  type Table = seq<Row>

  /** The database as the core sees it: the Flights table as a map from
      flight id to its date, and the Reservation table. */
  datatype Db = Db(flights: map<FlightId, Date>, reservations: Table)

  /** Maximum number of reservations one flight may hold. */
  const MaxFlightBookings: nat := 3

  /** The outcome of a booking attempt. */
  datatype Code = ReservationAdded | ReservationFlightFull | ReservationDayFull {

    /** The integer the booking operation returns for this outcome. */
    function Value(): (n: int)
      ensures 1 <= n <= 3
    {
      match this
      case ReservationAdded => 1
      case ReservationFlightFull => 2
      case ReservationDayFull => 3
    }
  }

  /** Distinct outcomes are reported as distinct integers. */
  lemma CodeValuesDistinct(a: Code, b: Code)
    ensures a.Value() == b.Value() <==> a == b
  {
  }
}
