/**
  What the `/run` handler exchanges with the `deskbird` client module and with the
  host. The client's calls are not modelled as code: each is an oracle, a function
  that answers a call given the calls made before it in the same request, so that a
  remote platform that remembers earlier bookings is covered.
*/
module Remote {
  import opened Wrappers
  import opened DateFormats

  /** `SeatInfo`: the platform's resource identifier and zone item of one desk. */
  datatype SeatInfo = SeatInfo(resourceId: string, zoneItemId: int)

  /** One entry of the ordered `favorite_seats` mapping: its name and its desk. */
  datatype FavoriteSeat = FavoriteSeat(name: string, info: SeatInfo)

  /** The body of `POST /run`; `favoriteSeats` is in the mapping's insertion order. */
  datatype RunRequest = RunRequest(
    workspaceId: string,
    favoriteSeats: seq<FavoriteSeat>,
    targetDays: seq<string>,
    excludeDates: seq<string>)

  /** A remote call whose effect the platform can observe. */
  datatype Call =
    | BookSeat(seat: SeatInfo, date: string, workspaceId: string)
    | CheckIn(bookingId: string, zoneItemId: int)

  /**
    One record of the `results` list of `get_user_bookings`: its identifier, its
    `bookingStartTime` in epoch milliseconds, its zone item, and its `checkInStatus`
    (`None` when the record has no such key).
  */
  datatype Booking = Booking(id: string, startMillis: int, zoneItemId: int, checkInStatus: Option<string>)

  /**
    The environment of one request.
    - `upcomingOccurrences(weekday, maxDays)`: `get_upcoming_occurrences`.
    - `bookSeat(history, call)`: whether the result of `book_seat` has a truthy
      `successfulBookings`.
    - `userBookings(history)`: the `results` list of `get_user_bookings` (empty when
      the key is absent).
    - `checkIn(history, call)`: `None` when `check_in_booking` returns, `Some(text)`
      when it raises an exception whose `str` is `text`.
    - `fallbackParse(text)`: the `dateutil` parser, `None` where it raises.
    - `localDate(millis)`: the host-local calendar date of an epoch-millisecond instant.
    - `today`: the host-local date of the request.
  */
  datatype Remote = Remote(
    upcomingOccurrences: (int, int) -> seq<string>,
    bookSeat: (seq<Call>, Call) -> bool,
    userBookings: seq<Call> -> seq<Booking>,
    checkIn: (seq<Call>, Call) -> Option<string>,
    fallbackParse: string -> Option<CalendarDate>,
    localDate: int -> Date,
    today: Date)
}
