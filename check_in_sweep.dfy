/**
  The check-in sweep of the `/run` handler: after the booking pass, every booking of
  the user that starts on the host's current local date and is not yet checked in
  gets one `check_in_booking` call. A failing call is recorded with its error text and
  does not stop the sweep.
*/
module CheckInSweep {
  import opened Wrappers
  import opened DateFormats
  import opened Remote
  import opened SeqFacts

  /** The `checkInStatus` of a booking that is already confirmed. */
  const CheckedInStatus := "checkedIn"

  /** The booking starts today (host-local) and is not checked in yet. */
  predicate IsDue(b: Booking, today: Date, localDate: int -> Date) {
    localDate(b.startMillis) == today && b.checkInStatus != Some(CheckedInStatus)
  }

  /** One entry of `checkins`: status `success`, or `failed` with the exception's text. */
  datatype CheckinOutcome = CheckInSucceeded(bookingId: string) | CheckInFailed(bookingId: string, error: string)

  function CheckInCall(b: Booking): Call {
    CheckIn(b.id, b.zoneItemId)
  }

  /** The entry recorded for booking `b` given what `check_in_booking` did. */
  function OutcomeOf(b: Booking, answer: Option<string>): CheckinOutcome {
    match answer
    case None => CheckInSucceeded(b.id)
    case Some(text) => CheckInFailed(b.id, text)
  }

  /** The due bookings, in the order of the bookings list. */
  function Due(bookings: seq<Booking>, today: Date, localDate: int -> Date): (due: seq<Booking>)
    ensures |due| <= |bookings| && forall i :: 0 <= i < |due| ==> IsDue(due[i], today, localDate)
    decreases |bookings|
  {
    if bookings == [] then []
    else
      var last := bookings[|bookings| - 1];
      Due(bookings[..|bookings| - 1], today, localDate) + (if IsDue(last, today, localDate) then [last] else [])
  }

  /** The sweep: the `checkins` list and the calls made, starting from `calls`. */
  function Sweep(bookings: seq<Booking>, remote: Remote, calls: seq<Call>): (seq<CheckinOutcome>, seq<Call>)
    decreases |bookings|
  {
    if bookings == [] then ([], calls)
    else
      var (outcomes, made) := Sweep(bookings[..|bookings| - 1], remote, calls);
      var b := bookings[|bookings| - 1];
      if IsDue(b, remote.today, remote.localDate) then
        (outcomes + [OutcomeOf(b, remote.checkIn(made, CheckInCall(b)))], made + [CheckInCall(b)])
      else (outcomes, made)
  }

  /** Exactly the due bookings are selected, and nothing else. */
  lemma {:induction false} DueExactly(bookings: seq<Booking>, today: Date, localDate: int -> Date)
    ensures forall b :: b in Due(bookings, today, localDate) <==> b in bookings && IsDue(b, today, localDate)
    decreases |bookings|
  {
    if bookings != [] {
      var front := bookings[..|bookings| - 1];
      DueExactly(front, today, localDate);
      FrontLast(bookings);
    }
  }

  lemma SweepSnoc(bookings: seq<Booking>, b: Booking, remote: Remote, calls: seq<Call>)
    ensures var (outcomes, made) := Sweep(bookings, remote, calls);
      Sweep(bookings + [b], remote, calls)
        == if IsDue(b, remote.today, remote.localDate)
           then (outcomes + [OutcomeOf(b, remote.checkIn(made, CheckInCall(b)))], made + [CheckInCall(b)])
           else (outcomes, made)
    ensures Due(bookings + [b], remote.today, remote.localDate)
         == Due(bookings, remote.today, remote.localDate) + (if IsDue(b, remote.today, remote.localDate) then [b] else [])
  {
    SnocFront(bookings, b);
  }

  /**
    Exactly one attempt per due booking: the sweep appends one check-in call per due
    booking, in order, and records one entry per due booking, whatever earlier calls
    answered.
  */
  lemma {:induction false} OneAttemptPerDueBooking(bookings: seq<Booking>, remote: Remote, calls: seq<Call>)
    ensures var (outcomes, made) := Sweep(bookings, remote, calls);
      var due := Due(bookings, remote.today, remote.localDate);
      |outcomes| == |due| && |made| == |calls| + |due| && made[..|calls|] == calls
      && forall i :: 0 <= i < |due| ==> made[|calls| + i] == CheckInCall(due[i])
    decreases |bookings|
  {
    if bookings != [] {
      var front, b := bookings[..|bookings| - 1], bookings[|bookings| - 1];
      FrontLast(bookings);
      OneAttemptPerDueBooking(front, remote, calls);
      SweepSnoc(front, b, remote, calls);
      var (outcomes, made) := Sweep(front, remote, calls);
      var due := Due(front, remote.today, remote.localDate);
      if IsDue(b, remote.today, remote.localDate) {
        var made' := made + [CheckInCall(b)];
        var due' := due + [b];
        assert made'[..|calls|] == made[..|calls|];
        forall i | 0 <= i < |due'| ensures made'[|calls| + i] == CheckInCall(due'[i]) {
          if i < |due| {
            assert made'[|calls| + i] == made[|calls| + i];
          }
        }
      }
    }
  }

  /** The last calls of `calls` are one check-in per booking of `due`, in order. */
  predicate EndsWithCheckIns(calls: seq<Call>, due: seq<Booking>) {
    |due| <= |calls| && forall i :: 0 <= i < |due| ==> calls[|calls| - |due| + i] == CheckInCall(due[i])
  }

  /** The sweep's calls end with one check-in per due booking, and it records one entry per due booking. */
  lemma SweepEndsWithCheckIns(bookings: seq<Booking>, remote: Remote, calls: seq<Call>)
    ensures EndsWithCheckIns(Sweep(bookings, remote, calls).1, Due(bookings, remote.today, remote.localDate))
    ensures |Sweep(bookings, remote, calls).0| == |Due(bookings, remote.today, remote.localDate)|
  {
    OneAttemptPerDueBooking(bookings, remote, calls);
    var made := Sweep(bookings, remote, calls).1;
    var due := Due(bookings, remote.today, remote.localDate);
    forall i | 0 <= i < |due| ensures made[|made| - |due| + i] == CheckInCall(due[i]) {
      assert |made| - |due| + i == |calls| + i;
    }
  }

  /** The sweep only adds check-in calls: every seat booking after it was made before it. */
  lemma {:induction false} SweepBooksNothing(bookings: seq<Booking>, remote: Remote, calls: seq<Call>)
    ensures forall c :: c in Sweep(bookings, remote, calls).1 && !c.CheckIn? ==> c in calls
    decreases |bookings|
  {
    if bookings != [] {
      SweepBooksNothing(bookings[..|bookings| - 1], remote, calls);
    }
  }

  /**
    Entry `i` of `checkins` belongs to due booking `i`: `success` when its check-in
    call returned, `failed` with the error text when it raised.
  */
  lemma {:induction false} OutcomeOfDueBooking(bookings: seq<Booking>, remote: Remote, calls: seq<Call>, i: nat)
    requires i < |Due(bookings, remote.today, remote.localDate)|
    ensures var (outcomes, made) := Sweep(bookings, remote, calls);
      var due := Due(bookings, remote.today, remote.localDate);
      i < |outcomes| && |calls| + i <= |made|
      && outcomes[i] == OutcomeOf(due[i], remote.checkIn(made[..|calls| + i], CheckInCall(due[i])))
    decreases |bookings|
  {
    var front, b := bookings[..|bookings| - 1], bookings[|bookings| - 1];
    FrontLast(bookings);
    SweepSnoc(front, b, remote, calls);
    OneAttemptPerDueBooking(front, remote, calls);
    var (outcomes, made) := Sweep(front, remote, calls);
    var due := Due(front, remote.today, remote.localDate);
    if i < |due| {
      OutcomeOfDueBooking(front, remote, calls, i);
      if IsDue(b, remote.today, remote.localDate) {
        var made' := made + [CheckInCall(b)];
        assert made'[..|calls| + i] == made[..|calls| + i];
      }
    } else {
      assert made[..|calls| + i] == made;
    }
  }

  /**
    The check-in loop of `run`: for each booking, in order, if it is due, call
    `check_in_booking` and record `success`, or `failed` with the error text.
  */
  method CheckInAll(bookings: seq<Booking>, remote: Remote, calls: seq<Call>)
    returns (checkins: seq<CheckinOutcome>, calls': seq<Call>)
    ensures (checkins, calls') == Sweep(bookings, remote, calls)
    ensures |checkins| == |Due(bookings, remote.today, remote.localDate)|
  {
    checkins, calls' := [], calls;
    for i := 0 to |bookings|
      invariant (checkins, calls') == Sweep(bookings[..i], remote, calls)
    {
      var b := bookings[i];
      TakeSnoc(bookings, i);
      SweepSnoc(bookings[..i], b, remote, calls);
      if IsDue(b, remote.today, remote.localDate) {
        var call := CheckInCall(b);
        var answer := remote.checkIn(calls', call);
        match answer {
          case None =>
            checkins := checkins + [CheckInSucceeded(b.id)];
          case Some(text) =>
            checkins := checkins + [CheckInFailed(b.id, text)];
        }
        calls' := calls' + [call];
      }
    }
    TakeAll(bookings);
    OneAttemptPerDueBooking(bookings, remote, calls);
  }
}
