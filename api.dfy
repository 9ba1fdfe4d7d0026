/**
  The `POST /run` handler as a whole: normalise the exclusion dates, run the booking
  pass over the requested weekdays, fetch the user's bookings, check in today's, and
  answer with the five response lists.
*/
module Api {
  import opened Wrappers
  import opened DateFormats
  import opened Remote
  import opened BookingPass
  import opened CheckInSweep
  import opened SeqFacts

  /** The JSON body `run` returns. */
  datatype Response = Response(
    bookingsMade: seq<BookingOutcome>,
    bookingsFailed: seq<BookingOutcome>,
    bookingsSkipped: seq<BookingOutcome>,
    checkins: seq<CheckinOutcome>,
    upcomingBookings: seq<Booking>)

  /** The normalised form of each entry of `raw` that has one, dropping the others. */
  function Collect(raw: seq<string>, normalise: string -> Option<string>): set<string>
    decreases |raw|
  {
    if raw == [] then {}
    else
      var more := match normalise(raw[|raw| - 1])
        case None => {}
        case Some(x) => {x};
      Collect(raw[..|raw| - 1], normalise) + more
  }

  lemma CollectPrefix(raw: seq<string>, i: nat, normalise: string -> Option<string>)
    requires i < |raw|
    ensures Collect(raw[..i + 1], normalise)
         == Collect(raw[..i], normalise) + match normalise(raw[i]) case None => {} case Some(y) => {y}
  {
    assert raw[..i + 1][..i] == raw[..i];
  }

  /** `Collect` holds exactly the normalised forms of the entries that have one. */
  lemma {:induction false} CollectExactly(raw: seq<string>, normalise: string -> Option<string>)
    ensures forall x :: x in Collect(raw, normalise) <==> exists i :: 0 <= i < |raw| && normalise(raw[i]) == Some(x)
    decreases |raw|
  {
    if raw != [] {
      var front := raw[..|raw| - 1];
      CollectExactly(front, normalise);
      forall x ensures x in Collect(raw, normalise) <==> exists i :: 0 <= i < |raw| && normalise(raw[i]) == Some(x)
      {
        if x in Collect(front, normalise) {
          var i :| 0 <= i < |front| && normalise(front[i]) == Some(x);
          assert raw[i] == front[i];
        }
        if exists i :: 0 <= i < |raw| && normalise(raw[i]) == Some(x) {
          var i :| 0 <= i < |raw| && normalise(raw[i]) == Some(x);
          if i < |front| {
            assert front[i] == raw[i];
          }
        }
      }
    }
  }

  /** `normalized_excludes`: the `YYYY-MM-DD` form of each exclusion that parses. */
  function Exclusions(raw: seq<string>, fallback: string -> Option<CalendarDate>): set<string> {
    Collect(raw, s => ToYyyyMmDd(s, fallback))
  }

  /**
    The exclusion set holds exactly the results of the exclusions that normalise (an
    unparseable one is dropped without error), and every member is in `YYYY-MM-DD`
    form.
  */
  lemma ExclusionsExactly(raw: seq<string>, fallback: string -> Option<CalendarDate>)
    ensures forall x :: x in Exclusions(raw, fallback) <==>
      exists i :: 0 <= i < |raw| && ToYyyyMmDd(raw[i], fallback) == Some(x)
    ensures forall x :: x in Exclusions(raw, fallback) ==> IsCanonical(x)
  {
    CollectExactly(raw, s => ToYyyyMmDd(s, fallback));
  }

  /**
    The normalisation loop of `run`: each exclusion is normalised and added to the
    set; one that raises is skipped.
  */
  method NormalizeExcludes(raw: seq<string>, fallback: string -> Option<CalendarDate>)
    returns (excludes: set<string>)
    ensures excludes == Exclusions(raw, fallback)
    ensures forall x :: x in excludes <==> exists i :: 0 <= i < |raw| && ToYyyyMmDd(raw[i], fallback) == Some(x)
    ensures forall x :: x in excludes ==> IsCanonical(x)
  {
    ghost var normalise := s => ToYyyyMmDd(s, fallback);
    excludes := {};
    for i := 0 to |raw|
      invariant excludes == Collect(raw[..i], normalise)
    {
      CollectPrefix(raw, i, normalise);
      var normalised := ToYyyyMmDd(raw[i], fallback);
      if normalised.Some? {
        excludes := excludes + {normalised.value};
      }
    }
    TakeAll(raw);
    ExclusionsExactly(raw, fallback);
  }

  /** The seat plan of a request: its favourite seats in order, its workspace, its exclusions. */
  function PlanOf(req: RunRequest, remote: Remote): Plan {
    Plan(req.favoriteSeats, req.workspaceId, Exclusions(req.excludeDates, remote.fallbackParse))
  }

  /** The dates the booking pass visits, in order. */
  function VisitedDates(req: RunRequest, remote: Remote): seq<string> {
    TargetDates(req.targetDays, remote.upcomingOccurrences)
  }

  /**
    What one request does: the response (`None` when a visited date makes
    `to_dd_mm_yyyy` raise, so the request fails) and every remote call made, in order.
  */
  function RunSpec(req: RunRequest, remote: Remote): (Option<Response>, seq<Call>) {
    var p := PassOver(VisitedDates(req, remote), PlanOf(req, remote), remote.bookSeat);
    if p.aborted then (None, p.calls)
    else
      var bookings := remote.userBookings(p.calls);
      var (checkins, calls) := Sweep(bookings, remote, p.calls);
      (Some(Response(Matching(p.log, MadeList), Matching(p.log, FailedList), Matching(p.log, SkippedList),
                     checkins, bookings)),
       calls)
  }

  /** The calls of a request that answers: the booking pass's, then the sweep's. */
  lemma RunCalls(req: RunRequest, remote: Remote)
    ensures var p := PassOver(VisitedDates(req, remote), PlanOf(req, remote), remote.bookSeat);
      RunSpec(req, remote).1 == if p.aborted then p.calls else Sweep(remote.userBookings(p.calls), remote, p.calls).1
  {
  }

  /**
    Every seat booking of a request is for a visited date that is not excluded, in the
    request's workspace.
  */
  lemma RunBooksOnlyVisitedDates(req: RunRequest, remote: Remote)
    ensures forall c :: c in RunSpec(req, remote).1 && c.BookSeat? ==>
      c.date in VisitedDates(req, remote) && c.date !in Exclusions(req.excludeDates, remote.fallbackParse)
      && c.workspaceId == req.workspaceId
  {
    var p := PassOver(VisitedDates(req, remote), PlanOf(req, remote), remote.bookSeat);
    NoBookingForExcludedDates(VisitedDates(req, remote), PlanOf(req, remote), remote.bookSeat);
    SweepBooksNothing(remote.userBookings(p.calls), remote, p.calls);
    RunCalls(req, remote);
  }

  /** A request that answers lists exactly one booking outcome per visited date. */
  lemma RunListsEveryDate(req: RunRequest, remote: Remote)
    requires RunSpec(req, remote).0.Some?
    ensures var r := RunSpec(req, remote).0.value;
      |r.bookingsMade| + |r.bookingsFailed| + |r.bookingsSkipped| == |VisitedDates(req, remote)|
  {
    var dates, plan := VisitedDates(req, remote), PlanOf(req, remote);
    var p := PassOver(dates, plan, remote.bookSeat);
    OneOutcomePerDate(dates, plan, remote.bookSeat);
    Partition(p.log);
    var r := RunSpec(req, remote).0.value;
    assert r.bookingsMade == Matching(p.log, MadeList);
    assert r.bookingsFailed == Matching(p.log, FailedList);
    assert r.bookingsSkipped == Matching(p.log, SkippedList);
    assert |multiset(p.log)| == |p.log|;
  }

  /**
    A request that answers has one check-in entry per due booking among the bookings
    it returns, and its last calls are one check-in per due booking, in order.
  */
  lemma RunChecksInEveryDueBooking(req: RunRequest, remote: Remote)
    requires RunSpec(req, remote).0.Some?
    ensures var due := Due(RunSpec(req, remote).0.value.upcomingBookings, remote.today, remote.localDate);
      |RunSpec(req, remote).0.value.checkins| == |due| && EndsWithCheckIns(RunSpec(req, remote).1, due)
  {
    var p := PassOver(VisitedDates(req, remote), PlanOf(req, remote), remote.bookSeat);
    var bookings := remote.userBookings(p.calls);
    SweepEndsWithCheckIns(bookings, remote, p.calls);
    RunCalls(req, remote);
    assert RunSpec(req, remote).0.value.checkins == Sweep(bookings, remote, p.calls).0;
    assert RunSpec(req, remote).0.value.upcomingBookings == bookings;
  }

  /** A request fails exactly when one of its visited dates cannot be shown in display form. */
  lemma RunFailsIffUnreadableDate(req: RunRequest, remote: Remote)
    ensures RunSpec(req, remote).0.None? <==> exists d :: d in VisitedDates(req, remote) && ToDdMmYyyy(d).None?
  {
    AbortsIffUnreadableDate(VisitedDates(req, remote), PlanOf(req, remote), remote.bookSeat);
  }

  /**
    When the occurrence generator keeps to its contract of returning `YYYY-MM-DD`
    dates, the request always answers.
  */
  lemma CanonicalDatesAlwaysAnswer(req: RunRequest, remote: Remote)
    requires forall d :: d in VisitedDates(req, remote) ==> IsCanonical(d)
    ensures RunSpec(req, remote).0.Some?
  {
    RunFailsIffUnreadableDate(req, remote);
  }

  /**
    The handler `run` after authentication: normalise the exclusions, book, fetch the
    user's bookings, check in today's, and assemble the response.
  */
  method Run(req: RunRequest, remote: Remote) returns (response: Option<Response>, calls: seq<Call>)
    ensures (response, calls) == RunSpec(req, remote)
    ensures response.Some? ==>
      |response.value.bookingsMade| + |response.value.bookingsFailed| + |response.value.bookingsSkipped|
        == |VisitedDates(req, remote)|
    ensures response.Some? ==>
      |response.value.checkins| == |Due(response.value.upcomingBookings, remote.today, remote.localDate)|
    ensures forall c :: c in calls && c.BookSeat? ==>
      c.date in VisitedDates(req, remote) && c.date !in Exclusions(req.excludeDates, remote.fallbackParse)
      && c.workspaceId == req.workspaceId
    ensures response.None? <==> exists d :: d in VisitedDates(req, remote) && ToDdMmYyyy(d).None?
  {
    var excludes := NormalizeExcludes(req.excludeDates, remote.fallbackParse);
    var plan := Plan(req.favoriteSeats, req.workspaceId, excludes);
    var made, failed, skipped, aborted;
    made, failed, skipped, calls, aborted := BookAll(req.targetDays, plan, remote);
    RunBooksOnlyVisitedDates(req, remote);
    RunFailsIffUnreadableDate(req, remote);
    if aborted {
      return None, calls;
    }
    var bookings := remote.userBookings(calls);
    var checkins;
    checkins, calls := CheckInAll(bookings, remote, calls);
    response := Some(Response(made, failed, skipped, checkins, bookings));
    RunListsEveryDate(req, remote);
    RunChecksInEveryDueBooking(req, remote);
  }
}
