/**
  The booking pass of the `/run` handler: every requested weekday name is mapped to
  its index, the upcoming occurrences of that weekday are fetched, and each
  occurrence date is either marked excluded or tried against the favourite seats in
  their order until one booking succeeds.

  `PassOver` is the specification: it folds `Step` over the occurrence dates in
  processing order and records one outcome per date and every booking call made.
  `BookAll` is the handler's loop nest, proved to produce what `PassOver` describes.
*/
module BookingPass {
  import opened Wrappers
  import opened DateFormats
  import opened Remote
  import opened SeqFacts

  /** `weekdays_map`. */
  const WeekdayIndex: map<string, int> :=
    map["Mon" := 0, "Tue" := 1, "Wed" := 2, "Thu" := 3, "Fri" := 4, "Sat" := 5, "Sun" := 6]

  /** The `max_days` passed to `get_upcoming_occurrences`. */
  const LookaheadDays := 10

  /* ---------------- Target dates ---------------- */

  /** The dates one requested weekday name contributes: none for an unknown name. */
  function DatesFor(day: string, occurrences: (int, int) -> seq<string>): seq<string> {
    if day in WeekdayIndex then occurrences(WeekdayIndex[day], LookaheadDays) else []
  }

  /** `DatesFor` as a function value, so that lemmas about the weekday loop never look inside it. */
  function DatesOf(occurrences: (int, int) -> seq<string>): string -> seq<string> {
    day => DatesFor(day, occurrences)
  }

  /** The dates `datesOf` gives for each of `days`, concatenated in order. */
  function Flatten(days: seq<string>, datesOf: string -> seq<string>): seq<string>
    decreases |days|
  {
    if days == [] then []
    else Flatten(days[..|days| - 1], datesOf) + datesOf(days[|days| - 1])
  }

  /** Every occurrence date, in the order the handler processes them. */
  function TargetDates(days: seq<string>, occurrences: (int, int) -> seq<string>): seq<string> {
    Flatten(days, DatesOf(occurrences))
  }

  lemma {:induction false} FlattenAppend(a: seq<string>, b: seq<string>, datesOf: string -> seq<string>)
    ensures Flatten(a + b, datesOf) == Flatten(a, datesOf) + Flatten(b, datesOf)
    decreases |b|
  {
    if b == [] {
      AppendEmpty(a);
    } else {
      AppendFront(a, b);
      FlattenAppend(a, b[..|b| - 1], datesOf);
    }
  }

  lemma FlattenPrefix(days: seq<string>, i: nat, datesOf: string -> seq<string>)
    requires i < |days|
    ensures Flatten(days[..i + 1], datesOf) == Flatten(days[..i], datesOf) + datesOf(days[i])
  {
    TakeSnoc(days, i);
  }

  lemma FlattenSplit(days: seq<string>, i: nat, datesOf: string -> seq<string>)
    requires i < |days|
    ensures Flatten(days, datesOf) == Flatten(days[..i], datesOf) + datesOf(days[i]) + Flatten(days[i + 1..], datesOf)
  {
    TakeDrop(days, i + 1);
    FlattenAppend(days[..i + 1], days[i + 1..], datesOf);
    FlattenPrefix(days, i, datesOf);
  }

  lemma TargetDatesAppend(a: seq<string>, b: seq<string>, occurrences: (int, int) -> seq<string>)
    ensures TargetDates(a + b, occurrences) == TargetDates(a, occurrences) + TargetDates(b, occurrences)
  {
    FlattenAppend(a, b, DatesOf(occurrences));
  }

  /**
    A weekday name outside `Mon`..`Sun` contributes no dates, so removing it from the
    request changes nothing the booking pass does.
  */
  lemma UnknownDayIgnored(a: seq<string>, day: string, b: seq<string>, occurrences: (int, int) -> seq<string>)
    requires day !in WeekdayIndex
    ensures TargetDates(a + [day] + b, occurrences) == TargetDates(a + b, occurrences)
  {
    TargetDatesAppend(a + [day], b, occurrences);
    TargetDatesAppend(a, [day], occurrences);
    TargetDatesAppend(a, b, occurrences);
    assert [day][..0] == [];
  }

  /* ---------------- Outcomes ---------------- */

  /** One entry of `bookings_made`, `bookings_failed` or `bookings_skipped`; `date` is in display form. */
  datatype BookingOutcome =
    | Booked(seat: string, date: string)
    | AllSeatsUnavailable(date: string)
    | Excluded(date: string)

  /** The response list an outcome belongs to. */
  datatype ResponseList = MadeList | FailedList | SkippedList

  /**
    Where the handler appends an outcome: `success` entries to `bookings_made`,
    `all_seats_unavailable` entries to `bookings_failed`, `excluded` entries to
    `bookings_skipped`.
  */
  function ListOf(o: BookingOutcome): ResponseList {
    match o
    case Booked(_, _) => MadeList
    case AllSeatsUnavailable(_) => FailedList
    case Excluded(_) => SkippedList
  }

  /** The entries of `log` that belong to `list`, in their order in `log`. */
  function Matching(log: seq<BookingOutcome>, list: ResponseList): seq<BookingOutcome>
    decreases |log|
  {
    if log == [] then []
    else
      var last := log[|log| - 1];
      Matching(log[..|log| - 1], list) + (if ListOf(last) == list then [last] else [])
  }

  /** `made`, `failed` and `skipped` are the three lists `log` splits into. */
  predicate Splits(log: seq<BookingOutcome>, made: seq<BookingOutcome>, failed: seq<BookingOutcome>,
                   skipped: seq<BookingOutcome>)
  {
    made == Matching(log, MadeList) && failed == Matching(log, FailedList) && skipped == Matching(log, SkippedList)
  }

  lemma MatchingSnoc(log: seq<BookingOutcome>, o: BookingOutcome, list: ResponseList)
    ensures Matching(log + [o], list) == Matching(log, list) + (if ListOf(o) == list then [o] else [])
  {
    assert (log + [o])[..|log|] == log;
  }

  /** Appending an outcome to the log appends it to its own list and to no other. */
  lemma SplitsSnoc(log: seq<BookingOutcome>, made: seq<BookingOutcome>, failed: seq<BookingOutcome>,
                   skipped: seq<BookingOutcome>, o: BookingOutcome)
    requires Splits(log, made, failed, skipped)
    ensures Splits(log + [o], if o.Booked? then made + [o] else made,
                   if o.AllSeatsUnavailable? then failed + [o] else failed,
                   if o.Excluded? then skipped + [o] else skipped)
  {
    MatchingSnoc(log, o, MadeList);
    MatchingSnoc(log, o, FailedList);
    MatchingSnoc(log, o, SkippedList);
  }

  /** The three response lists, as multisets, add up to the outcomes of `log`. */
  predicate PartitionsInto(log: seq<BookingOutcome>) {
    multiset(Matching(log, MadeList)) + multiset(Matching(log, FailedList))
    + multiset(Matching(log, SkippedList)) == multiset(log)
  }

  /**
    The three response lists split the per-date outcomes: every outcome is in exactly
    one of them.
  */
  lemma {:induction false} Partition(log: seq<BookingOutcome>)
    ensures multiset(Matching(log, MadeList)) + multiset(Matching(log, FailedList))
            + multiset(Matching(log, SkippedList)) == multiset(log)
    decreases |log|
  {
    if log != [] {
      Partition(log[..|log| - 1]);
      PartitionStep(log);
    }
  }

  lemma PartitionStep(log: seq<BookingOutcome>)
    requires log != [] && PartitionsInto(log[..|log| - 1])
    ensures PartitionsInto(log)
  {
    var front, last := log[..|log| - 1], log[|log| - 1];
    var made, failed, skipped := Matching(front, MadeList), Matching(front, FailedList), Matching(front, SkippedList);
    FrontLast(log);
    assert multiset(log) == multiset(front) + multiset{last};
    AddToOne(multiset(made), multiset(failed), multiset(skipped), multiset(front), last);
  }

  /** Adding `o` to the one part it belongs to adds it to the sum of the three parts. */
  lemma AddToOne(made: multiset<BookingOutcome>, failed: multiset<BookingOutcome>, skipped: multiset<BookingOutcome>,
                 all: multiset<BookingOutcome>, o: BookingOutcome)
    requires made + failed + skipped == all
    ensures (made + if ListOf(o) == MadeList then multiset{o} else multiset{})
          + (failed + if ListOf(o) == FailedList then multiset{o} else multiset{})
          + (skipped + if ListOf(o) == SkippedList then multiset{o} else multiset{})
         == all + multiset{o}
  {
  }

  /** Each response list holds only outcomes of its own kind. */
  lemma {:induction false} ListsHoldTheirKind(log: seq<BookingOutcome>)
    ensures forall o :: o in Matching(log, MadeList) ==> o.Booked?
    ensures forall o :: o in Matching(log, FailedList) ==> o.AllSeatsUnavailable?
    ensures forall o :: o in Matching(log, SkippedList) ==> o.Excluded?
    decreases |log|
  {
    if log != [] {
      ListsHoldTheirKind(log[..|log| - 1]);
    }
  }

  /* ---------------- Trying seats for one date ---------------- */

  /** What the pass works with: the seats in order, the workspace and the normalised exclusions. */
  datatype Plan = Plan(seats: seq<FavoriteSeat>, workspaceId: string, excludes: set<string>)

  /** The booking calls for `seats`, in order, for one date. */
  function Attempts(seats: seq<FavoriteSeat>, date: string, workspaceId: string): (r: seq<Call>)
    ensures |r| == |seats|
  {
    seq(|seats|, i requires 0 <= i < |seats| => BookSeat(seats[i].info, date, workspaceId))
  }

  /**
    The seat loop from seat `k` on: book each seat in turn, stop at the first that
    succeeds. Returns the winning seat's name, if any, and the calls made so far.
  */
  function TrySeatsFrom(k: nat, date: string, plan: Plan, book: (seq<Call>, Call) -> bool, calls: seq<Call>)
    : (Option<string>, seq<Call>)
    requires k <= |plan.seats|
    decreases |plan.seats| - k
  {
    if k == |plan.seats| then (None, calls)
    else
      var call := BookSeat(plan.seats[k].info, date, plan.workspaceId);
      if book(calls, call) then (Some(plan.seats[k].name), calls + [call])
      else TrySeatsFrom(k + 1, date, plan, book, calls + [call])
  }

  /** Seat `k` is booked when tried right after the seats before it, starting from `calls`. */
  predicate Accepts(k: nat, date: string, plan: Plan, book: (seq<Call>, Call) -> bool, calls: seq<Call>)
    requires k < |plan.seats|
  {
    book(calls + Attempts(plan.seats[..k], date, plan.workspaceId), BookSeat(plan.seats[k].info, date, plan.workspaceId))
  }

  lemma AttemptsSnoc(seats: seq<FavoriteSeat>, k: nat, date: string, workspaceId: string)
    requires k < |seats|
    ensures Attempts(seats[..k + 1], date, workspaceId)
         == Attempts(seats[..k], date, workspaceId) + [BookSeat(seats[k].info, date, workspaceId)]
  {
  }

  lemma {:induction false} FirstAcceptingFrom(j: nat, k: nat, date: string, plan: Plan,
                                              book: (seq<Call>, Call) -> bool, start: seq<Call>, calls: seq<Call>)
    requires j <= k < |plan.seats|
    requires calls == start + Attempts(plan.seats[..j], date, plan.workspaceId)
    requires forall m :: j <= m < k ==> !Accepts(m, date, plan, book, start)
    requires Accepts(k, date, plan, book, start)
    ensures TrySeatsFrom(j, date, plan, book, calls)
         == (Some(plan.seats[k].name), start + Attempts(plan.seats[..k + 1], date, plan.workspaceId))
    decreases k - j
  {
    var call := BookSeat(plan.seats[j].info, date, plan.workspaceId);
    AttemptsSnoc(plan.seats, j, date, plan.workspaceId);
    assert calls + [call] == start + Attempts(plan.seats[..j + 1], date, plan.workspaceId);
    if j < k {
      assert !Accepts(j, date, plan, book, start);
      FirstAcceptingFrom(j + 1, k, date, plan, book, start, calls + [call]);
    }
  }

  lemma {:induction false} NoneAcceptingFrom(j: nat, date: string, plan: Plan,
                                             book: (seq<Call>, Call) -> bool, start: seq<Call>, calls: seq<Call>)
    requires j <= |plan.seats|
    requires calls == start + Attempts(plan.seats[..j], date, plan.workspaceId)
    requires forall m :: j <= m < |plan.seats| ==> !Accepts(m, date, plan, book, start)
    ensures TrySeatsFrom(j, date, plan, book, calls) == (None, start + Attempts(plan.seats, date, plan.workspaceId))
    decreases |plan.seats| - j
  {
    if j == |plan.seats| {
      assert plan.seats[..j] == plan.seats;
    } else {
      var call := BookSeat(plan.seats[j].info, date, plan.workspaceId);
      AttemptsSnoc(plan.seats, j, date, plan.workspaceId);
      assert calls + [call] == start + Attempts(plan.seats[..j + 1], date, plan.workspaceId);
      assert !Accepts(j, date, plan, book, start);
      NoneAcceptingFrom(j + 1, date, plan, book, start, calls + [call]);
    }
  }

  /**
    Stop at the first success: when seat `k` is the first seat whose booking
    succeeds, seats `0..k` are each tried exactly once, in order, no later seat is
    tried, and seat `k` is the one recorded.
  */
  lemma StopsAtFirstSuccess(k: nat, date: string, plan: Plan, book: (seq<Call>, Call) -> bool, calls: seq<Call>)
    requires k < |plan.seats|
    requires forall m :: 0 <= m < k ==> !Accepts(m, date, plan, book, calls)
    requires Accepts(k, date, plan, book, calls)
    ensures TrySeatsFrom(0, date, plan, book, calls)
         == (Some(plan.seats[k].name), calls + Attempts(plan.seats[..k + 1], date, plan.workspaceId))
  {
    assert calls + Attempts(plan.seats[..0], date, plan.workspaceId) == calls;
    FirstAcceptingFrom(0, k, date, plan, book, calls, calls);
  }

  /** When no seat succeeds, every seat is tried exactly once, in order, and there is no winner. */
  lemma AllSeatsTried(date: string, plan: Plan, book: (seq<Call>, Call) -> bool, calls: seq<Call>)
    requires forall m :: 0 <= m < |plan.seats| ==> !Accepts(m, date, plan, book, calls)
    ensures TrySeatsFrom(0, date, plan, book, calls) == (None, calls + Attempts(plan.seats, date, plan.workspaceId))
  {
    assert calls + Attempts(plan.seats[..0], date, plan.workspaceId) == calls;
    NoneAcceptingFrom(0, date, plan, book, calls, calls);
  }

  /** The seat loop only appends booking calls for its own date and workspace. */
  lemma {:induction false} TrySeatsCalls(k: nat, date: string, plan: Plan, book: (seq<Call>, Call) -> bool, calls: seq<Call>)
    requires k <= |plan.seats|
    ensures var r := TrySeatsFrom(k, date, plan, book, calls);
      |calls| <= |r.1| && r.1[..|calls|] == calls
      && forall i :: |calls| <= i < |r.1| ==> r.1[i].BookSeat? && r.1[i].date == date && r.1[i].workspaceId == plan.workspaceId
    decreases |plan.seats| - k
  {
    if k < |plan.seats| {
      var call := BookSeat(plan.seats[k].info, date, plan.workspaceId);
      if !book(calls, call) {
        TrySeatsCalls(k + 1, date, plan, book, calls + [call]);
        var r := TrySeatsFrom(k + 1, date, plan, book, calls + [call]);
        assert r.1[..|calls|] == (r.1[..|calls| + 1])[..|calls|];
      }
    }
  }

  /* ---------------- The pass over all dates ---------------- */

  /**
    The outcome log (one entry per processed date, in order), the booking calls made,
    and whether the request was aborted by a date that `to_dd_mm_yyyy` rejects.
  */
  datatype Pass = Pass(log: seq<BookingOutcome>, calls: seq<Call>, aborted: bool)

  /** The handler's work on one occurrence date. */
  function Step(p: Pass, date: string, plan: Plan, book: (seq<Call>, Call) -> bool): Pass {
    if p.aborted then p
    else if date in plan.excludes then
      match ToDdMmYyyy(date)
      case None => p.(aborted := true)
      case Some(shown) => p.(log := p.log + [Excluded(shown)])
    else
      var (winner, calls) := TrySeatsFrom(0, date, plan, book, p.calls);
      match ToDdMmYyyy(date)
      case None => Pass(p.log, calls, true)
      case Some(shown) =>
        var outcome := if winner.Some? then Booked(winner.value, shown) else AllSeatsUnavailable(shown);
        Pass(p.log + [outcome], calls, false)
  }

  function PassOver(dates: seq<string>, plan: Plan, book: (seq<Call>, Call) -> bool): Pass
    decreases |dates|
  {
    if dates == [] then Pass([], [], false)
    else Step(PassOver(dates[..|dates| - 1], plan, book), dates[|dates| - 1], plan, book)
  }

  lemma SliceSnoc(done: seq<string>, dates: seq<string>, j: nat)
    requires j <= |dates|
    ensures done + dates[..0] == done
    ensures j < |dates| ==> done + dates[..j + 1] == (done + dates[..j]) + [dates[j]]
  {
    assert dates[..0] == [];
    if j < |dates| {
      TakeSnoc(dates, j);
    }
  }

  lemma PassOverSnoc(done: seq<string>, date: string, plan: Plan, book: (seq<Call>, Call) -> bool)
    ensures PassOver(done + [date], plan, book) == Step(PassOver(done, plan, book), date, plan, book)
  {
    SnocFront(done, date);
  }

  /** An excluded date adds one `excluded` entry and makes no booking call. */
  lemma ExcludedStep(p: Pass, date: string, plan: Plan, book: (seq<Call>, Call) -> bool)
    requires !p.aborted && date in plan.excludes
    ensures Step(p, date, plan, book).calls == p.calls
    ensures ToDdMmYyyy(date).Some? ==> Step(p, date, plan, book) == Pass(p.log + [Excluded(ToDdMmYyyy(date).value)], p.calls, false)
  {
  }

  /** A date whose seat `k` is the first to accept is recorded as booked on seat `k` after `k + 1` calls. */
  lemma FirstSuccessStep(p: Pass, date: string, plan: Plan, book: (seq<Call>, Call) -> bool, k: nat)
    requires !p.aborted && date !in plan.excludes && ToDdMmYyyy(date).Some?
    requires k < |plan.seats|
    requires forall m :: 0 <= m < k ==> !Accepts(m, date, plan, book, p.calls)
    requires Accepts(k, date, plan, book, p.calls)
    ensures Step(p, date, plan, book)
         == Pass(p.log + [Booked(plan.seats[k].name, ToDdMmYyyy(date).value)],
                 p.calls + Attempts(plan.seats[..k + 1], date, plan.workspaceId), false)
  {
    StopsAtFirstSuccess(k, date, plan, book, p.calls);
  }

  /** A date no seat accepts gets one call per seat and one `all_seats_unavailable` entry. */
  lemma AllSeatsFailStep(p: Pass, date: string, plan: Plan, book: (seq<Call>, Call) -> bool)
    requires !p.aborted && date !in plan.excludes && ToDdMmYyyy(date).Some?
    requires forall m :: 0 <= m < |plan.seats| ==> !Accepts(m, date, plan, book, p.calls)
    ensures Step(p, date, plan, book)
         == Pass(p.log + [AllSeatsUnavailable(ToDdMmYyyy(date).value)],
                 p.calls + Attempts(plan.seats, date, plan.workspaceId), false)
  {
    AllSeatsTried(date, plan, book, p.calls);
  }

  /** Once a date has aborted the request, later dates change nothing. */
  lemma {:induction false} AbortIsFinal(done: seq<string>, rest: seq<string>, plan: Plan, book: (seq<Call>, Call) -> bool)
    requires PassOver(done, plan, book).aborted
    ensures PassOver(done + rest, plan, book) == PassOver(done, plan, book)
    decreases |rest|
  {
    if rest == [] {
      AppendEmpty(done);
    } else {
      AppendFront(done, rest);
      AbortIsFinal(done, rest[..|rest| - 1], plan, book);
    }
  }

  /**
    The pass aborts exactly when one of its dates cannot be shown in display form:
    excluded or not, every date goes through `to_dd_mm_yyyy`.
  */
  lemma {:induction false} AbortsIffUnreadableDate(dates: seq<string>, plan: Plan, book: (seq<Call>, Call) -> bool)
    ensures PassOver(dates, plan, book).aborted <==> exists d :: d in dates && ToDdMmYyyy(d).None?
    decreases |dates|
  {
    if dates != [] {
      FrontLast(dates);
      AbortsIffUnreadableDate(dates[..|dates| - 1], plan, book);
    }
  }

  /**
    Zero calls for excluded dates: every call of the pass books a seat, for one of the
    processed dates, in the request's workspace, and never for an excluded date.
  */
  lemma {:induction false} NoBookingForExcludedDates(dates: seq<string>, plan: Plan, book: (seq<Call>, Call) -> bool)
    ensures forall c :: c in PassOver(dates, plan, book).calls ==>
      c.BookSeat? && c.date in dates && c.date !in plan.excludes && c.workspaceId == plan.workspaceId
    decreases |dates|
  {
    if dates != [] {
      var front, date := dates[..|dates| - 1], dates[|dates| - 1];
      var p := PassOver(front, plan, book);
      NoBookingForExcludedDates(front, plan, book);
      if !p.aborted && date !in plan.excludes {
        TrySeatsCalls(0, date, plan, book, p.calls);
        var r := TrySeatsFrom(0, date, plan, book, p.calls);
        forall c | c in r.1
          ensures c.BookSeat? && c.date in dates && c.date !in plan.excludes && c.workspaceId == plan.workspaceId
        {
          var i :| 0 <= i < |r.1| && r.1[i] == c;
          if i < |p.calls| {
            assert c == p.calls[i];
            assert c.date in front;
          }
        }
      }
      forall c | c in p.calls ensures c.date in dates {
        assert c.date in front;
      }
    }
  }

  /** `o` is the outcome recorded for `date`: it shows the date in display form and is `excluded` exactly when the date is. */
  predicate Records(o: BookingOutcome, date: string, plan: Plan) {
    ToDdMmYyyy(date) == Some(o.date) && (o.Excluded? <==> date in plan.excludes)
  }

  /** A date that does not abort the pass adds exactly one outcome, carrying the date in display form. */
  lemma StepAddsOneOutcome(p: Pass, date: string, plan: Plan, book: (seq<Call>, Call) -> bool)
    requires !p.aborted && !Step(p, date, plan, book).aborted
    ensures var q := Step(p, date, plan, book);
      |q.log| == |p.log| + 1 && q.log[..|p.log|] == p.log
      && Records(q.log[|p.log|], date, plan)
  {
    var q := Step(p, date, plan, book);
    if date !in plan.excludes {
      var r := TrySeatsFrom(0, date, plan, book, p.calls);
      assert q.log == p.log + [if r.0.Some? then Booked(r.0.value, ToDdMmYyyy(date).value)
                               else AllSeatsUnavailable(ToDdMmYyyy(date).value)];
    }
  }

  /** A pass that is not aborted holds one outcome per processed date. */
  lemma {:induction false} OneOutcomeEach(dates: seq<string>, plan: Plan, book: (seq<Call>, Call) -> bool)
    requires !PassOver(dates, plan, book).aborted
    ensures |PassOver(dates, plan, book).log| == |dates|
    decreases |dates|
  {
    if dates != [] {
      var front := dates[..|dates| - 1];
      assert !PassOver(front, plan, book).aborted;
      OneOutcomeEach(front, plan, book);
      StepAddsOneOutcome(PassOver(front, plan, book), dates[|dates| - 1], plan, book);
    }
  }

  lemma LastOutcome(dates: seq<string>, plan: Plan, book: (seq<Call>, Call) -> bool)
    requires !PassOver(dates, plan, book).aborted && dates != []
    ensures |dates| - 1 < |PassOver(dates, plan, book).log|
    ensures Records(PassOver(dates, plan, book).log[|dates| - 1], dates[|dates| - 1], plan)
  {
    var front, date := dates[..|dates| - 1], dates[|dates| - 1];
    var p, q := PassOver(front, plan, book), PassOver(dates, plan, book);
    assert q == Step(p, date, plan, book);
    assert !p.aborted;
    OneOutcomeEach(front, plan, book);
    StepAddsOneOutcome(p, date, plan, book);
  }

  lemma EarlierOutcomeKept(dates: seq<string>, i: nat, plan: Plan, book: (seq<Call>, Call) -> bool)
    requires !PassOver(dates, plan, book).aborted && i < |dates| - 1
    requires var front := dates[..|dates| - 1];
      i < |PassOver(front, plan, book).log| && Records(PassOver(front, plan, book).log[i], front[i], plan)
    ensures i < |PassOver(dates, plan, book).log| && Records(PassOver(dates, plan, book).log[i], dates[i], plan)
  {
    var front, date := dates[..|dates| - 1], dates[|dates| - 1];
    var p, q := PassOver(front, plan, book), PassOver(dates, plan, book);
    assert q == Step(p, date, plan, book);
    assert !p.aborted;
    StepAddsOneOutcome(p, date, plan, book);
    assert q.log[i] == q.log[..|p.log|][i] == p.log[i];
    assert dates[i] == front[i];
  }

  /** Outcome `i` of a pass that is not aborted is the one recorded for date `i`. */
  lemma {:induction false} OutcomeAt(dates: seq<string>, i: nat, plan: Plan, book: (seq<Call>, Call) -> bool)
    requires !PassOver(dates, plan, book).aborted && i < |dates|
    ensures i < |PassOver(dates, plan, book).log| && Records(PassOver(dates, plan, book).log[i], dates[i], plan)
    decreases |dates|
  {
    if i == |dates| - 1 {
      LastOutcome(dates, plan, book);
    } else {
      var front := dates[..|dates| - 1];
      assert !PassOver(front, plan, book).aborted;
      OutcomeAt(front, i, plan, book);
      EarlierOutcomeKept(dates, i, plan, book);
    }
  }

  /**
    Exactly one outcome per date: a pass that is not aborted records one entry per
    processed date, in processing order; entry `i` shows date `i` in display form and
    is `excluded` exactly when date `i` is excluded.
  */
  lemma OneOutcomePerDate(dates: seq<string>, plan: Plan, book: (seq<Call>, Call) -> bool)
    requires !PassOver(dates, plan, book).aborted
    ensures var log := PassOver(dates, plan, book).log;
      |log| == |dates| && forall i :: 0 <= i < |dates| ==> Records(log[i], dates[i], plan)
  {
    OneOutcomeEach(dates, plan, book);
    forall i | 0 <= i < |dates| ensures Records(PassOver(dates, plan, book).log[i], dates[i], plan) {
      OutcomeAt(dates, i, plan, book);
    }
  }

  lemma TargetDatesPrefix(days: seq<string>, i: nat, occurrences: (int, int) -> seq<string>)
    requires i < |days|
    ensures TargetDates(days[..i + 1], occurrences) == TargetDates(days[..i], occurrences) + DatesFor(days[i], occurrences)
  {
    FlattenPrefix(days, i, DatesOf(occurrences));
  }

  lemma TargetDatesSplit(days: seq<string>, i: nat, occurrences: (int, int) -> seq<string>)
    requires i < |days|
    ensures TargetDates(days, occurrences)
         == TargetDates(days[..i], occurrences) + DatesFor(days[i], occurrences) + TargetDates(days[i + 1..], occurrences)
  {
    FlattenSplit(days, i, DatesOf(occurrences));
  }

  /** The pass up to and including date `j` of weekday `i` aborted, so the whole pass ends there. */
  lemma AbortAt(days: seq<string>, i: nat, done: seq<string>, dates: seq<string>, j: nat,
                plan: Plan, book: (seq<Call>, Call) -> bool, occurrences: (int, int) -> seq<string>)
    requires i < |days| && dates == DatesFor(days[i], occurrences)
    requires j < |dates| && done == TargetDates(days[..i], occurrences)
    requires PassOver(done + dates[..j + 1], plan, book).aborted
    ensures PassOver(TargetDates(days, occurrences), plan, book) == PassOver(done + dates[..j + 1], plan, book)
  {
    TargetDatesSplit(days, i, occurrences);
    var later := TargetDates(days[i + 1..], occurrences);
    Regroup(done, dates, j, later);
    AbortIsFinal(done + dates[..j + 1], dates[j + 1..] + later, plan, book);
  }

  /**
    The body of the date loop of `run` for one occurrence date: skip it when excluded,
    else book the favourite seats in order until one succeeds, and append the date's
    outcome to its list. `aborted` reports the `ValueError` of `to_dd_mm_yyyy` on an
    unreadable date.
  */
  method BookDate(date: string, plan: Plan, book: (seq<Call>, Call) -> bool, ghost log: seq<BookingOutcome>,
                  made: seq<BookingOutcome>, failed: seq<BookingOutcome>, skipped: seq<BookingOutcome>, calls: seq<Call>)
    returns (made': seq<BookingOutcome>, failed': seq<BookingOutcome>, skipped': seq<BookingOutcome>,
             calls': seq<Call>, aborted: bool, ghost log': seq<BookingOutcome>)
    requires Splits(log, made, failed, skipped)
    ensures Step(Pass(log, calls, false), date, plan, book) == Pass(log', calls', aborted)
    ensures Splits(log', made', failed', skipped')
  {
    made', failed', skipped', calls', aborted, log' := made, failed, skipped, calls, false, log;
    if date in plan.excludes {
      var shown := ToDdMmYyyy(date);
      if shown.None? {
        aborted := true;
        return;
      }
      SplitsSnoc(log, made, failed, skipped, Excluded(shown.value));
      skipped' := skipped + [Excluded(shown.value)];
      log' := log + [Excluded(shown.value)];
      return;
    }
    var booked := false;
    var k := 0;
    while k < |plan.seats|
      invariant 0 <= k <= |plan.seats|
      invariant TrySeatsFrom(0, date, plan, book, calls) == TrySeatsFrom(k, date, plan, book, calls')
    {
      var call := BookSeat(plan.seats[k].info, date, plan.workspaceId);
      var ok := book(calls', call);
      calls' := calls' + [call];
      if ok {
        var shown := ToDdMmYyyy(date);
        if shown.None? {
          aborted := true;
          return;
        }
        var outcome := Booked(plan.seats[k].name, shown.value);
        SplitsSnoc(log, made, failed, skipped, outcome);
        made' := made + [outcome];
        log' := log + [outcome];
        booked := true;
        break;
      }
      k := k + 1;
    }
    if !booked {
      var shown := ToDdMmYyyy(date);
      if shown.None? {
        aborted := true;
        return;
      }
      var outcome := AllSeatsUnavailable(shown.value);
      SplitsSnoc(log, made, failed, skipped, outcome);
      failed' := failed + [outcome];
      log' := log + [outcome];
    }
  }

  /**
    The booking loops of `run`: for each requested weekday, for each of its upcoming
    dates, the body `BookDate`. Returns `bookings_made`, `bookings_failed`,
    `bookings_skipped`, the calls made, and whether an unreadable date aborted the
    request.
  */
  method BookAll(days: seq<string>, plan: Plan, remote: Remote)
    returns (made: seq<BookingOutcome>, failed: seq<BookingOutcome>, skipped: seq<BookingOutcome>,
             calls: seq<Call>, aborted: bool)
    ensures var p := PassOver(TargetDates(days, remote.upcomingOccurrences), plan, remote.bookSeat);
      Splits(p.log, made, failed, skipped) && calls == p.calls && aborted == p.aborted
  {
    var occurrences, book := remote.upcomingOccurrences, remote.bookSeat;
    made, failed, skipped, calls, aborted := [], [], [], [], false;
    ghost var log: seq<BookingOutcome> := [];
    ghost var done: seq<string> := [];
    for i := 0 to |days|
      invariant done == TargetDates(days[..i], occurrences)
      invariant PassOver(done, plan, book) == Pass(log, calls, false)
      invariant Splits(log, made, failed, skipped)
    {
      TargetDatesPrefix(days, i, occurrences);
      var day := days[i];
      if day !in WeekdayIndex {
        assert done == TargetDates(days[..i + 1], occurrences);
        continue;
      }
      var dates := occurrences(WeekdayIndex[day], LookaheadDays);
      SliceSnoc(done, dates, 0);
      for j := 0 to |dates|
        invariant PassOver(done + dates[..j], plan, book) == Pass(log, calls, false)
        invariant Splits(log, made, failed, skipped)
      {
        PassOverSnoc(done + dates[..j], dates[j], plan, book);
        SliceSnoc(done, dates, j);
        made, failed, skipped, calls, aborted, log := BookDate(dates[j], plan, book, log, made, failed, skipped, calls);
        if aborted {
          AbortAt(days, i, done, dates, j, plan, book, occurrences);
          return;
        }
      }
      TakeAll(dates);
      done := done + dates;
    }
    TakeAll(days);
  }
}
