/** The review scheduler: a variant of the SuperMemo-2 algorithm (P. Wozniak)
    that maps a card's memory state and the quality of an answer to the next
    memory state and the instant of the next review. It departs from SM-2 on
    purpose in one constant: the second interval is 3 days, not 6.

    Instants are milliseconds since the epoch. "Now" and the local time zone
    are passed in as a `Clock`; the zone is a fixed offset from UTC. */
module Sm2 {
  import opened Outcomes
  import opened Time

  /** The learning stage stored with every card. */
  datatype CardState = New | Learning | Review | Relearning

  /** A card's memory state together with the quality (0..5) of the answer. */
  datatype Sm2Input = Sm2Input(quality: int, repetitions: int, easeFactor: real, interval: int)

  /** The new memory state and the instant the card is offered again. */
  datatype Sm2Result = Sm2Result(
    interval: int,
    repetitions: int,
    easeFactor: real,
    nextReviewDate: int,
    state: CardState)

  /** The memory state of a card that has just been created (no date yet). */
  datatype InitialValues = InitialValues(interval: int, repetitions: int, easeFactor: real, state: CardState)

  /** The only error the scheduler raises: a quality outside 0..5. */
  datatype Sm2Error = QualityOutOfRange

  /** The current instant and the local time zone, as an offset east of UTC. */
  datatype Clock = Clock(nowMs: int, utcOffsetMs: int)

  /** The four answer buttons of the review screen, in the order 1..4. */
  datatype Rating = Again | Hard | Good | Easy
  {
    function Code(): (n: int)
      ensures 1 <= n <= 4
    {
      match this
      case Again => 1
      case Hard => 2
      case Good => 3
      case Easy => 4
    }
  }

  const MinEaseFactor: real := 1.3
  const InitialEaseFactor: real := 2.5
  const PassingQuality: int := 3
  const FirstInterval: int := 1
  const SecondInterval: int := 3
  const IntradayDelayMs: int := 10 * MinuteMs

  // ---------------------------------------------------------------------
  // Local calendar days
  // ---------------------------------------------------------------------

  /** True when instant t is 00:00:00.000 local time. */
  predicate IsLocalMidnight(t: int, utcOffsetMs: int)
  {
    (t + utcOffsetMs) % DayMs == 0
  }

  /** `setHours(0, 0, 0, 0)`: the local midnight that starts the day holding t. */
  function StartOfLocalDay(t: int, utcOffsetMs: int): (r: int)
    ensures IsLocalMidnight(r, utcOffsetMs)
    ensures r <= t < r + DayMs
  {
    var local := t + utcOffsetMs;
    assert local == DayMs * (local / DayMs) + local % DayMs;
    t - local % DayMs
  }

  /** Two different local midnights are at least a whole day apart. */
  lemma MidnightsDayApart(a: int, b: int, utcOffsetMs: int)
    requires IsLocalMidnight(a, utcOffsetMs) && IsLocalMidnight(b, utcOffsetMs)
    requires a < b
    ensures a + DayMs <= b
  {
    var qa, qb := (a + utcOffsetMs) / DayMs, (b + utcOffsetMs) / DayMs;
    assert a + utcOffsetMs == DayMs * qa;
    assert b + utcOffsetMs == DayMs * qb;
    assert qa < qb;
    assert DayMs * qb - DayMs * qa == DayMs * (qb - qa);
  }

  /** A midnight that lies within a day's length before t starts t's day. */
  lemma StartOfLocalDayUnique(m: int, t: int, utcOffsetMs: int)
    requires IsLocalMidnight(m, utcOffsetMs)
    requires m <= t < m + DayMs
    ensures StartOfLocalDay(t, utcOffsetMs) == m
  {
    var s := StartOfLocalDay(t, utcOffsetMs);
    if m < s {
      MidnightsDayApart(m, s, utcOffsetMs);
    } else if s < m {
      MidnightsDayApart(s, m, utcOffsetMs);
    }
  }

  /** Local midnight is reached again after `setHours(0, 0, 0, 0)`. */
  lemma StartOfLocalDayIdempotent(t: int, utcOffsetMs: int)
    ensures StartOfLocalDay(StartOfLocalDay(t, utcOffsetMs), utcOffsetMs) == StartOfLocalDay(t, utcOffsetMs)
  {
    StartOfLocalDayUnique(StartOfLocalDay(t, utcOffsetMs), StartOfLocalDay(t, utcOffsetMs), utcOffsetMs);
  }

  /** A later instant never lies on an earlier day. */
  lemma StartOfLocalDayMonotone(t1: int, t2: int, utcOffsetMs: int)
    requires t1 <= t2
    ensures StartOfLocalDay(t1, utcOffsetMs) <= StartOfLocalDay(t2, utcOffsetMs)
  {
    var s1, s2 := StartOfLocalDay(t1, utcOffsetMs), StartOfLocalDay(t2, utcOffsetMs);
    if s2 < s1 {
      MidnightsDayApart(s2, s1, utcOffsetMs);
    }
  }

  /** Moving n days ahead (`setDate(getDate() + n)`) moves the day's start by n days. */
  lemma StartOfLocalDayShift(t: int, n: int, utcOffsetMs: int)
    ensures StartOfLocalDay(t + n * DayMs, utcOffsetMs) == StartOfLocalDay(t, utcOffsetMs) + n * DayMs
  {
    var s := StartOfLocalDay(t, utcOffsetMs);
    var q := (s + utcOffsetMs) / DayMs;
    assert s + utcOffsetMs == DayMs * q;
    assert s + n * DayMs + utcOffsetMs == DayMs * (q + n);
    assert IsLocalMidnight(s + n * DayMs, utcOffsetMs);
    StartOfLocalDayUnique(s + n * DayMs, t + n * DayMs, utcOffsetMs);
  }

  // ---------------------------------------------------------------------
  // calculateSM2
  // ---------------------------------------------------------------------

  /** `Math.round`: the nearest integer, halves rounded up. */
  function Round(x: real): (r: int)
    ensures x - 0.5 < r as real <= x + 0.5
  {
    (x + 0.5).Floor
  }

  /** The ease-factor update, applied to every answer:
      EF' = EF + (0.1 - (5 - q) * (0.08 + (5 - q) * 0.02)), never below 1.3. */
  function NewEaseFactor(easeFactor: real, quality: int): (r: real)
    ensures r >= MinEaseFactor
  {
    var d := (5 - quality) as real;
    var ef := easeFactor + (0.1 - d * (0.08 + d * 0.02));
    if ef < MinEaseFactor then MinEaseFactor else ef
  }

  /** The next review instant: ten minutes ahead for an interval of 0,
      otherwise the local midnight that starts the day `interval` days from now. */
  function NextReviewDate(interval: int, clock: Clock): (date: int)
    ensures interval == 0 ==> date == clock.nowMs + IntradayDelayMs
    ensures interval != 0 ==> IsLocalMidnight(date, clock.utcOffsetMs)
    ensures interval >= 1 ==> clock.nowMs < date <= clock.nowMs + interval * DayMs
  {
    if interval == 0 then clock.nowMs + IntradayDelayMs
    else StartOfLocalDay(clock.nowMs + interval * DayMs, clock.utcOffsetMs)
  }

  /** `calculateSM2`: rejects a quality outside 0..5; otherwise updates the ease
      factor, then resets the card on a failed answer (quality below 3) or
      advances it on a passed one, and schedules the next review. */
  function CalculateSm2(input: Sm2Input, clock: Clock): (r: Result<Sm2Result, Sm2Error>)
    ensures r.Failure? <==> input.quality < 0 || input.quality > 5
    ensures r.Success? ==> r.value.easeFactor == NewEaseFactor(input.easeFactor, input.quality)
    ensures r.Success? ==> r.value.easeFactor >= MinEaseFactor
    ensures r.Success? ==> r.value.repetitions == 0 || r.value.repetitions == input.repetitions + 1
  {
    if input.quality < 0 || input.quality > 5 then
      Failure(QualityOutOfRange)
    else
      var easeFactor := NewEaseFactor(input.easeFactor, input.quality);
      var (repetitions, interval, state) :=
        if input.quality < PassingQuality then
          (0, 0, Relearning)
        else if input.repetitions == 0 then
          (input.repetitions + 1, FirstInterval, Learning)
        else if input.repetitions == 1 then
          (input.repetitions + 1, SecondInterval, Learning)
        else
          (input.repetitions + 1, Round(input.interval as real * easeFactor), Review);
      Success(Sm2Result(interval, repetitions, easeFactor, NextReviewDate(interval, clock), state))
  }

  // ---------------------------------------------------------------------
  // ratingToQuality, isDue, getInitialSM2Values
  // ---------------------------------------------------------------------

  /** `ratingToQuality`: a lookup table from the buttons 1..4 onto the SM-2
      quality scale; any other rating counts as quality 3. */
  function RatingToQuality(rating: int): (q: int)
    ensures 0 <= q <= 5
  {
    var ratingMap := map[1 := 0, 2 := 3, 3 := 4, 4 := 5];
    if rating in ratingMap then ratingMap[rating] else 3
  }

  /** `isDue`: a card without a date is due; otherwise it is due when its date
      is not after the local midnight that started today. */
  function IsDue(nextReviewDate: Option<int>, clock: Clock): (due: bool)
    ensures nextReviewDate.None? ==> due
    ensures nextReviewDate.Some? && clock.nowMs < nextReviewDate.value ==> !due
    ensures nextReviewDate.Some? && nextReviewDate.value <= clock.nowMs - DayMs ==> due
  {
    match nextReviewDate
    case None => true
    case Some(date) => date <= StartOfLocalDay(clock.nowMs, clock.utcOffsetMs)
  }

  /** The memory-state invariant every card keeps: the ease factor stays at or
      above 1.3, a card without successes is new or relearning with interval 0,
      the first two successes give the fixed intervals 1 and 3 while learning,
      and from the third success on the card is in review with an interval
      that has grown by at least a day per success. */
  ghost predicate Consistent(interval: int, repetitions: int, easeFactor: real, state: CardState)
  {
    && easeFactor >= MinEaseFactor
    && repetitions >= 0
    && (repetitions == 0 ==> interval == 0 && (state == New || state == Relearning))
    && (repetitions == 1 ==> interval == FirstInterval && state == Learning)
    && (repetitions == 2 ==> interval == SecondInterval && state == Learning)
    && (repetitions >= 3 ==> interval > repetitions && state == Review)
  }

  /** `getInitialSM2Values`: the memory state of a freshly created card. */
  function InitialSm2Values(): (r: InitialValues)
    ensures r.state == New && r.easeFactor == InitialEaseFactor
    ensures Consistent(r.interval, r.repetitions, r.easeFactor, r.state)
  {
    InitialValues(0, 0, 2.5, New)
  }

  // ---------------------------------------------------------------------
  // Properties of the ease factor
  // ---------------------------------------------------------------------

  /** The change each quality makes to the ease factor before the clamp. */
  function EaseDelta(quality: int): real
    requires 0 <= quality <= 5
  {
    [-0.8, -0.54, -0.32, -0.14, 0.0, 0.1][quality]
  }

  /** The ease-factor formula agrees with the table of its six values. */
  lemma EaseFactorTable(easeFactor: real, quality: int)
    requires 0 <= quality <= 5
    ensures var ef := easeFactor + EaseDelta(quality);
      NewEaseFactor(easeFactor, quality) == if ef < MinEaseFactor then MinEaseFactor else ef
  {
    if quality == 0 {
      assert (5 - quality) as real == 5.0;
    } else if quality == 1 {
      assert (5 - quality) as real == 4.0;
    } else if quality == 2 {
      assert (5 - quality) as real == 3.0;
    } else if quality == 3 {
      assert (5 - quality) as real == 2.0;
    } else if quality == 4 {
      assert (5 - quality) as real == 1.0;
    } else {
      assert (5 - quality) as real == 0.0;
    }
  }

  /** A perfect answer raises the ease factor by 0.1 and quality 4 leaves it
      unchanged; a failed answer lowers it, down to the floor of 1.3. */
  lemma EaseFactorByQuality(easeFactor: real, quality: int)
    requires 0 <= quality <= 5
    requires easeFactor >= MinEaseFactor
    ensures quality == 5 ==> NewEaseFactor(easeFactor, quality) == easeFactor + 0.1
    ensures quality == 4 ==> NewEaseFactor(easeFactor, quality) == easeFactor
    ensures quality < PassingQuality ==>
      NewEaseFactor(easeFactor, quality) < easeFactor || NewEaseFactor(easeFactor, quality) == MinEaseFactor
  {
    EaseFactorTable(easeFactor, quality);
  }

  /** A better answer never yields a smaller ease factor. */
  lemma EaseFactorMonotone(easeFactor: real, q1: int, q2: int)
    requires 0 <= q1 <= q2 <= 5
    ensures NewEaseFactor(easeFactor, q1) <= NewEaseFactor(easeFactor, q2)
  {
    EaseFactorTable(easeFactor, q1);
    EaseFactorTable(easeFactor, q2);
  }

  // ---------------------------------------------------------------------
  // Properties of calculateSM2
  // ---------------------------------------------------------------------

  /** The next review instant: ten minutes ahead exactly when the interval is
      0; otherwise the local midnight `interval` days after today's, which for
      a positive interval lies after now and at most `interval` days ahead. */
  lemma NextReviewDateSpec(interval: int, clock: Clock)
    ensures interval == 0 ==> NextReviewDate(interval, clock) == clock.nowMs + IntradayDelayMs
    ensures interval != 0 ==> IsLocalMidnight(NextReviewDate(interval, clock), clock.utcOffsetMs)
    ensures interval != 0 ==>
      NextReviewDate(interval, clock) == StartOfLocalDay(clock.nowMs, clock.utcOffsetMs) + interval * DayMs
    ensures interval >= 1 ==>
      clock.nowMs < NextReviewDate(interval, clock) <= clock.nowMs + interval * DayMs
  {
    StartOfLocalDayShift(clock.nowMs, interval, clock.utcOffsetMs);
  }

  /** A failed answer (quality 0..2) resets the card whatever its prior state:
      no repetitions, interval 0, relearning, due again in ten minutes. */
  lemma FailedAnswerResets(input: Sm2Input, clock: Clock)
    requires 0 <= input.quality < PassingQuality
    ensures CalculateSm2(input, clock).Success?
    ensures var r := CalculateSm2(input, clock).value;
      && r.repetitions == 0 && r.interval == 0 && r.state == Relearning
      && r.nextReviewDate == clock.nowMs + IntradayDelayMs
  {
  }

  /** The first two passed answers give the fixed intervals 1 and 3 days
      (3 rather than SM-2's 6) and keep the card learning. */
  lemma FirstTwoPassesFixedIntervals(input: Sm2Input, clock: Clock)
    requires PassingQuality <= input.quality <= 5
    requires input.repetitions == 0 || input.repetitions == 1
    ensures CalculateSm2(input, clock).Success?
    ensures var r := CalculateSm2(input, clock).value;
      && r.repetitions == input.repetitions + 1
      && r.interval == (if input.repetitions == 0 then FirstInterval else SecondInterval)
      && r.state == Learning
      && r.nextReviewDate == StartOfLocalDay(clock.nowMs, clock.utcOffsetMs) + r.interval * DayMs
  {
    var interval := if input.repetitions == 0 then FirstInterval else SecondInterval;
    NextReviewDateSpec(interval, clock);
  }

  /** Every later passed answer multiplies the interval by the new ease factor,
      rounded to the nearest day, and puts the card in review. */
  lemma LaterPassMultipliesInterval(input: Sm2Input, clock: Clock)
    requires PassingQuality <= input.quality <= 5
    requires input.repetitions != 0 && input.repetitions != 1
    ensures CalculateSm2(input, clock).Success?
    ensures var r := CalculateSm2(input, clock).value;
      && r.repetitions == input.repetitions + 1
      && r.easeFactor == NewEaseFactor(input.easeFactor, input.quality)
      && r.interval == Round(input.interval as real * r.easeFactor)
      && r.state == Review
      && r.nextReviewDate == NextReviewDate(r.interval, clock)
  {
  }

  /** With an ease factor of at least 1.3, multiplying and rounding never
      shrinks a non-negative interval and strictly grows one of 2 days or more. */
  lemma IntervalGrowth(interval: int, easeFactor: real)
    requires interval >= 0 && easeFactor >= MinEaseFactor
    ensures Round(interval as real * easeFactor) >= interval
    ensures interval >= 2 ==> Round(interval as real * easeFactor) >= interval + 1
  {
    var x := interval as real;
    assert x * easeFactor >= x * MinEaseFactor by {
      assert x * (easeFactor - MinEaseFactor) >= 0.0;
    }
  }

  /** The invariant holds of every card: it holds at creation and every
      accepted answer keeps it. */
  lemma ReviewPreservesConsistency(input: Sm2Input, state: CardState, clock: Clock)
    requires 0 <= input.quality <= 5
    requires Consistent(input.interval, input.repetitions, input.easeFactor, state)
    ensures CalculateSm2(input, clock).Success?
    ensures var r := CalculateSm2(input, clock).value;
      Consistent(r.interval, r.repetitions, r.easeFactor, r.state)
  {
    if input.quality < PassingQuality {
      FailedAnswerResets(input, clock);
    } else if input.repetitions < 2 {
      FirstTwoPassesFixedIntervals(input, clock);
    } else {
      LaterPassMultipliesInterval(input, clock);
      var r := CalculateSm2(input, clock).value;
      IntervalGrowth(input.interval, r.easeFactor);
      assert r.interval >= input.interval + 1 > input.repetitions;
    }
  }

  /** Only the review instant depends on the clock: at any two instants, or in
      any two time zones, the same input is accepted or rejected alike and
      yields the same interval, repetitions, ease factor and stage. So an
      interval computed ahead of time, for display, stays what it was. */
  lemma ScheduleIndependentOfClock(input: Sm2Input, c1: Clock, c2: Clock)
    ensures CalculateSm2(input, c1).Success? <==> CalculateSm2(input, c2).Success?
    ensures CalculateSm2(input, c1).Success? ==>
      var r1, r2 := CalculateSm2(input, c1).value, CalculateSm2(input, c2).value;
      && r1.interval == r2.interval
      && r1.repetitions == r2.repetitions
      && r1.easeFactor == r2.easeFactor
      && r1.state == r2.state
  {
  }

  // ---------------------------------------------------------------------
  // Properties of ratingToQuality and isDue
  // ---------------------------------------------------------------------

  /** The four buttons map onto qualities 0, 3, 4 and 5; any other rating is 3. */
  lemma RatingTable(rating: int)
    ensures RatingToQuality(Again.Code()) == 0
    ensures RatingToQuality(Hard.Code()) == 3
    ensures RatingToQuality(Good.Code()) == 4
    ensures RatingToQuality(Easy.Code()) == 5
    ensures !(1 <= rating <= 4) ==> RatingToQuality(rating) == 3
  {
  }

  /** Only "Again" fails a card; every rating yields a valid quality, so a
      rated review never raises the range error. */
  lemma RatedReviewNeverRejected(rating: int, repetitions: int, easeFactor: real, interval: int, clock: Clock)
    ensures RatingToQuality(rating) < PassingQuality <==> rating == Again.Code()
    ensures CalculateSm2(Sm2Input(RatingToQuality(rating), repetitions, easeFactor, interval), clock).Success?
  {
  }

  /** A dated card is due exactly when some local midnight lies between its
      date and now, that is, once a new local day has begun since the date. */
  lemma IsDueSpec(nextReviewDate: Option<int>, clock: Clock)
    ensures nextReviewDate.None? ==> IsDue(nextReviewDate, clock)
    ensures nextReviewDate.Some? ==>
      (IsDue(nextReviewDate, clock) <==>
        exists m :: IsLocalMidnight(m, clock.utcOffsetMs) && nextReviewDate.value <= m <= clock.nowMs)
  {
    if nextReviewDate.Some? {
      var date, today := nextReviewDate.value, StartOfLocalDay(clock.nowMs, clock.utcOffsetMs);
      if IsDue(nextReviewDate, clock) {
        assert IsLocalMidnight(today, clock.utcOffsetMs) && date <= today <= clock.nowMs;
      }
      if exists m :: IsLocalMidnight(m, clock.utcOffsetMs) && date <= m <= clock.nowMs {
        var m :| IsLocalMidnight(m, clock.utcOffsetMs) && date <= m <= clock.nowMs;
        if today < m {
          MidnightsDayApart(today, m, clock.utcOffsetMs);
        }
      }
    }
  }

  /** Once due, a card stays due as time goes on. */
  lemma IsDueMonotone(nextReviewDate: Option<int>, clock: Clock, laterMs: int)
    requires clock.nowMs <= laterMs
    requires IsDue(nextReviewDate, clock)
    ensures IsDue(nextReviewDate, Clock(laterMs, clock.utcOffsetMs))
  {
    StartOfLocalDayMonotone(clock.nowMs, laterMs, clock.utcOffsetMs);
  }

  /** A date at local midnight is due from that very instant on. */
  lemma MidnightDueFromThen(date: int, clock: Clock)
    requires IsLocalMidnight(date, clock.utcOffsetMs)
    ensures IsDue(Some(date), clock) <==> date <= clock.nowMs
  {
    var s := StartOfLocalDay(clock.nowMs, clock.utcOffsetMs);
    if s < date <= clock.nowMs {
      MidnightsDayApart(s, date, clock.utcOffsetMs);
    }
  }

  /** A card just answered is not due at the moment it was answered. One that
      was given an interval of n >= 1 days becomes due at the local midnight n
      days after today's; one reset to the ten-minute interval is not due
      before the next local midnight, since `isDue` compares against the start
      of today. */
  lemma AnsweredCardDueDate(input: Sm2Input, clock: Clock, laterMs: int)
    requires 0 <= input.quality <= 5
    requires input.interval >= 0
    ensures var r := CalculateSm2(input, clock).value;
      && !IsDue(Some(r.nextReviewDate), clock)
      && (r.interval >= 1 ==>
            (IsDue(Some(r.nextReviewDate), Clock(laterMs, clock.utcOffsetMs)) <==>
             StartOfLocalDay(clock.nowMs, clock.utcOffsetMs) + r.interval * DayMs <= laterMs))
      && (r.interval == 0 && IsDue(Some(r.nextReviewDate), Clock(laterMs, clock.utcOffsetMs)) ==>
            StartOfLocalDay(clock.nowMs, clock.utcOffsetMs) + DayMs <= laterMs)
  {
    var r := CalculateSm2(input, clock).value;
    var today := StartOfLocalDay(clock.nowMs, clock.utcOffsetMs);
    if input.quality >= PassingQuality && input.repetitions >= 2 {
      IntervalGrowth(input.interval, r.easeFactor);
    }
    NextReviewDateSpec(r.interval, clock);
    if r.interval >= 1 {
      MidnightDueFromThen(r.nextReviewDate, Clock(laterMs, clock.utcOffsetMs));
    } else {
      var later := StartOfLocalDay(laterMs, clock.utcOffsetMs);
      if IsDue(Some(r.nextReviewDate), Clock(laterMs, clock.utcOffsetMs)) {
        MidnightsDayApart(today, later, clock.utcOffsetMs);
      }
    }
  }

  /** The worked examples: a new card answered "Good"; a card in its third
      success answered "Easy" (EF 2.5 to 2.6, interval round(3 * 2.6) = 8);
      a review card answered "Again" (EF 2.2 to 1.4, reset). */
  lemma WorkedExamples(clock: Clock)
    ensures CalculateSm2(Sm2Input(RatingToQuality(Good.Code()), 0, 2.5, 0), clock)
         == Success(Sm2Result(1, 1, 2.5, StartOfLocalDay(clock.nowMs, clock.utcOffsetMs) + DayMs, Learning))
    ensures CalculateSm2(Sm2Input(RatingToQuality(Easy.Code()), 2, 2.5, 3), clock)
         == Success(Sm2Result(8, 3, 2.6, StartOfLocalDay(clock.nowMs, clock.utcOffsetMs) + 8 * DayMs, Review))
    ensures CalculateSm2(Sm2Input(RatingToQuality(Again.Code()), 3, 2.2, 10), clock)
         == Success(Sm2Result(0, 0, 1.4, clock.nowMs + IntradayDelayMs, Relearning))
  {
    NextReviewDateSpec(1, clock);
    NextReviewDateSpec(8, clock);
  }
}
