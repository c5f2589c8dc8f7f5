/** What the decision engine guarantees, stated over the decision table
    `Sun.NextStatus` and over whole ticks `Sun.Tick`. */
module SunProperties {
  import opened Door
  import opened Sun

  // ---------------------------------------------------------------------
  // Daylight predicate

  /** Both ends of the daylight window are exclusive: it is dark at the
      sunrise instant and at the end of the grace period, and light
      strictly between. */
  lemma DaylightWindow(now: u32, sunrise: real, sunset: real)
    ensures now as real == sunrise ==> !IsDaylight(now, sunrise, sunset)
    ensures now as real == sunset + GraceSeconds ==> !IsDaylight(now, sunrise, sunset)
    ensures IsDaylight(now, sunrise, sunset) <==> sunrise < now as real < sunset + 1800.0
  {
  }

  /** The daylight set of a day is an interval: a moment between two
      daylight moments is itself daylight. */
  lemma DaylightIsInterval(a: u32, b: u32, c: u32, sunrise: real, sunset: real)
    requires a <= b <= c
    requires IsDaylight(a, sunrise, sunset) && IsDaylight(c, sunrise, sunset)
    ensures IsDaylight(b, sunrise, sunset)
  {
  }

  // ---------------------------------------------------------------------
  // Seconds of the day

  /** Later readings of the same day give larger second counts. */
  lemma NowSecondsMonotone(h1: Hour, m1: Minute, s1: Second, h2: Hour, m2: Minute, s2: Second)
    requires h1 < h2 || (h1 == h2 && m1 < m2) || (h1 == h2 && m1 == m2 && s1 < s2)
    ensures NowSeconds(h1, m1, s1) < NowSeconds(h2, m2, s2)
  {
  }

  /** Every second of the day is the reading of exactly one time of day. */
  lemma NowSecondsOnto(t: int)
    requires 0 <= t < 86400
    ensures NowSeconds(t / 3600, t % 3600 / 60, t % 60) == t
  {
  }

  // ---------------------------------------------------------------------
  // Schedule lookup

  /** Because the ordinal (1..366) indexes the schedule directly, every day
      of a leap year finds its entry exactly when the schedule has at least
      367 entries; entry 0 is never consulted. */
  lemma LookupCoversYear(schedule: seq<SunCouplet>)
    ensures (forall d: u16 :: 1 <= d <= 366 ==> ScheduleLookup(schedule, d).Some?) <==> |schedule| >= 367
  {
    if |schedule| < 367 {
      assert ScheduleLookup(schedule, 366).None?;
    }
  }

  /** A tick whose ordinal lies beyond the schedule writes nothing. */
  lemma GapWritesNothing(status: DoorStatus, schedule: seq<SunCouplet>, clock: WallClock)
    ensures Tick(status, schedule, clock) == ScheduleGap <==> clock.ordinal >= |schedule|
  {
  }

  /** A schedule of 365 entries fails on the 365th day of the year. */
  lemma ShortScheduleFailsOnLastDay(status: DoorStatus, schedule: seq<SunCouplet>, clock: WallClock)
    requires |schedule| == 365 && clock.ordinal == 365
    ensures Tick(status, schedule, clock) == ScheduleGap
  {
  }

  // ---------------------------------------------------------------------
  // Override expiry and day stamping

  /** An override set for another day is cleared; any other value of the
      override field is kept; a tick never sets the override. */
  lemma OverrideExpiry(status: DoorStatus, daylight: bool, today: u16)
    ensures var r := NextStatus(status, daylight, today).status;
      && (status.overRide == 1 && status.overRideDay != today ==> r.overRide == 0)
      && (!(status.overRide == 1 && status.overRideDay != today) ==> r.overRide == status.overRide)
      && (r.overRide == 1 ==> status.overRide == 1 && status.overRideDay == today)
  {
  }

  /** After every tick the override day is today, whatever the rest of the
      record and the daylight. */
  lemma OverrideDayStamped(status: DoorStatus, daylight: bool, today: u16)
    ensures NextStatus(status, daylight, today).status.overRideDay == today
  {
  }

  /** An expired override is as if no override had been set: the tick then
      follows the ordinary rules. */
  lemma ExpiredOverrideActsAsNone(status: DoorStatus, daylight: bool, today: u16)
    requires status.overRide == 1 && status.overRideDay != today
    ensures NextStatus(status, daylight, today) == NextStatus(status.(overRide := 0), daylight, today)
  {
  }

  // ---------------------------------------------------------------------
  // Raise and lower

  /** In daylight, a lowered door whose last motion completed is raised,
      unless an override for today holds. */
  lemma RaisesInDaylight(status: DoorStatus, today: u16)
    requires status.up == 0 && status.executed != 0 && ExpiredOverride(status, today) == 0
    ensures NextStatus(status, true, today)
         == Decision(DoorStatus(0, 1, ExpiredOverride(status, today), today), NoWarning)
  {
  }

  /** In darkness, a raised door whose last motion completed is lowered,
      unless an override for today holds. */
  lemma LowersInDarkness(status: DoorStatus, today: u16)
    requires status.up == 1 && status.executed != 0 && ExpiredOverride(status, today) == 0
    ensures NextStatus(status, false, today)
         == Decision(DoorStatus(0, 0, ExpiredOverride(status, today), today), NoWarning)
  {
  }

  /** A motion is requested exactly when the door is on the wrong side, the
      last motion completed and no override survives expiry; then `up`
      becomes the daylight value and `executed` becomes 0. Otherwise both
      are kept. */
  lemma MotionExactlyWhen(status: DoorStatus, daylight: bool, today: u16)
    ensures var r := NextStatus(status, daylight, today).status;
      var wrongSide := (daylight && status.up == 0) || (!daylight && status.up == 1);
      && ((r.up, r.executed) != (status.up, status.executed)
          <==> wrongSide && status.executed != 0 && ExpiredOverride(status, today) == 0)
      && ((r.up, r.executed) != (status.up, status.executed)
          ==> r.up == (if daylight then 1 else 0) && r.executed == 0)
  {
  }

  // ---------------------------------------------------------------------
  // Cases that leave the door alone

  /** An override that holds for today suppresses every motion and stays. */
  lemma OverrideSuppresses(status: DoorStatus, daylight: bool, today: u16)
    requires status.overRide == 1 && status.overRideDay == today
    ensures var r := NextStatus(status, daylight, today).status;
      r.up == status.up && r.executed == status.executed && r.overRide == 1
  {
  }

  /** The pending-motion warning fires exactly when the door is on the wrong
      side and its last motion is still pending, whatever the override
      says; the door is then left alone. */
  lemma PendingMotionWarns(status: DoorStatus, daylight: bool, today: u16)
    ensures (NextStatus(status, daylight, today).warning == ShouldHaveOpened)
        <==> daylight && status.up == 0 && status.executed == 0
    ensures (NextStatus(status, daylight, today).warning == ShouldHaveClosed)
        <==> !daylight && status.up == 1 && status.executed == 0
    ensures NextStatus(status, daylight, today).warning != NoWarning ==>
      var r := NextStatus(status, daylight, today).status;
      r.up == status.up && r.executed == status.executed
  {
  }

  /** A door already on the daylight side is left alone, without warning. */
  lemma AlreadyInPlace(status: DoorStatus, daylight: bool, today: u16)
    requires status.up == (if daylight then 1 else 0)
    ensures NextStatus(status, daylight, today)
         == Decision(status.(overRide := ExpiredOverride(status, today), overRideDay := today), NoWarning)
  {
  }

  /** A value of `up` outside {0, 1} is never touched, and never warned
      about. */
  lemma UpOutsideFlagsUntouched(status: DoorStatus, daylight: bool, today: u16)
    requires !IsFlag(status.up)
    ensures NextStatus(status, daylight, today)
         == Decision(status.(overRide := ExpiredOverride(status, today), overRideDay := today), NoWarning)
  {
  }

  // ---------------------------------------------------------------------
  // What a tick may write

  /** A tick only ever writes 0 into `executed`, and only 0 or 1 into `up`. */
  lemma WritesOnlyRequests(status: DoorStatus, daylight: bool, today: u16)
    ensures var r := NextStatus(status, daylight, today).status;
      && (r.executed != status.executed ==> r.executed == 0)
      && (r.up != status.up ==> IsFlag(r.up))
      && (r.executed == 1 ==> status.executed == 1)
  {
  }

  /** A record whose flags hold 0 or 1 keeps them so. */
  lemma FlagsStayWellFormed(status: DoorStatus, daylight: bool, today: u16)
    requires FlagsWellFormed(status)
    ensures FlagsWellFormed(NextStatus(status, daylight, today).status)
  {
  }

  /** A second tick with the same daylight on the same day writes back the
      record the first one wrote. */
  lemma NextStatusIdempotent(status: DoorStatus, daylight: bool, today: u16)
    ensures var r := NextStatus(status, daylight, today).status;
      NextStatus(r, daylight, today).status == r
  {
  }

  // ---------------------------------------------------------------------
  // Repeated ticks

  /** The inputs of one tick after the schedule lookup succeeded. */
  datatype TickInput = TickInput(daylight: bool, today: u16)

  /** The record after a run of successful ticks, each writing back the
      record the previous one wrote. */
  function Ticks(status: DoorStatus, inputs: seq<TickInput>): (r: DoorStatus)
    decreases |inputs|
  {
    if inputs == [] then status
    else Ticks(NextStatus(status, inputs[0].daylight, inputs[0].today).status, inputs[1..])
  }

  /** An override set for day `d` holds through every tick on day `d`: the
      door never moves, and the override stays set. */
  lemma {:induction false} OverrideHoldsAllDay(status: DoorStatus, inputs: seq<TickInput>)
    requires status.overRide == 1
    requires forall i :: 0 <= i < |inputs| ==> inputs[i].today == status.overRideDay
    ensures var r := Ticks(status, inputs);
      r.up == status.up && r.executed == status.executed && r.overRide == 1 && r.overRideDay == status.overRideDay
    decreases |inputs|
  {
    if inputs != [] {
      var next := NextStatus(status, inputs[0].daylight, inputs[0].today).status;
      OverrideHoldsAllDay(next, inputs[1..]);
    }
  }

  /** While a requested motion is unconfirmed, no run of ticks re-issues or
      changes it: `up` and `executed` are frozen until an outside write. */
  lemma {:induction false} PendingMotionFrozen(status: DoorStatus, inputs: seq<TickInput>)
    requires status.executed == 0
    ensures Ticks(status, inputs).up == status.up && Ticks(status, inputs).executed == 0
    decreases |inputs|
  {
    if inputs != [] {
      var next := NextStatus(status, inputs[0].daylight, inputs[0].today).status;
      PendingMotionFrozen(next, inputs[1..]);
    }
  }

  /** A value of `up` outside {0, 1} survives any run of ticks, together
      with `executed`. */
  lemma {:induction false} UpOutsideFlagsForever(status: DoorStatus, inputs: seq<TickInput>)
    requires !IsFlag(status.up)
    ensures Ticks(status, inputs).up == status.up && Ticks(status, inputs).executed == status.executed
    decreases |inputs|
  {
    if inputs != [] {
      var next := NextStatus(status, inputs[0].daylight, inputs[0].today).status;
      UpOutsideFlagsForever(next, inputs[1..]);
    }
  }

  /** No run of ticks turns an unset override on, nor marks a motion as
      executed. */
  lemma {:induction false} TicksNeverSetFlags(status: DoorStatus, inputs: seq<TickInput>)
    ensures Ticks(status, inputs).overRide == 1 ==> status.overRide == 1
    ensures Ticks(status, inputs).executed == 1 ==> status.executed == 1
    decreases |inputs|
  {
    if inputs != [] {
      var next := NextStatus(status, inputs[0].daylight, inputs[0].today).status;
      TicksNeverSetFlags(next, inputs[1..]);
    }
  }

  /** Well-formed flags stay well formed over any run of ticks. */
  lemma {:induction false} TicksKeepFlagsWellFormed(status: DoorStatus, inputs: seq<TickInput>)
    requires FlagsWellFormed(status)
    ensures FlagsWellFormed(Ticks(status, inputs))
    decreases |inputs|
  {
    if inputs != [] {
      var next := NextStatus(status, inputs[0].daylight, inputs[0].today).status;
      TicksKeepFlagsWellFormed(next, inputs[1..]);
    }
  }

  // ---------------------------------------------------------------------
  // A whole tick

  /** Sunrise 06:00, sunset 18:00, a closed door whose last motion
      completed, no override; a tick at 08:20 on day 100 requests opening
      and stamps the day. */
  lemma MorningTickOpens(schedule: seq<SunCouplet>)
    requires |schedule| > 100 && schedule[100] == SunCouplet(21600.0, 64800.0)
    ensures Tick(DoorStatus(1, 0, 0, 0), schedule, WallClock(8, 20, 0, 100))
         == Written(Decision(DoorStatus(0, 1, 0, 100), NoWarning))
  {
  }

  /** An override left from yesterday does not stop this morning's opening. */
  lemma StaleOverrideDoesNotBlock(schedule: seq<SunCouplet>)
    requires |schedule| > 101 && schedule[101] == SunCouplet(21600.0, 64800.0)
    ensures Tick(DoorStatus(1, 0, 1, 100), schedule, WallClock(8, 20, 0, 101))
         == Written(Decision(DoorStatus(0, 1, 0, 101), NoWarning))
  {
  }
}
