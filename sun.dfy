/** The decision engine: once per polling tick it reads the door record, the
    time of day and the day-of-year ordinal, looks the day's sunrise and
    sunset up in the schedule, and produces the record to write back. */
module Sun {
  import opened Door

  datatype Option<T> = None | Some(value: T)

  /** Seconds after sunset during which it still counts as daylight. */
  const GraceSeconds: real := 1800.0

  /** One schedule entry: sunrise and sunset as seconds of the day. */
  datatype SunCouplet = SunCouplet(sunrise: real, sunset: real)

  type Hour = h: int | 0 <= h < 24
  type Minute = m: int | 0 <= m < 60
  type Second = s: int | 0 <= s < 60
  type Ordinal = d: int | 1 <= d <= 366 witness 1

  /** The wall-clock reading taken at a tick, already shifted by the
      configured hour offset. */
  datatype WallClock = WallClock(hour: Hour, minute: Minute, second: Second, ordinal: Ordinal)

  /** The log warning a tick may raise. */
  datatype Warning = NoWarning | ShouldHaveOpened | ShouldHaveClosed

  /** The record a tick writes back, and the warning it logged. */
  datatype Decision = Decision(status: DoorStatus, warning: Warning)

  /** What a tick does: it either fails on the schedule lookup, writing
      nothing, or writes a new record. */
  datatype TickResult = ScheduleGap | Written(decision: Decision)

  /** Daylight is the open interval from sunrise to the end of the grace
      period after sunset. */
  predicate IsDaylight(nowSeconds: u32, sunrise: real, sunset: real) {
    sunrise < nowSeconds as real < sunset + GraceSeconds
  }

  /** Seconds since midnight. The result is the unique encoding of the
      reading: it always fits in a day and the reading can be read back. */
  function NowSeconds(hour: Hour, minute: Minute, second: Second): (r: u32)
    ensures r < 86400
    ensures r / 3600 == hour && r % 3600 / 60 == minute && r % 60 == second
  {
    hour * 3600 + minute * 60 + second
  }

  /** The pair (seconds of day, ordinal) a tick works with. */
  function GetNow(clock: WallClock): (r: (u32, u16))
    ensures r.0 < 86400 && 1 <= r.1 <= 366
    ensures r.1 == clock.ordinal
    ensures r.0 / 3600 == clock.hour && r.0 % 3600 / 60 == clock.minute && r.0 % 60 == clock.second
  {
    (NowSeconds(clock.hour, clock.minute, clock.second), clock.ordinal as u16)
  }

  /** The schedule is indexed by the ordinal itself; an ordinal beyond the
      schedule is a failure, not a wrap-around or a neighbouring entry. */
  function ScheduleLookup(schedule: seq<SunCouplet>, todayIdx: u16): (r: Option<SunCouplet>)
    ensures r.Some? <==> todayIdx < |schedule|
    ensures r.Some? ==> r.value == schedule[todayIdx]
  {
    if todayIdx < |schedule| then Some(schedule[todayIdx]) else None
  }

  /** The override that survives expiry: a set override for another day is
      cleared; any other value is kept as it is. */
  function ExpiredOverride(status: DoorStatus, today: u16): (r: u8) {
    if status.overRide == 1 && status.overRideDay != today then 0 else status.overRide
  }

  /** The rules of one tick as a decision table, given whether it is
      daylight. The door is on the wrong side when it is down in daylight
      or up in darkness. On the wrong side with the last motion still
      pending, the tick warns and leaves the door alone; on the wrong side
      with the last motion done and no override (after expiry), it requests
      the motion. Everything else keeps `executed` and `up`. The override
      day is always stamped with today. */
  function NextStatus(status: DoorStatus, daylight: bool, today: u16): (d: Decision) {
    var overRide := ExpiredOverride(status, today);
    var target: u8 := if daylight then 1 else 0;
    var wrongSide := status.up == 1 - target;
    var pending := status.executed == 0;
    var warning :=
      if wrongSide && pending then (if daylight then ShouldHaveOpened else ShouldHaveClosed)
      else NoWarning;
    var moves := wrongSide && !pending && overRide == 0;
    Decision(
      DoorStatus(
        if moves then 0 else status.executed,
        if moves then target else status.up,
        overRide,
        today),
      warning)
  }

  /** One whole tick as a value: clock, lookup, daylight, rules. */
  function Tick(status: DoorStatus, schedule: seq<SunCouplet>, clock: WallClock): (r: TickResult) {
    var (nowSeconds, todayIdx) := GetNow(clock);
    match ScheduleLookup(schedule, todayIdx)
    case None => ScheduleGap
    case Some(c) => Written(NextStatus(status, IsDaylight(nowSeconds, c.sunrise, c.sunset), todayIdx))
  }

  /** The tick as the program runs it: a mutable copy of the record updated
      step by step through nested conditionals. */
  method UpdateStatus(status: DoorStatus, schedule: seq<SunCouplet>, clock: WallClock) returns (r: TickResult)
    ensures r.ScheduleGap? <==> clock.ordinal >= |schedule|
    ensures r == Tick(status, schedule, clock)
  {
    var doorStatus := status;
    var (nowSeconds, todayIdx) := GetNow(clock);
    if todayIdx >= |schedule| {
      return ScheduleGap;
    }
    var todaysCouplet := schedule[todayIdx];

    // clear an override whose day has passed
    if doorStatus.overRide == 1 {
      if doorStatus.overRideDay != todayIdx {
        doorStatus := doorStatus.(overRide := 0);
      }
    }

    doorStatus := doorStatus.(overRideDay := todayIdx);

    var warning := NoWarning;
    if IsDaylight(nowSeconds, todaysCouplet.sunrise, todaysCouplet.sunset) {
      if doorStatus.up == 0 {
        if doorStatus.executed == 0 {
          warning := ShouldHaveOpened;
        } else {
          if doorStatus.overRide == 0 {
            doorStatus := doorStatus.(up := 1, executed := 0);
          }
        }
      }
    } else {
      if doorStatus.up == 1 {
        if doorStatus.executed == 0 {
          warning := ShouldHaveClosed;
        } else {
          if doorStatus.overRide == 0 {
            doorStatus := doorStatus.(up := 0, executed := 0);
          }
        }
      }
    }
    r := Written(Decision(doorStatus, warning));
  }
}
