# Chicken-coop door decision engine

This is a Dafny model of the decision engine of a controller for an automatic chicken-coop door. The controller keeps one status record for the door: whether the last requested motion was executed, whether the door is up, and a manual override tied to one day of the year. On every polling tick the engine does five things:

- it reads the record and the time of day;
- it looks up that day's sunrise and sunset in a schedule indexed by day-of-year ordinal;
- it decides whether it is daylight, with a 30-minute grace period after sunset;
- it applies the override-expiry rule and the raise/lower rule;
- it writes the record back.

Modules:

- `Door` (`door.dfy`) holds the `DoorStatus` record. Its fields are the program's `u8` and `u16` widths, written as subset types.
- `Sun` (`sun.dfy`) holds the daylight predicate `IsDaylight` and the seconds-of-day arithmetic `NowSeconds`/`GetNow`. It also holds the schedule lookup `ScheduleLookup` and the tick's rules as a flat decision table `NextStatus` (with `ExpiredOverride`). `Tick` puts a whole tick together as a value. `UpdateStatus` is the imperative tick as the program writes it: a mutable copy of the record, updated step by step through nested conditionals. It is proved equal to `Tick`, so it agrees with the decision table.
- `SunProperties` (`properties.dfy`) holds the lemmas: properties of one tick, and properties of runs of ticks via the fold `Ticks`.

Inputs the program takes from the environment are parameters here:

- the clock reading (`WallClock`: hour, minute, second and ordinal, already shifted by the configured hour offset);
- the schedule (a `seq<SunCouplet>`);
- the record read from the status file.

The log warning is returned as a `Warning` value. A failed schedule lookup (the program panics on it) is the `ScheduleGap` result, and in that case nothing is written.

Behaviours of the code worth knowing:

- **Schedule indexing.** The lookup fails when the ordinal is at least the schedule length. The ordinal (1..366) indexes the schedule directly, so entry 0 is never used and a leap year needs 367 entries (`LookupCoversYear`).
- **When the warning fires.** It fires only when the door is on the wrong side (down in daylight, up in darkness) and `executed == 0`. It fires even when an override for today is active. A door whose pending motion is already heading the right way (`up == 1, executed == 0` in daylight) gets no warning.
- **Values outside {0,1}.** A value of `up` outside {0,1} gets no warning and is never touched (`UpOutsideFlagsUntouched`). Any value of `executed` other than 0 is treated as a completed motion, so the door can still be moved (`MotionExactlyWhen`).
- **How a tick requests a motion.** It writes `executed = 0` together with the target `up` (`MotionExactlyWhen`).
- **Override values other than 0 and 1.** The expiry rule clears only `over_ride == 1`, and motion is allowed only when `over_ride == 0`. So a stored override of, say, 2 suppresses motion indefinitely (`OverrideExpiry`, `MotionExactlyWhen`).

## Model

| member | source | states |
|---|---|---|
| Sun.NowSeconds | src/sun.rs:91 | seconds of day from hour, minute, second is below 86400 and decodes back to the same hour, minute and second |
| Sun.GetNow | src/sun.rs:88-94 | returns (seconds of day, ordinal): seconds below 86400 that decode to the reading, and the ordinal unchanged in 1..366 |
| Sun.ScheduleLookup | src/sun.rs:29-31 | succeeds exactly when ordinal < schedule length, and then returns the entry at the ordinal itself, with no shift by one |
| Sun.UpdateStatus | src/sun.rs:29-71 | the step-by-step tick fails (writes nothing) exactly when ordinal >= schedule length; otherwise it writes the record and warning of the decision table for that day's daylight |
| SunProperties.DaylightWindow | src/sun.rs:96-102 | daylight holds exactly when sunrise < now < sunset + 1800; false at now == sunrise and at now == sunset + 1800 |
| SunProperties.DaylightIsInterval | src/sun.rs:96-102 | a moment between two daylight moments of the same day is daylight |
| SunProperties.NowSecondsMonotone | src/sun.rs:91 | a later time of day gives a strictly larger second count |
| SunProperties.NowSecondsOnto | src/sun.rs:91 | every second count below 86400 is produced by some time of day |
| SunProperties.LookupCoversYear | src/sun.rs:29-31 | every ordinal 1..366 finds an entry exactly when the schedule has at least 367 entries |
| SunProperties.GapWritesNothing | src/sun.rs:29-31 | a tick yields no record exactly when the ordinal is at or beyond the schedule length |
| SunProperties.ShortScheduleFailsOnLastDay | src/sun.rs:29-31 | with a 365-entry schedule the tick on ordinal 365 fails |
| SunProperties.OverrideExpiry | src/sun.rs:34-38 | override 1 for another day becomes 0; otherwise the override is kept; a tick never makes the override 1 unless it was 1 for today |
| SunProperties.OverrideDayStamped | src/sun.rs:41 | after every tick the override day equals today, whatever the record and daylight |
| SunProperties.ExpiredOverrideActsAsNone | src/sun.rs:34-71 | with an override from another day, the tick decides exactly as if there were no override |
| SunProperties.RaisesInDaylight | src/sun.rs:44-55 | in daylight with up 0, executed non-zero and no surviving override, the result is up 1, executed 0, with no warning |
| SunProperties.LowersInDarkness | src/sun.rs:58-68 | in darkness with up 1, executed non-zero and no surviving override, the result is up 0, executed 0, with no warning |
| SunProperties.MotionExactlyWhen | src/sun.rs:44-71 | up/executed change if and only if the door is on the wrong side, executed is non-zero and the override after expiry is 0; a change always sets up to the daylight value and executed to 0 |
| SunProperties.OverrideSuppresses | src/sun.rs:51-54 | an override set for today leaves up and executed unchanged and stays set |
| SunProperties.PendingMotionWarns | src/sun.rs:46-50 | the open warning fires iff daylight, up 0, executed 0; the close warning iff darkness, up 1, executed 0; both regardless of override, and then the door is left alone |
| SunProperties.AlreadyInPlace | src/sun.rs:44-71 | a door already on the daylight side keeps up and executed and gets no warning; only the override fields change |
| SunProperties.UpOutsideFlagsUntouched | src/sun.rs:46-59 | a value of up outside {0,1} is left with executed unchanged and no warning |
| SunProperties.WritesOnlyRequests | src/sun.rs:52-66 | a tick writes only 0 into executed and only 0 or 1 into up; executed is never set to 1 |
| SunProperties.FlagsStayWellFormed | src/door.rs:3-8 | a record whose three flags are 0 or 1 keeps them 0 or 1 after a tick |
| SunProperties.NextStatusIdempotent | src/sun.rs:33-71 | a second tick with the same daylight and day writes back exactly the record the first wrote |
| SunProperties.OverrideHoldsAllDay | src/sun.rs:34-54 | over any run of ticks on the override day, up and executed never change and the override stays 1 for that day |
| SunProperties.PendingMotionFrozen | src/sun.rs:48-63 | while executed is 0, no run of ticks changes up or executed, so a pending motion is never re-issued |
| SunProperties.UpOutsideFlagsForever | src/sun.rs:46-59 | an up value outside {0,1} and its executed value survive any run of ticks |
| SunProperties.TicksNeverSetFlags | src/sun.rs:34-66 | no run of ticks turns the override on or sets executed to 1 |
| SunProperties.TicksKeepFlagsWellFormed | src/door.rs:3-8 | well-formed flags stay well formed over any run of ticks |
| SunProperties.MorningTickOpens | src/sun.rs:29-71 | sunrise 06:00, sunset 18:00, closed and executed and no override, tick at 08:20 on day 100: the result is up 1, executed 0, override day 100, no warning |
| SunProperties.StaleOverrideDoesNotBlock | src/sun.rs:34-55 | an override from day 100 does not stop the opening at 08:20 on day 101, and it is cleared |

## Left out

- Reading and writing the status and schedule files, and JSON (de)serialisation (src/sun.rs:19-28, 73-85). The record and the schedule are values here. The missing-file and bad-JSON panics are not modelled. The write opens the file without truncating it, so a shorter record could leave trailing bytes behind. That is a file-format effect and is not modelled either.
- The clock call and the hour offset (src/sun.rs:89-90, 92). The already-shifted reading is a `WallClock` parameter. Its field ranges (hour < 24, minute < 60, second < 60, ordinal 1..366) are the ones the date library guarantees.
- IsDaylight: sunrise and sunset are exact reals, not 32-bit floats. The single-precision rounding of `sunset + 1800.0`, and of large second counts, is not modelled.
- Log events. The two warnings are the `Warning` result of a tick; the log output itself is not modelled.
- The background loop in src/main.rs: the thread, the sleep interval, and the fact that a panic in a tick ends the loop thread. `Ticks` composes successful ticks only, as a way to state properties of repeated ticks.
- The HTTP handlers in src/routes.rs (access-key comparison, file read and file overwrite), configuration loading in src/config.rs, and server start-up. These are transport, configuration and runtime plumbing.
- The unsynchronised race between a tick and a manual overwrite of the same file. It is a matter of concurrency, and the model is sequential.
