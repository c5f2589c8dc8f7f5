/** The persisted door record of the coop controller, with the fixed-width
    integer types its fields have in the program. */
module Door {

  /** Unsigned machine integers of the widths the program uses. */
  type u8 = x: int | 0 <= x < 0x100
  type u16 = x: int | 0 <= x < 0x1_0000
  type u32 = x: int | 0 <= x < 0x1_0000_0000

  /** The single status record. `executed`, `up` and `overRide` are meant to
      hold 0 or 1, but the record admits any byte, and the decision logic
      has to cope with whatever a manual write stored there. */
  datatype DoorStatus = DoorStatus(
    executed: u8,     // 1: the last requested motion has completed; 0: still pending
    up: u8,           // 1: raised, 0: lowered
    overRide: u8,     // 1: automatic decisions suppressed on overRideDay
    overRideDay: u16  // day-of-year ordinal the override belongs to
  )

  /** A byte used as a boolean. */
  predicate IsFlag(x: u8) {
    x == 0 || x == 1
  }

  /** Every flag field of the record holds 0 or 1. */
  predicate FlagsWellFormed(s: DoorStatus) {
    IsFlag(s.executed) && IsFlag(s.up) && IsFlag(s.overRide)
  }
}
