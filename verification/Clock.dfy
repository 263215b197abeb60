/** The option type and the single clock shared by every component.

    Times are integer seconds and calendar days are UTC days of 86400 seconds, so
    a timestamp's `::date` is `DayOf`. */
module Wrappers {
  datatype Option<+T> = None | Some(value: T)
}

module Clock {
  type Time = int
  type Day = int

  const MINUTE := 60
  const HOUR := 3600
  const DAY := 86400

  function DayOf(t: Time): Day {
    t / DAY
  }
}
