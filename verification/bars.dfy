/**
  Price bars and the calendar arithmetic of the pipeline.

  A bar is a (timestamp, close) pair. Timestamps are whole seconds since
  1970-01-01 00:00 UTC and calendar days are whole days since that date, so
  the midnight that starts day `d` is `DayStart(d)`.
 */
module Bars {

  datatype Bar = Bar(time: int, close: real)

  const SecondsPerDay: int := 86400

  /** Monday is 0 and Sunday is 6, as in Python's `datetime.weekday()`. */
  const Friday: int := 4

  function DayStart(day: int): int {
    day * SecondsPerDay
  }

  /** Day 0 (1970-01-01) was a Thursday, weekday 3. */
  function Weekday(day: int): (w: int)
    ensures 0 <= w < 7
  {
    (day + 3) % 7
  }

  /** The day after day `d` is the next weekday, Sunday wrapping round to Monday. */
  lemma WeekdayNext(day: int)
    ensures Weekday(day + 1) == if Weekday(day) == 6 then 0 else Weekday(day) + 1
  {
  }
}
