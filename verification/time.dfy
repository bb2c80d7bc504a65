/**
 * Calendar time as the synchroniser sees it. Instants are integer microseconds
 * since 1970-01-01T00:00:00 UTC (Python's `datetime` resolution); whole days are
 * day numbers counted from the same epoch.
 */
module Time {
  import opened Base

  const MicrosPerHour: int := 3_600_000_000
  const MicrosPerDay: int := 86_400_000_000

  /**
   * A decoded DTSTART/DTEND/DTSTAMP value: a whole `Date`, or a `DateTime`
   * given as wall-clock microseconds with the UTC offset of its time zone
   * (`None` for a naive value, which the source treats as UTC wherever it
   * normalises).
   */
  datatype When = Date(day: int) | DateTime(wall: int, offset: Option<int>)

  /** The UTC instant of a date-time; a naive value is read as UTC. */
  function UtcOf(wall: int, offset: Option<int>): int {
    wall - offset.GetOr(0)
  }

  /** 00:00 UTC of a day. */
  function MidnightOf(day: int): int {
    day * MicrosPerDay
  }
}
