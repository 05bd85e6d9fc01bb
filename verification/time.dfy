/** The part of Python's `datetime` the model needs: a timestamp reduced to
    a count of microseconds, the representable range, and the limit on
    `timedelta(days=...)`. */
module Time {
  import opened Wrappers

  /** A datetime. For an aware value `micros` is the UTC instant counted from
      the Unix epoch; for a naive one it is the wall-clock reading. Python
      refuses (TypeError) to order a naive against an aware datetime. */
  datatype Timestamp = Timestamp(micros: int, aware: bool)

  const MicrosPerDay: int := 86_400_000_000

  /** `timedelta(days=d)` raises OverflowError beyond this magnitude. */
  const MaxDeltaDays: int := 999_999_999

  /** 0001-01-01T00:00:00 and 9999-12-31T23:59:59.999999, the bounds of
      `datetime.min` and `datetime.max`, in microseconds since the epoch. */
  const MinMicros: int := -62_135_596_800_000_000
  const MaxMicros: int := 253_402_300_799_999_999

  /** `now - timedelta(days=days)`; None where Python raises OverflowError,
      either in the `timedelta` constructor or because the difference leaves
      the datetime range. */
  function DaysBefore(now: int, days: int): (r: Option<int>)
    ensures r.Some? ==> r.value + days * MicrosPerDay == now
    ensures r.Some? ==> MinMicros <= r.value <= MaxMicros
    ensures r.Some? ==> -MaxDeltaDays <= days <= MaxDeltaDays
    ensures r.None? ==> days < -MaxDeltaDays || MaxDeltaDays < days
                        || now - days * MicrosPerDay < MinMicros || MaxMicros < now - days * MicrosPerDay
  {
    if days < -MaxDeltaDays || MaxDeltaDays < days then None
    else
      var cutoff := now - days * MicrosPerDay;
      if cutoff < MinMicros || MaxMicros < cutoff then None else Some(cutoff)
  }
}
