/** Instants of `DateTime` and the two calendar steps the authentication core takes from them. */
module Time {

  /** A UTC instant, in whole seconds since `DateTime.MinValue` (0001-01-01T00:00:00). */
  type Instant = int

  /** `default(DateTime)`, the value a response carries in a field nobody set. */
  const MinValue: Instant := 0

  /** `t.AddMinutes(minutes)`. */
  function AddMinutes(t: Instant, minutes: int): Instant
  {
    t + 60 * minutes
  }

  /** `t.AddDays(days)`. */
  function AddDays(t: Instant, days: int): Instant
  {
    t + 86400 * days
  }
}
