/** Dates of the statistics views: a date is a day number, and a range may
    leave either end open. */
module Dates {
  import opened Wrappers

  /** The statistics views' date filter: a day lies in the range when it is
      within both bounds, inclusive; a missing bound does not restrict. */
  predicate InRange(day: int, start: Option<int>, end: Option<int>) {
    (start.None? || day >= start.value) && (end.None? || day <= end.value)
  }
}
