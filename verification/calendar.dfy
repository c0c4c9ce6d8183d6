/** Calendar dates, as the `Päivä` column holds them after `.dt.date`. */
module Calendar {
  datatype Date = Date(year: int, month: int, day: int)

  /** Strictly earlier: the chronological (year, month, day) order. */
  predicate Before(a: Date, b: Date) {
    a.year < b.year
    || (a.year == b.year && a.month < b.month)
    || (a.year == b.year && a.month == b.month && a.day < b.day)
  }

  /** Earlier or the same day: the order `sort_values("Päivä")` sorts by. */
  predicate NotAfter(a: Date, b: Date) {
    Before(a, b) || a == b
  }
}
