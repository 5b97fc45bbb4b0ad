/** A calendar date as the triple `java.time.LocalDate` exposes through
    getYear/getMonthValue/getDayOfMonth. Parsing and the clock are not
    modelled: a parsed date, or "today", is always handed in. */
module Dates {

  datatype Date = Date(year: int, month: int, day: int)

  /** `a.isBefore(b)`: LocalDate orders by year, then month, then day. */
  predicate Before(a: Date, b: Date) {
    || a.year < b.year
    || (a.year == b.year && a.month < b.month)
    || (a.year == b.year && a.month == b.month && a.day < b.day)
  }

  /** Before is a strict order: irreflexive and transitive. */
  lemma BeforeIsStrictOrder(a: Date, b: Date, c: Date)
    ensures !Before(a, a)
    ensures Before(a, b) && Before(b, c) ==> Before(a, c)
    ensures Before(a, b) ==> !Before(b, a)
  {
  }
}
