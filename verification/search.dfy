/**
 The two searches with a fixed meaning: exact department match and the
 joining-date range, both over the whole collection.
 */
module Search {
  import opened JavaString
  import opened LexOrder
  import opened Validation
  import opened Employees

  /** Every document whose `department` equals the trimmed input exactly
      (case-sensitively). */
  function SearchByDepartment(store: Store, rawDept: string): (r: Store)
    ensures forall e :: multiset(r)[e] == if e.department == Trim(rawDept) then multiset(store)[e] else 0
  {
    var dept := Trim(rawDept);
    Select(store, (e: Employee) => e.department == dept)
  }

  datatype DateSearch = Matches(records: Store) | InvalidDateFormat

  /** `start <= date <= end` in the store's string order. */
  predicate InRange(date: string, start: string, end: string) {
    LexLe(start, date) && LexLe(date, end)
  }

  /** Both bounds are trimmed and must pass the shape check; then every document
      with `start <= joiningDate <= end` in string order is returned. */
  function SearchByDateRange(store: Store, rawStart: string, rawEnd: string): (r: DateSearch)
    ensures r.InvalidDateFormat? <==> !IsDateShape(Trim(rawStart)) || !IsDateShape(Trim(rawEnd))
    ensures r.Matches? ==> forall e ::
      multiset(r.records)[e] == if InRange(e.joiningDate, Trim(rawStart), Trim(rawEnd)) then multiset(store)[e] else 0
  {
    var start, end := Trim(rawStart), Trim(rawEnd);
    if !IsDateShape(start) || !IsDateShape(end) then InvalidDateFormat
    else Matches(Select(store, (e: Employee) => InRange(e.joiningDate, start, end)))
  }

  /** A well-formed range whose start comes after its end matches nothing; it is
      an empty result, not an error. */
  lemma ReversedRangeIsEmpty(store: Store, rawStart: string, rawEnd: string)
    requires IsDateShape(Trim(rawStart)) && IsDateShape(Trim(rawEnd))
    requires !LexLe(Trim(rawStart), Trim(rawEnd))
    ensures SearchByDateRange(store, rawStart, rawEnd) == Matches([])
  {
    var r := SearchByDateRange(store, rawStart, rawEnd);
    forall e: Employee
      ensures !InRange(e.joiningDate, Trim(rawStart), Trim(rawEnd))
    {
      if LexLe(Trim(rawStart), e.joiningDate) && LexLe(e.joiningDate, Trim(rawEnd)) {
        LexLeTransitive(Trim(rawStart), e.joiningDate, Trim(rawEnd));
      }
    }
    assert multiset(r.records) == multiset{};
  }

  /** For a stored document whose date passes the shape check, the string-order
      range is the chronological range: it is returned exactly when its date
      falls between the bounds by year, month and day. */
  lemma DateRangeIsChronological(store: Store, rawStart: string, rawEnd: string, e: Employee)
    requires e in store && IsDateShape(e.joiningDate)
    requires IsDateShape(Trim(rawStart)) && IsDateShape(Trim(rawEnd))
    ensures e in SearchByDateRange(store, rawStart, rawEnd).records <==>
      ChronoLe(Trim(rawStart), e.joiningDate) && ChronoLe(e.joiningDate, Trim(rawEnd))
  {
    var r := SearchByDateRange(store, rawStart, rawEnd);
    DateOrderIsChronological(Trim(rawStart), e.joiningDate);
    DateOrderIsChronological(e.joiningDate, Trim(rawEnd));
    assert multiset(store)[e] > 0;
    assert e in r.records <==> multiset(r.records)[e] > 0;
  }
}
