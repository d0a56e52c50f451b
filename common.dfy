/** Small shared vocabulary for the three data-access services. */
module Common {

  /** A row that may be missing: the services' `null` results, and nullable columns. */
  datatype Option<+T> = None | Some(value: T)

  /** A `DateTime` value. Only equality and order matter here; the clock itself is
      not modelled, every operation that stamps a date receives `now` instead. */
  type Timestamp = int

  function Min(a: int, b: int): (m: int)
    ensures m <= a && m <= b
    ensures m == a || m == b
  {
    if a <= b then a else b
  }
}
