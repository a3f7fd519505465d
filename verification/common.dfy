/** Small value types shared by every page of the dashboard. */
module Common {

  /** An optional value: a missing spreadsheet cell, an unparseable
      timestamp (pandas NaT) or number (NaN) is `None`. */
  datatype Option<+T> = None | Some(value: T)

  /** The outcome of a step that the pages let raise an exception. */
  datatype Result<+T, +E> = Ok(value: T) | Err(error: E)

  /** A spreadsheet cell after row padding: the store returns text, the
      padding adds `None`. */
  type Cell = Option<string>

  /** Sum of a sequence of naturals. */
  function Sum(xs: seq<nat>): nat
  {
    if xs == [] then 0 else xs[0] + Sum(xs[1..])
  }

  lemma {:induction false} SumAppend(xs: seq<nat>, ys: seq<nat>)
    ensures Sum(xs + ys) == Sum(xs) + Sum(ys)
  {
    if xs == [] {
      assert xs + ys == ys;
    } else {
      assert (xs + ys)[1..] == xs[1..] + ys;
      SumAppend(xs[1..], ys);
    }
  }
}
