/** The tabular data the core reads: a column-oriented frame of cells. */
module Table {

  /**
   * One cell as numeric coercion sees it: a number, or anything else
   * (text, or a missing value, which reads as NaN).
   */
  datatype Cell = Num(value: real) | NonNum(text: string)

  /** A data frame by columns: column names and, per column, its cells top to bottom. */
  datatype Frame = Frame(names: seq<string>, columns: seq<seq<Cell>>)

  /** Number of rows of the frame. */
  function Height(f: Frame): nat {
    if |f.columns| == 0 then 0 else |f.columns[0]|
  }

  /**
   * What a frame read from a comma-separated file satisfies: one name per
   * column, and all columns of the same height.
   */
  predicate WellFormed(f: Frame) {
    && |f.names| == |f.columns|
    && (forall j :: 0 <= j < |f.columns| ==> |f.columns[j]| == Height(f))
  }
}
