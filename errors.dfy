/**
 * The error taxonomy of the core: one constructor per error exit of
 * topsis.py that the model keeps.
 */
module Errors {

  datatype Error =
      /** The argument has no ',' in it (topsis.py:13-14). */
    | NotCommaSeparated(listName: string)
      /** Every comma-separated token is blank (topsis.py:16-17). */
    | EmptyList(listName: string)
      /** The table has fewer than three columns (topsis.py:30-31). */
    | TooFewColumns
      /** The criteria columns holding a non-numeric cell, in column order (topsis.py:39-41). */
    | NonNumericColumns(columns: seq<string>)
      /** Weight count differs from the criteria count (topsis.py:47-48). */
    | WeightCountMismatch(weights: nat, criteria: nat)
      /** Impact count differs from the criteria count (topsis.py:49-50). */
    | ImpactCountMismatch(impacts: nat, criteria: nat)
      /** Some weight token is not a number (topsis.py:52-55). */
    | NonNumericWeight
      /** Some weight is zero or negative (topsis.py:57-58). */
    | NonPositiveWeight
      /** Some impact is neither "+" nor "-" (topsis.py:61-63). */
    | InvalidImpact
      /** Some criteria column has Euclidean norm 0 (topsis.py:70-72). */
    | ZeroNormColumn
}
