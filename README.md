# TOPSIS ranking core, modelled in Dafny

This project models the command-line TOPSIS tool in `topsis.py`. TOPSIS is the
Hwang–Yoon method: Technique for Order of Preference by Similarity to Ideal
Solution. It ranks the rows (alternatives) of a table by their criteria
columns.

The model covers four pieces of the tool, one module each. Shared data types
live in four small modules.

- **Tokens** models `parse_list`. A list argument must contain a comma. It is
  split on commas, every piece is stripped of white space, and blank pieces
  are dropped. If nothing is left, the list is empty and that is an error.
  `Split`, `Strip` and the filter are written out over `seq<char>`.
- **Validation** models `validate_inputs` without the file reading. The checks
  run in the program's order, and the first one that fails decides the error:
  - at least three columns;
  - every criteria cell numeric, with the bad columns reported in column order;
  - the comma and empty checks on the weights, then on the impacts;
  - the weight count, then the impact count;
  - the weights numeric, then all positive;
  - every impact `+` or `-`.

  `Validate` is the specification function. `ValidateInputs` is the method
  that follows the source's loops. Its coercion loop fills an array of
  coerced columns, and the impacts loop is `AllImpacts`.
- **Engine** models `topsis` over the reals:
  - column norms and the zero-norm error;
  - the normalised matrix `R`;
  - the normalised weights `W = w / sum(w)`, and then `V = R * W`;
  - the ideal best and ideal worst vectors, with max and min swapped by the
    impact;
  - the separations `S+` and `S-`;
  - the score `S- / (S+ + S-)`.

  The ideal vectors are filled element by element into arrays by
  `FillIdeals`, as the source's loop does. `Topsis` is the method that runs
  the whole pipeline.
- **Ranking** models `argsort()[::-1].argsort() + 1` as a selection sort in
  `Rank`. It repeatedly takes the best alternative not yet ranked, writes its
  position into an order array and its rank into a rank array. It is proved to
  give a ranking:
  - ranks are a permutation of `1..M`;
  - a strictly higher score always gets a strictly smaller rank.
- **Report** models the result assembly in `main`. The pandas frame is a
  `DataFrame` class whose `SetColumn` replaces the first column of that name,
  or appends a new last column. `Run` validates, runs the engine and adds the
  score and rank columns. On an error the frame is left untouched.

The shared modules are:
- **Wrappers**: Option and Result.
- **Errors**: one constructor per `error_exit` of the core.
- **Table**: a column-major frame of cells, each `Num(real)` or `NonNum(text)`.
- **Seqs**: sums, sums of squares and index selection.

Code for which the model has no source is taken as a parameter:
- the square root is `sqrt: real -> real`, constrained by `IsSqrt` (non-negative, squares back to its argument, on non-negative input);
- Python's `float()` on a weight token is `parseNum: string -> Option<real>`.

A row that coincides with both ideal points makes the source divide 0 by 0. The
model returns an explicit `Score.NaN` for it. `DegenerateIff` proves this
happens exactly when all rows are identical, and then for every row.

## Model

| member | source | states |
|---|---|---|
| Seqs.SumScale | topsis.py:75 | scaling every element by c scales the sum by c |
| Seqs.SumPositive | topsis.py:75 | a non-empty sequence of positive numbers has a positive sum, so the division by `weights.sum()` is defined |
| Seqs.Sum | topsis.py:75 | `weights.sum()`, defined by recursion; its meaning is stated by SumScale and SumPositive |
| Seqs.SumSq | topsis.py:70 | a sum of squares is never negative, and is zero exactly when every element is zero |
| Seqs.Square | topsis.py:70 | a square is never negative, and is zero exactly for zero |
| Seqs.Select | topsis.py:15 | the positions of the elements meeting the filter: in range, strictly increasing, and including a position exactly when its element meets the filter |
| Tokens.SkipSpaces | topsis.py:15 | the first non-space position at or after i: everything skipped is white space |
| Tokens.BackSpaces | topsis.py:15 | the end of the trimmed string: everything dropped at the end is white space |
| Tokens.IsSpace | topsis.py:15 | the white-space characters that `str.strip()` removes (those of `str.isspace`); a definition, used by Strip and its lemmas |
| Tokens.Strip | topsis.py:15 | `str.strip()`: never longer than its input; the result is empty or starts and ends with a non-space; it is empty exactly when the input is all white space |
| Tokens.StripUnique | topsis.py:15 | strip is characterised by its cut points: spaces only before a and after b, and non-spaces at both ends of the slice, force `Strip(s) == s[a..b]` |
| Tokens.StripIdempotent | topsis.py:15 | stripping twice is stripping once |
| Tokens.StripKeepsOut | topsis.py:15 | stripping adds no character, so a comma-free piece stays comma-free |
| Tokens.Split | topsis.py:15 | `str.split(",")`: at least one piece, and no piece holds a comma |
| Tokens.Join | topsis.py:15 | `",".join(parts)`, the inverse that JoinSplit and SplitJoin pair with Split; a definition |
| Tokens.JoinSplit | topsis.py:15 | joining the pieces with commas gives back the argument |
| Tokens.SplitJoin | topsis.py:15 | splitting comma-free pieces joined by commas gives back the pieces |
| Tokens.SplitPrefix | topsis.py:15 | a comma-free prefix is glued to the first piece of the rest |
| Tokens.SplitAllBlank | topsis.py:15-17 | every piece is blank exactly when every character is a comma or white space |
| Tokens.NonBlankPiece | topsis.py:15 | the comprehension's filter `x.strip() != ""`; a definition, its meaning stated by ParseListTokens |
| Tokens.KeptPieces | topsis.py:15 | the positions the comprehension keeps: valid piece positions, in increasing order, each of a non-blank piece; ParseListTokens states that every non-blank piece is kept |
| Tokens.KeptTokens | topsis.py:15 | one token per kept piece |
| Tokens.ParseList | topsis.py:12-18 | `parse_list`: on success at least one token; any error is the no-comma or empty-list error naming the list |
| Tokens.ParseListFailures | topsis.py:13-17 | the no-comma error exactly when the argument has no comma; the empty-list error exactly when it has a comma and every character is a comma or white space |
| Tokens.ParseListTokens | topsis.py:15 | on success the tokens are the stripped non-blank pieces in their original order, with every non-blank piece kept and every blank one dropped |
| Tokens.ParseListClean | topsis.py:15 | every returned token is non-empty, comma-free, and trimmed at both ends |
| Tokens.SplitExample | topsis.py:15 | `"1,1,"` splits into `"1"`, `"1"` and `""` |
| Tokens.StripExample | topsis.py:15 | `"1"` strips to itself |
| Tokens.KeptExample | topsis.py:15 | of `"1,1,"`, the first two pieces are kept and the trailing empty one is dropped |
| Tokens.KeptTokensExample | topsis.py:15 | the tokens kept from `"1,1,"` are `"1"` and `"1"` |
| Tokens.TrailingCommaDropped | topsis.py:12-18 | `parse_list("1,1,", "Weights")` returns `["1", "1"]` |
| Validation.Coerce | topsis.py:37 | `pd.to_numeric(errors="coerce")` on one cell: NaN (None) exactly for a non-number, the number itself otherwise |
| Validation.CoerceColumn | topsis.py:37 | a column coerced cell by cell, same length |
| Validation.CoerceColumns | topsis.py:36-37 | every criteria column coerced, in order |
| Validation.CoercedHasNaN | topsis.py:37-39 | a coerced column holds a NaN exactly when the original column holds a non-number |
| Validation.HasNaN | topsis.py:39-40 | `isna().any()` of one coerced column; a definition, its meaning stated by CoercedHasNaN |
| Validation.NonNumericColumnsOf | topsis.py:40 | `bad_cols`, the list the non-numeric error reports: every name in it is a criteria column name; NonNumericColumnsExact states exactly which, in order |
| Validation.NonNumericColumnsExact | topsis.py:39-41 | the reported names are exactly the criteria columns holding a non-number, in column order |
| Validation.ReportedIndex | topsis.py:39-41 | a criteria column is reported exactly when it holds a non-number |
| Validation.NoNonNumericIsNumeric | topsis.py:39-40 | nothing is reported exactly when every criteria cell is a number |
| Validation.CriteriaNames | topsis.py:33 | `df.columns[1:]`: one name per column after the first, in order |
| Validation.BadColumns | topsis.py:40 | `criteria.columns[criteria.isna().any()].tolist()`: only names of criteria columns; NonNumericColumnsExact states exactly which, in order |
| Validation.RowOf | topsis.py:69 | one row of the float matrix: one entry per criteria column, each the number in that cell |
| Validation.CriteriaMatrix | topsis.py:69 | `df[criteria_cols].astype(float).values`: one row per table row, one entry per criterion, each the number in the corresponding cell |
| Validation.ParseWeights | topsis.py:52-55 | `[float(w) for w in weights]`: defined exactly when every token parses; then one number per token, each the token's number |
| Validation.IsImpact | topsis.py:62 | the accepted impact symbols, `+` and `-`; a definition, used by AllImpacts, LastChecks and ValidateSuccess |
| Validation.Validate | topsis.py:30-65 | `validate_inputs` as a value: the checks in the program's order, the first failing one deciding the error; its meaning is stated by TooFewColumnsIff, NonNumericIff, ListChecksPrecedeCounts, CountsPrecedeParsing, ImpactsCheckedLast, LastChecks and ValidateSuccess |
| Validation.CheckArguments | topsis.py:43-63 | the argument checks report only argument errors |
| Validation.CheckTokens | topsis.py:46-63 | the checks after parsing the lists report neither of `parse_list`'s errors |
| Validation.TooFewColumnsIff | topsis.py:30-31 | the too-few-columns error exactly when the table has fewer than three columns |
| Validation.NonNumericIff | topsis.py:36-41 | with three or more columns: the non-numeric error exactly when some criteria cell is not a number, and then with exactly the bad columns' names |
| Validation.ListChecksPrecedeCounts | topsis.py:43-50 | a malformed weights list is reported whatever the impacts are; a malformed impacts list is reported whatever the counts are |
| Validation.CountsPrecedeParsing | topsis.py:46-55 | a wrong weight count is reported (with both counts) whatever the tokens are, and a wrong impact count comes next, before any weight is read as a number |
| Validation.ImpactsCheckedLast | topsis.py:52-63 | an invalid-impact error implies every earlier check passed: the lists parsed, both counts match the criteria, every weight is a number and positive, and some impact is invalid |
| Validation.LastChecks | topsis.py:52-65 | once both lists parse and both counts match: an unparseable weight gives the non-numeric-weight error; otherwise a weight that is not positive gives the non-positive-weight error; otherwise an impact other than `+` or `-` gives the invalid-impact error; otherwise validation succeeds with the criteria names, the matrix, the parsed weights and the impact tokens |
| Validation.CheckTokensInvalidImpact | topsis.py:46-63 | the same as ImpactsCheckedLast for the token checks alone |
| Validation.CheckTokensSuccess | topsis.py:46-65 | passing the token checks: matching counts, the weights are the tokens' numbers and all positive, every impact is `+` or `-` |
| Validation.ValidateSuccess | topsis.py:30-65 | on success: at least three columns; the criteria are every column after the first, at least two; every cell is numeric and the matrix holds them; one weight and one impact per criterion; each weight is its token's number and positive; the impacts are `parse_list`'s tokens, each `+` or `-` |
| Validation.RestripIsIdentity | topsis.py:60 | stripping `parse_list`'s tokens again changes none of them |
| Validation.AllImpacts | topsis.py:61-63 | the impacts loop passes exactly when every impact is `+` or `-` |
| Validation.ValidateArguments | topsis.py:43-65 | the statement-by-statement argument checks, including the second strip, give the result of CheckArguments |
| Validation.ValidateInputs | topsis.py:30-65 | the coercion loop filling an array of coerced columns and the early exits give exactly the result of Validate |
| Engine.SqrtZero | topsis.py:70 | the square root is never negative and is zero exactly for zero |
| Engine.Column | topsis.py:70 | `X[:, j]`: one entry per row |
| Engine.Norms | topsis.py:70 | `denom`: one norm per column; its meaning is stated by NormZeroIff and AnyZeroNormIff |
| Engine.Normalize | topsis.py:73 | `R = X / denom`: same shape as X; its entries are stated by WeightedEntry |
| Engine.Normalized | topsis.py:70-73 | R with denom the column norms, defined once no column is all zeros; same shape as X |
| Engine.NormZeroIff | topsis.py:70-71 | a column norm is never negative, and is zero exactly when the column is all zeros |
| Engine.AnyZeroNormIff | topsis.py:70-72 | some norm is zero exactly when some column is all zeros; otherwise every norm is positive and `X / denom` is defined |
| Engine.HasAlternatives | topsis.py:70-72 | once no column is all zeros there is at least one row, so every column has a max and a min |
| Engine.NormalizeWeights | topsis.py:75 | `W = weights / weights.sum()`: one weight per criterion; its meaning is stated by NormalizedWeights and NormalizeWeightsScaleInvariant |
| Engine.NormalizedWeights | topsis.py:75 | the normalised weights are positive and sum to exactly 1 |
| Engine.NormalizeWeightsScaleInvariant | topsis.py:75 | multiplying every weight by the same c > 0 leaves the normalised weights unchanged |
| Engine.Weigh | topsis.py:76 | `V = R * W`: same shape as R; its entries are stated by WeightedEntry |
| Engine.Weighted | topsis.py:69-76 | V computed from X and the weights: same shape as X; see WeightedEntry and SameWeightedRow |
| Engine.ColMax | topsis.py:83 | `V[:, j].max()`: bounds every entry of the column and is attained by some row |
| Engine.ColMin | topsis.py:84 | `V[:, j].min()`: bounded by every entry of the column and attained by some row |
| Engine.IdealBest | topsis.py:78-87 | `ideal_best`: one value per criterion; its meaning is stated by IdealsBound, FillIdeals and FlipIdeals |
| Engine.IdealWorst | topsis.py:78-87 | `ideal_worst`: one value per criterion; its meaning is stated by IdealsBound, FillIdeals and FlipIdeals |
| Engine.Flip | topsis.py:82 | every impact reversed: the result is `+` exactly where the impact is not `+` |
| Engine.FlipIdeals | topsis.py:78-87 | reversing every impact swaps the ideal best and the ideal worst |
| Engine.IdealsBound | topsis.py:78-87 | for a `+` criterion every entry lies between the ideal worst and the ideal best; for any other impact the order is swapped; both ideals are attained by some row |
| Engine.FillIdeals | topsis.py:78-87 | the zero-initialised arrays filled column by column equal IdealBest and IdealWorst: max/min for `+`, min/max otherwise |
| Engine.Diff | topsis.py:89-90 | `V[i] - ideal`, entry by entry |
| Engine.Distance | topsis.py:89-90 | a Euclidean distance is never negative, and is zero exactly when the row equals the target |
| Engine.Separations | topsis.py:89-90 | `S_plus` or `S_minus`: one distance per alternative; a definition, its entries used by ScoreEntry |
| Engine.WeightedEntry | topsis.py:73-76 | `V[i][j] == X[i][j] / denom[j] * W[j]`, with the column norm and the normalised weight positive |
| Engine.SameWeightedRow | topsis.py:73-76 | two rows agree in a column of V exactly when they agree in X |
| Engine.ScoreOf | topsis.py:92 | the score is NaN exactly when `S+` and `S-` are both zero; otherwise it lies in [0, 1], is 1 exactly when `S+` is zero and is 0 exactly when `S-` is zero |
| Engine.ScoreOfSwap | topsis.py:92 | swapping `S+` and `S-` keeps NaN as NaN and turns a score into its complement 1 - score |
| Engine.Scores | topsis.py:89-92 | `score`: one per alternative; its meaning is stated by ScoreEntry, ScoreAt, DegenerateIff, ScoresWeightScaleInvariant and FlipScores |
| Engine.ScoreEntry | topsis.py:89-92 | an alternative's score is ScoreOf of its distances to the ideal best and to the ideal worst |
| Engine.ScoreAt | topsis.py:89-92 | an alternative's score is NaN exactly when its weighted row is both ideals; otherwise it lies in [0, 1]; it is 1 exactly when the row is the ideal best but not the ideal worst; it is 0 exactly when the row is the ideal worst but not the ideal best |
| Engine.IdealsMeet | topsis.py:78-87 | a row equal to both ideals forces every row to equal it |
| Engine.ConstantRowsAreIdeal | topsis.py:78-87 | when all rows are equal, each equals both ideals |
| Engine.DegenerateIff | topsis.py:92 | some score is NaN exactly when all rows of X are identical, and then every score is NaN |
| Engine.ScoresWeightScaleInvariant | topsis.py:75-92 | multiplying every weight by the same c > 0 leaves every score unchanged |
| Engine.FlipScores | topsis.py:78-92 | reversing every impact direction reverses the ranking effect: a NaN score stays NaN and every other score becomes 1 - score |
| Engine.Keys | topsis.py:93 | the key each alternative is ranked by: its score where it is a number (NaN arises only for every alternative at once, see DegenerateIff) |
| Engine.Topsis | topsis.py:68-95 | the zero-norm error exactly when some column is all zeros; otherwise the scores are Scores and the ranks are a ranking of them |
| Ranking.Pigeonhole | topsis.py:93 | an injective sequence of values in 1..m has at most m elements |
| Ranking.RankingIsPermutation | topsis.py:93 | every rank 1..M is used, so the ranks are a permutation of 1..M |
| Ranking.RankOrder | topsis.py:93 | a better rank means a score at least as high; between different scores, the better rank goes to the higher score and only to it |
| Ranking.DistinctScoresExample | topsis.py:93 | the only ranking of scores 0.2, 0.9 and 0.5 is 3, 1, 2 |
| Ranking.SelectBest | topsis.py:93 | an unranked alternative with the highest score among the unranked, or -1 exactly when all are ranked |
| Ranking.SelectStep | topsis.py:93 | ranking the best unranked alternative next keeps the selection invariant |
| Ranking.SelectedInjective | topsis.py:93 | during selection no rank is given twice |
| Ranking.SomeUnranked | topsis.py:93 | while fewer than M are ranked some alternative is unranked |
| Ranking.AllRanked | topsis.py:93 | after M steps every alternative is ranked |
| Ranking.SelectedIsRanking | topsis.py:93 | the completed selection is a descending order and a ranking |
| Ranking.SelectNext | topsis.py:93 | one selection step on the order and rank arrays: the alternative put at position p was unranked and has the highest score among the unranked; the order array changes only at p and the rank array only at that alternative, which gets rank p + 1; the invariant holds for one more rank |
| Ranking.Rank | topsis.py:93 | the order lists every alternative once from the highest score down; the ranks are a ranking of the scores; the alternative at position p of the order has rank p + 1 |
| Report.IndexOf | topsis.py:114-115 | the first position of a column name, None exactly when the name is absent |
| Report.IndexOfAppend | topsis.py:114-115 | appending a different name does not move a name's first position |
| Report.Lookup | topsis.py:114-115 | `df[name]` is missing exactly when no column has that name |
| Report.WithColumn | topsis.py:114-115 | assigning a column keeps the frame rectangular |
| Report.WithColumnLookup | topsis.py:114-115 | after `df[name] = cells`, the row count is unchanged, name holds cells, and every other name holds what it held |
| Report.ScoreCells | topsis.py:114 | `df["Topsis Score"]`: one cell per score, unrounded |
| Report.RankCells | topsis.py:115 | `df["Rank"]`: one cell per rank |
| Report.WithResults | topsis.py:114-115 | the frame with the score and rank columns set is rectangular |
| Report.ResultsLayout | topsis.py:114-115 | the result keeps every row; the score and rank columns hold the evaluation; every other column is unchanged; with neither column present, both are appended after the existing ones |
| Report.ResultsAppended | topsis.py:114-115 | with neither result column present, the frame is the input with the score column then the rank column appended |
| Report.EngineInputsFrom | topsis.py:111-112 | what passed the checks meets the engine's demands |
| Report.ValidatedEngineInputs | topsis.py:111-112 | a successful validation gives the engine a matrix with one row per table row and what it demands |
| Report.Outcome | topsis.py:111-112 | the outcome of `validate_inputs` then `topsis` as a value: on success one score per table row; Run is proved against it |
| Report.DataFrame.constructor | topsis.py:26 | the frame as read |
| Report.DataFrame.SetColumn | topsis.py:114-115 | the new contents are WithColumn of the old |
| Report.Run | topsis.py:111-115 | an error exactly when validation or the zero-norm check fails, with that error and the frame untouched; otherwise the scores of the validated table, ranks that order them, one of each per row, and the frame with the two columns set |

## Left out

- File existence, `pd.read_csv`, `df.to_csv`, printing, `sys.exit` and the `sys.argv` handling in `main` (topsis.py:22-28, 98-110, 117-122): I/O and process control. Every `error_exit` of the core is a returned `Error` value instead.
- `read_csv` itself: the model starts from a parsed, rectangular frame (`WellFormed` is a precondition of validation). Empty CSV cells, which pandas reads as NaN, are `NonNum` cells. Duplicate column names are mangled by pandas, a step not modelled; `IndexOf` takes the first occurrence of a name.
- Floating point: every quantity is a Dafny `real`, so overflow, rounding error and IEEE infinities are absent.
- Python's `float()` grammar at line 53: it is the `parseNum` parameter. Neither "inf" nor "nan" is modelled, and "nan" would pass the `<= 0` check at line 57 in the source.
- The concrete `np.sqrt`: it is the `sqrt` parameter, constrained only by `IsSqrt`.
- Report.ScoreCells: the rounding `np.round(score, 6)` at line 114 is not modelled, so the score column holds the exact scores. A NaN score becomes an empty `NonNum` cell. The ranks are computed from the unrounded scores, as in the source.
- Ranking.Rank: numpy's `argsort` is not stable, so the order among tied scores is not specified. The contract does not pin it down: ties get distinct ranks in some order.
- Engine.Keys: the ranking is taken over the scores with NaN read as 0. NaN arises only when every score is NaN (`DegenerateIff`), so every ranking of those keys is allowed, like a tie. numpy's placement of NaN in `argsort` is not modelled.
- Engine.Topsis: requires at least one criterion. Validation guarantees two (`ValidateSuccess`), so every caller meets this.
- The unit length of the normalised columns of `R` (line 73) is not proved. Only what the scores depend on is proved: positive norms, and the exact entries of `V` (`WeightedEntry`).
- Every `impact` other than `+` is treated like `-` in the ideal selection, as in lines 82-87. After validation only `-` occurs.
- The second strip of the impacts (line 60) is kept in `ValidateArguments` and proved to change nothing (`RestripIsIdentity`). It is not modelled as a separate operation.
- The error on an invalid impact (line 63) does not name the offending token, because the source's message does not.
- app.py is not part of this model. It is web glue: routes, upload, download and email. It also calls a package module that is not part of this model.
