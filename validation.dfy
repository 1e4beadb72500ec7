/**
 * validate_inputs (topsis.py:30-65) without the file read: the ordered
 * chain of checks on the table, the weights argument and the impacts
 * argument. The first check that fails decides the error.
 */
module Validation {
  import opened Wrappers
  import opened Errors
  import opened Table
  import opened Seqs
  import opened Tokens

  /** pd.to_numeric(..., errors="coerce") on one cell: its number, or None for NaN. */
  function Coerce(c: Cell): (r: Option<real>)
    ensures r.None? <==> c.NonNum?
    ensures r.Some? ==> r.value == c.value
  {
    match c
    case Num(v) => Some(v)
    case NonNum(_) => None
  }

  /** One column after coercion, cell by cell. */
  function CoerceColumn(col: seq<Cell>): (r: seq<Option<real>>)
    ensures |r| == |col|
    ensures forall i :: 0 <= i < |col| ==> r[i] == Coerce(col[i])
  {
    seq(|col|, i requires 0 <= i < |col| => Coerce(col[i]))
  }

  /** Every column after coercion. */
  function CoerceColumns(cols: seq<seq<Cell>>): (r: seq<seq<Option<real>>>)
    ensures |r| == |cols|
    ensures forall j :: 0 <= j < |cols| ==> r[j] == CoerceColumn(cols[j])
  {
    seq(|cols|, j requires 0 <= j < |cols| => CoerceColumn(cols[j]))
  }

  /** isna().any() of one coerced column. */
  predicate HasNaN(col: seq<Option<real>>) {
    None in col
  }

  /** The column holds a cell that is not a number. */
  predicate HasNonNum(col: seq<Cell>) {
    exists i :: 0 <= i < |col| && col[i].NonNum?
  }

  /** columns[isna().any()].tolist(): the names of the coerced columns holding a NaN, in column order. */
  function BadColumns(names: seq<string>, coerced: seq<seq<Option<real>>>): (bad: seq<string>)
    requires |names| == |coerced|
    ensures forall k :: 0 <= k < |bad| ==> bad[k] in names
  {
    var idx := Select(coerced, HasNaN);
    seq(|idx|, k requires 0 <= k < |idx| => names[idx[k]])
  }

  /** The names of the criteria columns: every column after the first. */
  function CriteriaNames(f: Frame): (criteria: seq<string>)
    requires WellFormed(f) && |f.names| >= 1
    ensures |criteria| == |f.names| - 1
    ensures forall k :: 0 <= k < |criteria| ==> criteria[k] == f.names[k + 1]
  {
    f.names[1..]
  }

  /** The names of the criteria columns holding a non-numeric cell (line 40). */
  function NonNumericColumnsOf(f: Frame): (bad: seq<string>)
    requires WellFormed(f) && |f.names| >= 1
    ensures forall k :: 0 <= k < |bad| ==> bad[k] in f.names[1..]
  {
    BadColumns(CriteriaNames(f), CoerceColumns(f.columns[1..]))
  }

  /** Every criteria cell is a number. */
  predicate NumericCriteria(f: Frame)
    requires WellFormed(f)
  {
    forall j, i :: 1 <= j < |f.columns| && 0 <= i < Height(f) ==> f.columns[j][i].Num?
  }

  /** Row i of the given columns: the number in cell i of each. */
  function RowOf(cols: seq<seq<Cell>>, i: nat): (r: seq<real>)
    requires forall j :: 0 <= j < |cols| ==> i < |cols[j]| && cols[j][i].Num?
    ensures |r| == |cols|
    ensures forall j :: 0 <= j < |cols| ==> Num(r[j]) == cols[j][i]
  {
    seq(|cols|, j requires 0 <= j < |cols| => cols[j][i].value)
  }

  /**
   * df[criteria_cols].astype(float).values: the criteria as a matrix with
   * one row per alternative and one column per criterion.
   */
  function CriteriaMatrix(f: Frame): (m: seq<seq<real>>)
    requires WellFormed(f) && |f.names| >= 1 && NumericCriteria(f)
    ensures |m| == Height(f)
    ensures forall i :: 0 <= i < |m| ==> |m[i]| == |f.columns| - 1
    ensures forall i, j :: 0 <= i < |m| && 0 <= j < |f.columns| - 1 ==> Num(m[i][j]) == f.columns[j + 1][i]
  {
    var cols := f.columns[1..];
    assert forall j :: 0 <= j < |cols| ==> cols[j] == f.columns[j + 1];
    seq(Height(f), i requires 0 <= i < Height(f) => RowOf(cols, i))
  }

  /**
   * [float(w) for w in weights]: every token's number, or None as soon as
   * one token is not a number.
   */
  function ParseWeights(tokens: seq<string>, parseNum: string -> Option<real>): (r: Option<seq<real>>)
    ensures r.Some? <==> forall k :: 0 <= k < |tokens| ==> parseNum(tokens[k]).Some?
    ensures r.Some? ==> |r.value| == |tokens|
    ensures r.Some? ==> forall k :: 0 <= k < |tokens| ==> parseNum(tokens[k]) == Some(r.value[k])
  {
    if |tokens| == 0 then Some([])
    else
      match parseNum(tokens[0])
      case None => None
      case Some(w) =>
        var rest := ParseWeights(tokens[1..], parseNum);
        assert forall k :: 1 <= k < |tokens| ==> tokens[k] == tokens[1..][k - 1];
        if rest.None? then None else Some([w] + rest.value)
  }

  /** An impact symbol the program accepts. */
  predicate IsImpact(s: string) {
    s == "+" || s == "-"
  }

  /** What validate_inputs hands to the engine. */
  datatype Validated = Validated(
    criteria: seq<string>,
    matrix: seq<seq<real>>,
    weights: seq<real>,
    impacts: seq<string>)

  /**
   * validate_inputs as a value: the checks in the program's order, the
   * first failing one deciding the error.
   */
  function Validate(f: Frame, weightsArg: string, impactsArg: string,
                    parseNum: string -> Option<real>): Result<Validated, Error>
    requires WellFormed(f)
  {
    if |f.names| < 3 then Err(TooFewColumns)
    else if NonNumericColumnsOf(f) != [] then Err(NonNumericColumns(NonNumericColumnsOf(f)))
    else
      NoNonNumericIsNumeric(f);
      CheckArguments(f, weightsArg, impactsArg, parseNum)
  }

  /** An error about the weights or impacts arguments rather than about the table. */
  predicate ArgumentError(e: Error) {
    || e.NotCommaSeparated? || e.EmptyList?
    || e.WeightCountMismatch? || e.ImpactCountMismatch?
    || e.NonNumericWeight? || e.NonPositiveWeight? || e.InvalidImpact?
  }

  /** The checks of validate_inputs after the table passed (lines 43-63). */
  function CheckArguments(f: Frame, weightsArg: string, impactsArg: string,
                          parseNum: string -> Option<real>): (r: Result<Validated, Error>)
    requires WellFormed(f) && |f.names| >= 3 && NumericCriteria(f)
    ensures r.Err? ==> ArgumentError(r.error)
  {
    var weights :- ParseList(weightsArg, "Weights");
    var impacts :- ParseList(impactsArg, "Impacts");
    CheckTokens(f, weights, impacts, parseNum)
  }

  /** The checks of validate_inputs on the two token lists (lines 46-63). */
  function CheckTokens(f: Frame, weights: seq<string>, impacts: seq<string>,
                       parseNum: string -> Option<real>): (r: Result<Validated, Error>)
    requires WellFormed(f) && |f.names| >= 3 && NumericCriteria(f)
    ensures r.Err? ==> ArgumentError(r.error) && !r.error.NotCommaSeparated? && !r.error.EmptyList?
  {
    var n := |f.names| - 1;
    if |weights| != n then Err(WeightCountMismatch(|weights|, n))
    else if |impacts| != n then Err(ImpactCountMismatch(|impacts|, n))
    else
      match ParseWeights(weights, parseNum)
      case None => Err(NonNumericWeight)
      case Some(w) =>
        if exists k :: 0 <= k < |w| && w[k] <= 0.0 then Err(NonPositiveWeight)
        else if exists k :: 0 <= k < |impacts| && !IsImpact(impacts[k]) then Err(InvalidImpact)
        else Ok(Validated(CriteriaNames(f), CriteriaMatrix(f), w, impacts))
  }

  /**
   * validate_inputs step by step: the coercion loop filling a fresh array
   * of coerced criteria columns (lines 36-37), the early exits, the second strip of
   * the impacts (line 60) and the loop over them (lines 61-63).
   */
  method ValidateInputs(f: Frame, weightsArg: string, impactsArg: string,
                        parseNum: string -> Option<real>) returns (r: Result<Validated, Error>)
    requires WellFormed(f)
    ensures r == Validate(f, weightsArg, impactsArg, parseNum)
  {
    if |f.names| < 3 {
      return Err(TooFewColumns);
    }
    var n := |f.names| - 1;
    var criteria := new seq<Option<real>>[n];
    for j := 0 to n
      invariant forall k :: 0 <= k < j ==> criteria[k] == CoerceColumn(f.columns[k + 1])
    {
      criteria[j] := CoerceColumn(f.columns[j + 1]);
    }
    assert criteria[..] == CoerceColumns(f.columns[1..]);
    var bad := BadColumns(f.names[1..], criteria[..]);
    if bad != [] {
      return Err(NonNumericColumns(bad));
    }
    NoNonNumericIsNumeric(f);
    r := ValidateArguments(f, weightsArg, impactsArg, parseNum);
  }

  /** The rest of validate_inputs once the table passed (lines 43-65). */
  method ValidateArguments(f: Frame, weightsArg: string, impactsArg: string,
                           parseNum: string -> Option<real>) returns (r: Result<Validated, Error>)
    requires WellFormed(f) && |f.names| >= 3 && NumericCriteria(f)
    ensures r == CheckArguments(f, weightsArg, impactsArg, parseNum)
  {
    var n := |f.names| - 1;
    var weightTokens :- ParseList(weightsArg, "Weights");
    var impactTokens :- ParseList(impactsArg, "Impacts");
    assert CheckArguments(f, weightsArg, impactsArg, parseNum) == CheckTokens(f, weightTokens, impactTokens, parseNum);
    if |weightTokens| != n {
      return Err(WeightCountMismatch(|weightTokens|, n));
    }
    if |impactTokens| != n {
      return Err(ImpactCountMismatch(|impactTokens|, n));
    }
    var parsed := ParseWeights(weightTokens, parseNum);
    if parsed.None? {
      return Err(NonNumericWeight);
    }
    var weights := parsed.value;
    if exists k :: 0 <= k < |weights| && weights[k] <= 0.0 {
      return Err(NonPositiveWeight);
    }
    var impacts := seq(|impactTokens|, k requires 0 <= k < |impactTokens| => Strip(impactTokens[k]));
    RestripIsIdentity(impactsArg, "Impacts");
    assert impacts == impactTokens;
    var impactsValid := AllImpacts(impacts);
    if !impactsValid {
      return Err(InvalidImpact);
    }
    return Ok(Validated(f.names[1..], CriteriaMatrix(f), weights, impacts));
  }

  /** The loop over the impacts (lines 61-63): true exactly when every one is "+" or "-". */
  method AllImpacts(impacts: seq<string>) returns (ok: bool)
    ensures ok <==> forall k :: 0 <= k < |impacts| ==> IsImpact(impacts[k])
  {
    for k := 0 to |impacts|
      invariant forall i :: 0 <= i < k ==> IsImpact(impacts[i])
    {
      if !IsImpact(impacts[k]) {
        return false;
      }
    }
    return true;
  }

  /** Stripping the tokens of parse_list a second time changes none of them (line 60). */
  lemma RestripIsIdentity(arg: string, name: string)
    requires ParseList(arg, name).Ok?
    ensures var tokens := ParseList(arg, name).value;
      forall k :: 0 <= k < |tokens| ==> Strip(tokens[k]) == tokens[k]
  {
    var tokens := ParseList(arg, name).value;
    ParseListClean(arg, name);
    forall k | 0 <= k < |tokens|
      ensures Strip(tokens[k]) == tokens[k]
    {
      StripUnique(tokens[k], 0, |tokens[k]|);
      assert tokens[k][0..|tokens[k]|] == tokens[k];
    }
  }

  /** A criteria column is reported exactly when it holds a non-numeric cell. */
  lemma CoercedHasNaN(col: seq<Cell>)
    ensures HasNaN(CoerceColumn(col)) <==> HasNonNum(col)
  {
    var c := CoerceColumn(col);
    if HasNaN(c) {
      var i :| 0 <= i < |c| && c[i] == None;
      assert col[i].NonNum?;
    }
  }

  /**
   * The reported columns are exactly the criteria columns holding a
   * non-numeric cell, each named once, in column order: idx gives each
   * reported name's column.
   */
  lemma NonNumericColumnsExact(f: Frame) returns (idx: seq<nat>)
    requires WellFormed(f) && |f.names| >= 1
    ensures var bad := NonNumericColumnsOf(f);
      && |idx| == |bad|
      && (forall k :: 0 <= k < |idx| ==> 1 <= idx[k] < |f.names| && bad[k] == f.names[idx[k]])
      && (forall a, b :: 0 <= a < b < |idx| ==> idx[a] < idx[b])
      && (forall j :: 1 <= j < |f.names| ==> (j in idx <==> HasNonNum(f.columns[j])))
  {
    idx := ReportedIndices(f);
    forall j | 1 <= j < |f.names|
      ensures j in idx <==> HasNonNum(f.columns[j])
    {
      ReportedIndex(f, j);
    }
  }

  /** The frame positions of the columns NonNumericColumnsOf reports. */
  ghost function ReportedIndices(f: Frame): seq<nat>
    requires WellFormed(f) && |f.names| >= 1
  {
    var sel := Select(CoerceColumns(f.columns[1..]), HasNaN);
    seq(|sel|, k requires 0 <= k < |sel| => sel[k] + 1)
  }

  /** Column j is among the reported ones exactly when it holds a non-numeric cell. */
  lemma ReportedIndex(f: Frame, j: nat)
    requires WellFormed(f) && 1 <= j < |f.names|
    ensures j in ReportedIndices(f) <==> HasNonNum(f.columns[j])
  {
    var coerced := CoerceColumns(f.columns[1..]);
    var sel := Select(coerced, HasNaN);
    var idx := ReportedIndices(f);
    CoercedHasNaN(f.columns[j]);
    assert coerced[j - 1] == CoerceColumn(f.columns[j]);
    if j in idx {
      var k :| 0 <= k < |idx| && idx[k] == j;
      assert sel[k] == j - 1;
    }
    if HasNaN(coerced[j - 1]) {
      assert j - 1 in sel;
      var k :| 0 <= k < |sel| && sel[k] == j - 1;
      assert idx[k] == j;
    }
  }

  /** No reported column means every criteria cell is a number. */
  lemma NoNonNumericIsNumeric(f: Frame)
    requires WellFormed(f) && |f.names| >= 1
    ensures NonNumericColumnsOf(f) == [] <==> NumericCriteria(f)
  {
    var idx := NonNumericColumnsExact(f);
    if NonNumericColumnsOf(f) == [] {
      forall j, i | 1 <= j < |f.columns| && 0 <= i < Height(f)
        ensures f.columns[j][i].Num?
      {
        assert j !in idx;
      }
    } else {
      var j := idx[0];
      assert HasNonNum(f.columns[j]);
      var i :| 0 <= i < |f.columns[j]| && f.columns[j][i].NonNum?;
    }
  }

  /** Fewer than three columns is reported, and only then. */
  lemma TooFewColumnsIff(f: Frame, weightsArg: string, impactsArg: string,
                         parseNum: string -> Option<real>)
    requires WellFormed(f)
    ensures Validate(f, weightsArg, impactsArg, parseNum) == Err(TooFewColumns) <==> |f.names| < 3
  {
    if |f.names| >= 3 && NonNumericColumnsOf(f) == [] {
      NoNonNumericIsNumeric(f);
      assert Validate(f, weightsArg, impactsArg, parseNum) == CheckArguments(f, weightsArg, impactsArg, parseNum);
    }
  }

  /**
   * With at least three columns, validation reports non-numeric columns
   * exactly when some criteria cell is not a number, and then it reports
   * NonNumericColumnsOf(f) (see NonNumericColumnsExact).
   */
  lemma NonNumericIff(f: Frame, weightsArg: string, impactsArg: string,
                      parseNum: string -> Option<real>)
    requires WellFormed(f) && |f.names| >= 3
    ensures var r := Validate(f, weightsArg, impactsArg, parseNum);
      (r.Err? && r.error.NonNumericColumns?) <==> !NumericCriteria(f)
    ensures !NumericCriteria(f) ==>
      Validate(f, weightsArg, impactsArg, parseNum) == Err(NonNumericColumns(NonNumericColumnsOf(f)))
  {
    NoNonNumericIsNumeric(f);
    if NumericCriteria(f) {
      assert Validate(f, weightsArg, impactsArg, parseNum) == CheckArguments(f, weightsArg, impactsArg, parseNum);
    }
  }

  /**
   * The checks on the weight and impact lists come before the count
   * checks: once the table passes, a malformed weights list is reported
   * whatever the impacts are, and a malformed impacts list whatever the
   * counts are.
   */
  lemma ListChecksPrecedeCounts(f: Frame, weightsArg: string, impactsArg: string,
                                parseNum: string -> Option<real>)
    requires WellFormed(f) && |f.names| >= 3 && NumericCriteria(f)
    ensures ParseList(weightsArg, "Weights").Err? ==>
      Validate(f, weightsArg, impactsArg, parseNum) == Err(ParseList(weightsArg, "Weights").error)
    ensures ParseList(weightsArg, "Weights").Ok? && ParseList(impactsArg, "Impacts").Err? ==>
      Validate(f, weightsArg, impactsArg, parseNum) == Err(ParseList(impactsArg, "Impacts").error)
  {
    NoNonNumericIsNumeric(f);
    assert Validate(f, weightsArg, impactsArg, parseNum) == CheckArguments(f, weightsArg, impactsArg, parseNum);
  }

  /**
   * The count checks (weights, then impacts) come before the weights are
   * read as numbers: a wrong count is reported whatever the tokens are.
   */
  lemma CountsPrecedeParsing(f: Frame, weightsArg: string, impactsArg: string,
                             parseNum: string -> Option<real>)
    requires WellFormed(f) && |f.names| >= 3 && NumericCriteria(f)
    requires ParseList(weightsArg, "Weights").Ok? && ParseList(impactsArg, "Impacts").Ok?
    ensures var weights := ParseList(weightsArg, "Weights").value;
      var impacts := ParseList(impactsArg, "Impacts").value;
      var n := |f.names| - 1;
      && (|weights| != n ==> Validate(f, weightsArg, impactsArg, parseNum) == Err(WeightCountMismatch(|weights|, n)))
      && (|weights| == n && |impacts| != n ==>
            Validate(f, weightsArg, impactsArg, parseNum) == Err(ImpactCountMismatch(|impacts|, n)))
  {
    NoNonNumericIsNumeric(f);
    assert Validate(f, weightsArg, impactsArg, parseNum) == CheckArguments(f, weightsArg, impactsArg, parseNum);
    var w := ParseList(weightsArg, "Weights").value;
    var i := ParseList(impactsArg, "Impacts").value;
    assert CheckArguments(f, weightsArg, impactsArg, parseNum) == CheckTokens(f, w, i, parseNum);
  }

  /**
   * The impact symbols are checked last: an invalid impact is reported
   * only when every earlier check passed, the weights being numbers, all
   * positive, as many as the impacts and the criteria.
   */
  lemma ImpactsCheckedLast(f: Frame, weightsArg: string, impactsArg: string,
                           parseNum: string -> Option<real>)
    requires WellFormed(f)
    requires Validate(f, weightsArg, impactsArg, parseNum) == Err(InvalidImpact)
    ensures |f.names| >= 3 && NumericCriteria(f)
    ensures ParseList(weightsArg, "Weights").Ok? && ParseList(impactsArg, "Impacts").Ok?
    ensures var weights := ParseList(weightsArg, "Weights").value;
      var impacts := ParseList(impactsArg, "Impacts").value;
      && |weights| == |impacts| == |f.names| - 1
      && ParseWeights(weights, parseNum).Some?
      && (forall k :: 0 <= k < |weights| ==> ParseWeights(weights, parseNum).value[k] > 0.0)
      && (exists k :: 0 <= k < |impacts| && !IsImpact(impacts[k]))
  {
    assert |f.names| >= 3;
    NoNonNumericIsNumeric(f);
    assert Validate(f, weightsArg, impactsArg, parseNum) == CheckArguments(f, weightsArg, impactsArg, parseNum);
    var w := ParseList(weightsArg, "Weights");
    var i := ParseList(impactsArg, "Impacts");
    assert w.Ok? && i.Ok?;
    assert CheckArguments(f, weightsArg, impactsArg, parseNum) == CheckTokens(f, w.value, i.value, parseNum);
    CheckTokensInvalidImpact(f, w.value, i.value, parseNum);
  }

  /**
   * Once both lists parse and both counts match, the last three checks
   * decide the outcome in the program's order: an unparseable weight, then
   * a weight that is not positive, then an impact that is not "+" or "-";
   * and when none of these occurs, validation succeeds with the parsed
   * weights and the impact tokens.
   */
  lemma LastChecks(f: Frame, weightsArg: string, impactsArg: string,
                   parseNum: string -> Option<real>)
    requires WellFormed(f) && |f.names| >= 3 && NumericCriteria(f)
    requires ParseList(weightsArg, "Weights").Ok? && ParseList(impactsArg, "Impacts").Ok?
    requires |ParseList(weightsArg, "Weights").value| == |f.names| - 1
    requires |ParseList(impactsArg, "Impacts").value| == |f.names| - 1
    ensures var weights := ParseList(weightsArg, "Weights").value;
      var impacts := ParseList(impactsArg, "Impacts").value;
      var parsed := ParseWeights(weights, parseNum);
      var r := Validate(f, weightsArg, impactsArg, parseNum);
      && (parsed.None? ==> r == Err(NonNumericWeight))
      && (parsed.Some? && (exists k :: 0 <= k < |weights| && parsed.value[k] <= 0.0) ==> r == Err(NonPositiveWeight))
      && ((parsed.Some? && (forall k :: 0 <= k < |weights| ==> parsed.value[k] > 0.0)
           && (exists k :: 0 <= k < |impacts| && !IsImpact(impacts[k])))
          ==> r == Err(InvalidImpact))
      && ((parsed.Some? && (forall k :: 0 <= k < |weights| ==> parsed.value[k] > 0.0)
           && (forall k :: 0 <= k < |impacts| ==> IsImpact(impacts[k])))
          ==> r == Ok(Validated(f.names[1..], CriteriaMatrix(f), parsed.value, impacts)))
  {
    NoNonNumericIsNumeric(f);
    assert Validate(f, weightsArg, impactsArg, parseNum) == CheckArguments(f, weightsArg, impactsArg, parseNum);
    var w := ParseList(weightsArg, "Weights").value;
    var i := ParseList(impactsArg, "Impacts").value;
    assert CheckArguments(f, weightsArg, impactsArg, parseNum) == CheckTokens(f, w, i, parseNum);
  }

  /** The token checks report an invalid impact only after every other token check passed. */
  lemma CheckTokensInvalidImpact(f: Frame, weights: seq<string>, impacts: seq<string>,
                                 parseNum: string -> Option<real>)
    requires WellFormed(f) && |f.names| >= 3 && NumericCriteria(f)
    requires CheckTokens(f, weights, impacts, parseNum) == Err(InvalidImpact)
    ensures |weights| == |impacts| == |f.names| - 1
    ensures ParseWeights(weights, parseNum).Some?
    ensures forall k :: 0 <= k < |weights| ==> ParseWeights(weights, parseNum).value[k] > 0.0
    ensures exists k :: 0 <= k < |impacts| && !IsImpact(impacts[k])
  {
    var n := |f.names| - 1;
    assert |weights| == n && |impacts| == n;
    var parsed := ParseWeights(weights, parseNum);
    assert parsed.Some?;
    assert !exists k :: 0 <= k < |parsed.value| && parsed.value[k] <= 0.0;
  }

  /** Passing the token checks: the weights are the tokens' numbers, all positive, and every impact is valid. */
  lemma CheckTokensSuccess(f: Frame, weights: seq<string>, impacts: seq<string>,
                           parseNum: string -> Option<real>)
    requires WellFormed(f) && |f.names| >= 3 && NumericCriteria(f)
    requires CheckTokens(f, weights, impacts, parseNum).Ok?
    ensures var v := CheckTokens(f, weights, impacts, parseNum).value;
      && ParseWeights(weights, parseNum).Some?
      && v == Validated(CriteriaNames(f), CriteriaMatrix(f), ParseWeights(weights, parseNum).value, impacts)
      && |weights| == |impacts| == |f.names| - 1
      && (forall k :: 0 <= k < |v.weights| ==> v.weights[k] > 0.0)
      && (forall k :: 0 <= k < |impacts| ==> IsImpact(impacts[k]))
  {
  }

  /**
   * On success: at least two criteria, namely every column after the first;
   * one weight and one impact per criterion; the weights are the tokens'
   * numbers, all positive; every impact is "+" or "-"; and the matrix holds
   * the criteria cells.
   */
  lemma ValidateSuccess(f: Frame, weightsArg: string, impactsArg: string,
                        parseNum: string -> Option<real>)
    requires WellFormed(f)
    requires Validate(f, weightsArg, impactsArg, parseNum).Ok?
    ensures var v := Validate(f, weightsArg, impactsArg, parseNum).value;
      && |f.names| >= 3
      && v.criteria == f.names[1..] && |v.criteria| >= 2
      && NumericCriteria(f) && v.matrix == CriteriaMatrix(f)
      && |v.weights| == |v.impacts| == |v.criteria|
      && ParseList(weightsArg, "Weights").Ok?
      && (forall k :: 0 <= k < |v.weights| ==>
            v.weights[k] > 0.0 && parseNum(ParseList(weightsArg, "Weights").value[k]) == Some(v.weights[k]))
      && v.impacts == ParseList(impactsArg, "Impacts").value
      && (forall k :: 0 <= k < |v.impacts| ==> IsImpact(v.impacts[k]))
  {
    NoNonNumericIsNumeric(f);
    assert Validate(f, weightsArg, impactsArg, parseNum) == CheckArguments(f, weightsArg, impactsArg, parseNum);
    var w := ParseList(weightsArg, "Weights");
    var i := ParseList(impactsArg, "Impacts");
    assert w.Ok? && i.Ok?;
    assert CheckArguments(f, weightsArg, impactsArg, parseNum) == CheckTokens(f, w.value, i.value, parseNum);
    CheckTokensSuccess(f, w.value, i.value, parseNum);
  }
}
