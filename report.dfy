/**
 * The result assembly of main (topsis.py:111-115): validate, run topsis,
 * then add the score and rank columns to the data frame in place. Column
 * assignment df[name] = cells replaces an existing column of that name and
 * otherwise appends a new last column.
 */
module Report {
  import opened Wrappers
  import opened Errors
  import opened Table
  import opened Validation
  import opened Engine
  import opened Ranking

  const ScoreColumn: string := "Topsis Score"
  const RankColumn: string := "Rank"

  /** The first position of name in names, or None when it is absent. */
  function IndexOf(names: seq<string>, name: string): (r: Option<nat>)
    ensures r.None? <==> name !in names
    ensures r.Some? ==> r.value < |names| && names[r.value] == name
    ensures r.Some? ==> forall k :: 0 <= k < r.value ==> names[k] != name
  {
    if |names| == 0 then None
    else if names[0] == name then Some(0)
    else
      match IndexOf(names[1..], name)
      case None => None
      case Some(k) => Some(k + 1)
  }

  /** Appending a different name does not move the first occurrence of name. */
  lemma {:induction false} IndexOfAppend(names: seq<string>, name: string, other: string)
    requires other != name
    ensures IndexOf(names + [other], name) == IndexOf(names, name)
  {
    if |names| > 0 {
      assert (names + [other])[1..] == names[1..] + [other];
      IndexOfAppend(names[1..], name, other);
    }
  }

  /** df[name]: the cells of the first column called name, if any. */
  function Lookup(f: Frame, name: string): (r: Option<seq<Cell>>)
    requires WellFormed(f)
    ensures r.None? <==> name !in f.names
  {
    match IndexOf(f.names, name)
    case Some(k) => Some(f.columns[k])
    case None => None
  }

  /** df[name] = cells on a frame value. */
  function WithColumn(f: Frame, name: string, cells: seq<Cell>): (g: Frame)
    requires WellFormed(f) && |cells| == Height(f)
    ensures WellFormed(g)
  {
    match IndexOf(f.names, name)
    case Some(k) => Frame(f.names, f.columns[k := cells])
    case None => Frame(f.names + [name], f.columns + [cells])
  }

  /**
   * Column assignment behaves as a map update: name now holds cells, every
   * other name holds what it held, and the number of rows is unchanged.
   */
  lemma WithColumnLookup(f: Frame, name: string, cells: seq<Cell>, other: string)
    requires WellFormed(f) && |cells| == Height(f)
    ensures Height(WithColumn(f, name, cells)) == Height(f)
    ensures Lookup(WithColumn(f, name, cells), name) == Some(cells)
    ensures other != name ==> Lookup(WithColumn(f, name, cells), other) == Lookup(f, other)
  {
    var g := WithColumn(f, name, cells);
    match IndexOf(f.names, name)
    case Some(k) =>
      assert g.columns == f.columns[k := cells];
    case None =>
      assert g.names == f.names + [name];
      if other != name {
        IndexOfAppend(f.names, other, name);
      }
  }

  /** np.round is left out: the score column holds the scores themselves, NaN as a missing value. */
  function ScoreCells(scores: seq<Score>): (cells: seq<Cell>)
    ensures |cells| == |scores|
  {
    seq(|scores|, i requires 0 <= i < |scores| => if scores[i].Value? then Num(scores[i].v) else NonNum(""))
  }

  /** The rank column. */
  function RankCells(ranks: seq<nat>): (cells: seq<Cell>)
    ensures |cells| == |ranks|
  {
    seq(|ranks|, i requires 0 <= i < |ranks| => Num(ranks[i] as real))
  }

  /** The frame after topsis.py:114-115. */
  function WithResults(f: Frame, e: Evaluation): (g: Frame)
    requires WellFormed(f) && |e.scores| == Height(f) && |e.ranks| == Height(f)
    ensures WellFormed(g)
  {
    var withScore := WithColumn(f, ScoreColumn, ScoreCells(e.scores));
    WithColumnLookup(f, ScoreColumn, ScoreCells(e.scores), ScoreColumn);
    WithColumn(withScore, RankColumn, RankCells(e.ranks))
  }

  /**
   * The result frame keeps every row in its original order: it has the same
   * rows, the score and rank columns hold the evaluation, every other column
   * is as before, and when the input has neither column the two are
   * appended after the existing ones.
   */
  lemma ResultsLayout(f: Frame, e: Evaluation, other: string)
    requires WellFormed(f) && |e.scores| == Height(f) && |e.ranks| == Height(f)
    ensures Height(WithResults(f, e)) == Height(f)
    ensures Lookup(WithResults(f, e), ScoreColumn) == Some(ScoreCells(e.scores))
    ensures Lookup(WithResults(f, e), RankColumn) == Some(RankCells(e.ranks))
    ensures other != ScoreColumn && other != RankColumn ==> Lookup(WithResults(f, e), other) == Lookup(f, other)
    ensures ScoreColumn !in f.names && RankColumn !in f.names ==>
      WithResults(f, e) == Frame(f.names + [ScoreColumn, RankColumn], f.columns + [ScoreCells(e.scores), RankCells(e.ranks)])
  {
    var s, r := ScoreCells(e.scores), RankCells(e.ranks);
    var f1 := WithColumn(f, ScoreColumn, s);
    WithColumnLookup(f, ScoreColumn, s, other);
    WithColumnLookup(f, ScoreColumn, s, RankColumn);
    WithColumnLookup(f1, RankColumn, r, other);
    WithColumnLookup(f1, RankColumn, r, ScoreColumn);
    if ScoreColumn !in f.names && RankColumn !in f.names {
      ResultsAppended(f, e);
    }
  }

  /** Neither result column present: both are appended, score first. */
  lemma ResultsAppended(f: Frame, e: Evaluation)
    requires WellFormed(f) && |e.scores| == Height(f) && |e.ranks| == Height(f)
    requires ScoreColumn !in f.names && RankColumn !in f.names
    ensures WithResults(f, e) == Frame(f.names + [ScoreColumn, RankColumn], f.columns + [ScoreCells(e.scores), RankCells(e.ranks)])
  {
    var s, r := ScoreCells(e.scores), RankCells(e.ranks);
    var f1 := WithColumn(f, ScoreColumn, s);
    assert f1 == Frame(f.names + [ScoreColumn], f.columns + [s]);
    assert RankColumn !in f1.names;
    assert f.names + [ScoreColumn] + [RankColumn] == f.names + [ScoreColumn, RankColumn];
    assert f.columns + [s] + [r] == f.columns + [s, r];
  }

  /** What validate_inputs returns is what topsis demands. */
  lemma ValidatedEngineInputs(f: Frame, weightsArg: string, impactsArg: string,
                              parseNum: string -> Option<real>, sqrt: real -> real)
    requires WellFormed(f) && IsSqrt(sqrt)
    requires Validate(f, weightsArg, impactsArg, parseNum).Ok?
    ensures var v := Validate(f, weightsArg, impactsArg, parseNum).value;
      && EngineInputs(v.matrix, |v.criteria|, v.weights, v.impacts, sqrt)
      && |v.matrix| == Height(f)
  {
    ValidateSuccess(f, weightsArg, impactsArg, parseNum);
    EngineInputsFrom(f, Validate(f, weightsArg, impactsArg, parseNum).value, sqrt);
  }

  lemma EngineInputsFrom(f: Frame, v: Validated, sqrt: real -> real)
    requires WellFormed(f) && |f.names| >= 3 && NumericCriteria(f) && IsSqrt(sqrt)
    requires v.criteria == f.names[1..] && v.matrix == CriteriaMatrix(f)
    requires |v.weights| == |v.impacts| == |v.criteria|
    requires forall k :: 0 <= k < |v.weights| ==> v.weights[k] > 0.0
    ensures EngineInputs(v.matrix, |v.criteria|, v.weights, v.impacts, sqrt)
    ensures |v.matrix| == Height(f)
  {
  }

  /** The outcome of main as a value: validation, then the zero-norm check, then the scores. */
  ghost function Outcome(f: Frame, weightsArg: string, impactsArg: string,
                         parseNum: string -> Option<real>, sqrt: real -> real): (r: Result<seq<Score>, Error>)
    requires WellFormed(f) && IsSqrt(sqrt)
    ensures r.Ok? ==> |r.value| == Height(f)
  {
    match Validate(f, weightsArg, impactsArg, parseNum)
    case Err(e) => Err(e)
    case Ok(v) =>
      ValidatedEngineInputs(f, weightsArg, impactsArg, parseNum, sqrt);
      if ZeroColumn(v.matrix, |v.criteria|) then Err(ZeroNormColumn)
      else Ok(Scores(v.matrix, |v.criteria|, v.weights, v.impacts, sqrt))
  }

  /** pandas.DataFrame, reduced to what main does with it. */
  class DataFrame {
    var names: seq<string>
    var columns: seq<seq<Cell>>

    /** The frame as pd.read_csv returned it. */
    constructor (f: Frame)
      ensures Value() == f
    {
      names := f.names;
      columns := f.columns;
    }

    /** The current contents. */
    function Value(): Frame
      reads this
    {
      Frame(names, columns)
    }

    /** df[name] = cells. */
    method SetColumn(name: string, cells: seq<Cell>)
      requires WellFormed(Value()) && |cells| == Height(Value())
      modifies this
      ensures Value() == WithColumn(old(Value()), name, cells)
    {
      match IndexOf(names, name)
      case Some(k) =>
        columns := columns[k := cells];
      case None =>
        names := names + [name];
        columns := columns + [cells];
    }
  }

  /**
   * main without the file and console I/O (topsis.py:111-115): on an error
   * the frame is untouched; otherwise the scores are Outcome's, the ranks
   * order them, and the frame gains the two result columns.
   */
  method Run(df: DataFrame, weightsArg: string, impactsArg: string,
             parseNum: string -> Option<real>, sqrt: real -> real) returns (r: Result<Evaluation, Error>)
    requires WellFormed(df.Value()) && IsSqrt(sqrt)
    modifies df
    ensures r.Err? <==> Outcome(old(df.Value()), weightsArg, impactsArg, parseNum, sqrt).Err?
    ensures r.Err? ==> r.error == Outcome(old(df.Value()), weightsArg, impactsArg, parseNum, sqrt).error
    ensures r.Err? ==> df.Value() == old(df.Value())
    ensures r.Ok? ==> r.value.scores == Outcome(old(df.Value()), weightsArg, impactsArg, parseNum, sqrt).value
    ensures r.Ok? ==> IsRanking(Keys(r.value.scores), r.value.ranks)
    ensures r.Ok? ==> |r.value.scores| == Height(old(df.Value())) && |r.value.ranks| == Height(old(df.Value()))
    ensures r.Ok? ==> df.Value() == WithResults(old(df.Value()), r.value)
  {
    var f := df.Value();
    var v :- ValidateInputs(f, weightsArg, impactsArg, parseNum);
    ValidatedEngineInputs(f, weightsArg, impactsArg, parseNum, sqrt);
    var e :- Topsis(v.matrix, |v.criteria|, v.weights, v.impacts, sqrt);
    df.SetColumn(ScoreColumn, ScoreCells(e.scores));
    WithColumnLookup(f, ScoreColumn, ScoreCells(e.scores), ScoreColumn);
    df.SetColumn(RankColumn, RankCells(e.ranks));
    r := Ok(e);
  }
}
