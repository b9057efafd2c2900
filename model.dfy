/**
 * The predictor's own logic: the required-column check and the construction
 * of the training set (shift the Open column up one row into a new
 * `Future Open` column, drop every row with a missing cell, project the five
 * features and the target), the extraction of the last row's features for a
 * prediction, and this file's copy of the recommendation rule.
 *
 * The fitted regression is not modelled: training hands the examples to a
 * fitting function `fit` given as a parameter, and prediction applies the
 * fitted model, an arbitrary function from a feature vector to a price.
 */
module Model {
  import opened Wrappers
  import Html
  import Recommend

  const Open: string := "Open"
  const Close: string := "Close"
  const High: string := "High"
  const Low: string := "Low"
  const Volume: string := "Volume"
  /** The column that training adds to hold the next row's Open. */
  const FutureOpen: string := "Future Open"

  /** The feature columns, in the order both training and prediction select them. */
  const FeatureColumns: seq<string> := [Open, Close, High, Low, Volume]

  /** One row of a price table: a cell per column; None is a missing (NaN) cell. */
  type Row = map<string, Option<real>>

  /** A price table: its column labels and its rows in date order. */
  datatype Table = Table(columns: set<string>, rows: seq<Row>)

  /** A fitted regression: maps a five-feature vector to a predicted next-day Open. */
  type Regressor = seq<real> -> real

  /** One training pair: a day's five features and the next day's Open. */
  datatype Example = Example(features: seq<real>, target: real)

  /** Training rejects a table that lacks a required column (a ValueError). */
  datatype TrainError = MissingRequiredColumns(message: string)

  const MissingColumnsMessage: string :=
    "Stock data is missing required columns (Open, Close, High, Low, Volume)."

  /**
   * Why a prediction cannot be made: a feature column is absent (a KeyError
   * when the columns are selected), the table has no last row (an IndexError
   * from `iloc[-1]`), or a feature of the last row is missing, which the
   * regression pipeline refuses as input.
   */
  datatype PredictError = MissingColumns | EmptyHistory | MissingFeatureValue

  /** Every row has a cell for each column of the table and no other. */
  predicate WellFormed(t: Table)
  {
    forall i :: 0 <= i < |t.rows| ==> t.rows[i].Keys == t.columns
  }

  /**
   * The column check training performs before it looks at any row. It fails
   * exactly when at least one of Open, Close, High, Low and Volume is not a
   * column of the table.
   */
  predicate HasRequiredColumns(columns: set<string>): (ok: bool)
    ensures ok <==> forall c :: c in FeatureColumns ==> c in columns
  {
    !(Open !in columns || Close !in columns || High !in columns
      || Low !in columns || Volume !in columns)
  }

  /** A table training can work on: well formed and with every feature column. */
  predicate Trainable(t: Table)
  {
    WellFormed(t) && HasRequiredColumns(t.columns)
  }

  /** No cell of the row is missing. */
  predicate Complete(row: Row)
  {
    forall c :: c in row ==> row[c].Some?
  }

  /** The row has a present value in each of the five feature columns. */
  predicate HasFeatures(row: Row)
  {
    forall c :: c in FeatureColumns ==> c in row && row[c].Some?
  }

  /**
   * The feature vector of a row: its five feature values, in the order
   * Open, Close, High, Low, Volume.
   */
  function FeaturesOf(row: Row): (x: seq<real>)
    requires HasFeatures(row)
    ensures |x| == |FeatureColumns| == 5
    ensures forall j :: 0 <= j < 5 ==> row[FeatureColumns[j]] == Some(x[j])
  {
    assert Open in FeatureColumns && Close in FeatureColumns && High in FeatureColumns;
    assert Low in FeatureColumns && Volume in FeatureColumns;
    [row[Open].value, row[Close].value, row[High].value, row[Low].value, row[Volume].value]
  }

  // ---------------------------------------------------------------------------
  // The steps of training, as model.py performs them

  /** The cell `shift(-1)` puts in row i: the next row's Open, missing for the last row. */
  function NextOpen(t: Table, i: nat): (cell: Option<real>)
    requires Trainable(t) && i < |t.rows|
    ensures cell.Some? <==> i + 1 < |t.rows| && t.rows[i + 1][Open].Some?
    ensures cell.Some? ==> cell == t.rows[i + 1][Open]
  {
    if i + 1 < |t.rows| then t.rows[i + 1][Open] else None
  }

  /** Adds (or overwrites) the `Future Open` column, holding each row's next Open. */
  function WithFutureOpen(t: Table): (r: Table)
    requires Trainable(t)
    ensures Trainable(r) && r.columns == t.columns + {FutureOpen}
    ensures |r.rows| == |t.rows|
    ensures forall i :: 0 <= i < |t.rows| - 1 ==> r.rows[i][FutureOpen] == t.rows[i + 1][Open]
    ensures |t.rows| > 0 ==> r.rows[|t.rows| - 1][FutureOpen] == None
    ensures forall i, c :: 0 <= i < |t.rows| && c in t.rows[i] && c != FutureOpen ==> r.rows[i][c] == t.rows[i][c]
  {
    Table(t.columns + {FutureOpen},
          seq(|t.rows|, i requires 0 <= i < |t.rows| => t.rows[i][FutureOpen := NextOpen(t, i)]))
  }

  /** Each index one higher. */
  function Successors(idx: seq<nat>): (r: seq<nat>)
    ensures |r| == |idx| && forall k :: 0 <= k < |idx| ==> r[k] == idx[k] + 1
  {
    seq(|idx|, k requires 0 <= k < |idx| => idx[k] + 1)
  }

  /** The indices of the rows that have no missing cell, in increasing order. */
  function KeptIndices(rows: seq<Row>): (idx: seq<nat>)
  {
    if |rows| == 0 then []
    else (if Complete(rows[0]) then [0] else []) + Successors(KeptIndices(rows[1..]))
  }

  /** Each kept index is the index of a complete row. */
  lemma {:induction false} KeptIndicesComplete(rows: seq<Row>)
    ensures forall k :: 0 <= k < |KeptIndices(rows)| ==>
      KeptIndices(rows)[k] < |rows| && Complete(rows[KeptIndices(rows)[k]])
  {
    if |rows| > 0 {
      var tail := rows[1..];
      KeptIndicesComplete(tail);
      var head: seq<nat> := if Complete(rows[0]) then [0] else [];
      var idx := KeptIndices(rows);
      assert idx == head + Successors(KeptIndices(tail));
      forall k | 0 <= k < |idx|
        ensures idx[k] < |rows| && Complete(rows[idx[k]])
      {
        if k >= |head| {
          assert idx[k] == KeptIndices(tail)[k - |head|] + 1;
          assert rows[idx[k]] == tail[idx[k] - 1];
        }
      }
    }
  }

  /** The kept indices are strictly increasing. */
  lemma {:induction false} KeptIndicesIncreasing(rows: seq<Row>)
    ensures forall k, k' :: 0 <= k < k' < |KeptIndices(rows)| ==> KeptIndices(rows)[k] < KeptIndices(rows)[k']
  {
    if |rows| > 0 {
      KeptIndicesIncreasing(rows[1..]);
      var head: seq<nat> := if Complete(rows[0]) then [0] else [];
      assert KeptIndices(rows) == head + Successors(KeptIndices(rows[1..]));
      IncreasingAfterZero(head, KeptIndices(rows[1..]));
    }
  }

  /** Putting at most a 0 before the successors of increasing indices keeps them increasing. */
  lemma IncreasingAfterZero(head: seq<nat>, idx: seq<nat>)
    requires head == [] || head == [0]
    requires forall k, k' :: 0 <= k < k' < |idx| ==> idx[k] < idx[k']
    ensures forall k, k' :: 0 <= k < k' < |head + Successors(idx)| ==>
      (head + Successors(idx))[k] < (head + Successors(idx))[k']
  {
    var r := head + Successors(idx);
    forall k, k' | 0 <= k < k' < |r|
      ensures r[k] < r[k']
    {
      assert r[k'] == idx[k' - |head|] + 1;
      if k >= |head| {
        assert r[k] == idx[k - |head|] + 1;
      }
    }
  }

  /** Every complete row's index is kept. */
  lemma {:induction false} KeptIndicesCover(rows: seq<Row>)
    ensures forall i :: 0 <= i < |rows| && Complete(rows[i]) ==> i in KeptIndices(rows)
  {
    if |rows| > 0 {
      var tail := rows[1..];
      KeptIndicesCover(tail);
      var head: seq<nat> := if Complete(rows[0]) then [0] else [];
      var idx := KeptIndices(rows);
      assert idx == head + Successors(KeptIndices(tail));
      forall i | 0 < i < |rows| && Complete(rows[i])
        ensures i in idx
      {
        assert tail[i - 1] == rows[i];
        var k :| 0 <= k < |KeptIndices(tail)| && KeptIndices(tail)[k] == i - 1;
        assert idx[|head| + k] == i;
      }
    }
  }

  /**
   * `dropna` on the rows: the rows that have no missing cell, in their
   * original order; the k-th kept row is the row at the k-th kept index.
   */
  function DropMissing(rows: seq<Row>): (r: seq<Row>)
    ensures |r| == |KeptIndices(rows)| <= |rows|
    ensures forall k :: 0 <= k < |r| ==>
      KeptIndices(rows)[k] < |rows| && r[k] == rows[KeptIndices(rows)[k]]
    ensures forall i :: 0 <= i < |r| ==> r[i] in rows && Complete(r[i])
  {
    if |rows| == 0 then []
    else (if Complete(rows[0]) then [rows[0]] else []) + DropMissing(rows[1..])
  }

  /**
   * `dropna` is the order-preserving filter of the complete rows: the k-th
   * kept row is the row at the k-th of a strictly increasing list of
   * indices, and an index is in that list exactly when its row is complete.
   */
  lemma DropMissingIsFilter(rows: seq<Row>)
    ensures |DropMissing(rows)| == |KeptIndices(rows)|
    ensures forall k :: 0 <= k < |KeptIndices(rows)| ==>
      KeptIndices(rows)[k] < |rows| && DropMissing(rows)[k] == rows[KeptIndices(rows)[k]]
    ensures forall k, k' :: 0 <= k < k' < |KeptIndices(rows)| ==> KeptIndices(rows)[k] < KeptIndices(rows)[k']
    ensures forall i :: 0 <= i < |rows| ==> (i in KeptIndices(rows) <==> Complete(rows[i]))
  {
    KeptIndicesComplete(rows);
    KeptIndicesIncreasing(rows);
    KeptIndicesCover(rows);
  }

  /** `dropna` keeps every complete row. */
  lemma {:induction false} DropMissingKeepsComplete(rows: seq<Row>)
    ensures forall row :: row in rows && Complete(row) ==> row in DropMissing(rows)
  {
    if |rows| > 0 {
      DropMissingKeepsComplete(rows[1..]);
      forall row | row in rows && Complete(row)
        ensures row in DropMissing(rows)
      {
        if row != rows[0] {
          assert row in rows[1..];
        }
      }
    }
  }

  /** `dropna()`: the table without the rows that have a missing cell. */
  function DropNA(t: Table): (r: Table)
    requires WellFormed(t)
    ensures WellFormed(r) && r.columns == t.columns
    ensures |r.rows| == |KeptIndices(t.rows)|
    ensures forall k :: 0 <= k < |r.rows| ==>
      KeptIndices(t.rows)[k] < |t.rows| && r.rows[k] == t.rows[KeptIndices(t.rows)[k]]
  {
    Table(t.columns, DropMissing(t.rows))
  }

  /** A row after the shift and `dropna`: complete, with the features and the target. */
  predicate Prepared(row: Row)
  {
    HasFeatures(row) && FutureOpen in row && row[FutureOpen].Some?
  }

  /** The example a prepared row gives: its features and its `Future Open` cell. */
  function ExampleOf(row: Row): Example
    requires Prepared(row)
  {
    Example(FeaturesOf(row), row[FutureOpen].value)
  }

  /** The rows of X and y, paired: one example per remaining row, in order. */
  function Project(rows: seq<Row>): (r: seq<Example>)
    requires forall i :: 0 <= i < |rows| ==> Prepared(rows[i])
    ensures |r| == |rows|
    ensures forall i :: 0 <= i < |rows| ==> r[i] == ExampleOf(rows[i])
  {
    if |rows| == 0 then [] else [ExampleOf(rows[0])] + Project(rows[1..])
  }

  /**
   * Training: check the columns, add the shifted Open column, drop the rows
   * with a missing cell, project features and target, and fit. The table is
   * rebound at each step as model.py rebinds its DataFrame. It fails
   * exactly when a required column is missing, whatever the rows hold, and
   * otherwise fits the training examples defined by TrainingExamples.
   */
  method TrainStockPricePredictor(stockData: Table, fit: seq<Example> -> Regressor)
    returns (r: Result<Regressor, TrainError>)
    requires WellFormed(stockData)
    ensures r.Failure? <==> !HasRequiredColumns(stockData.columns)
    ensures r.Failure? ==> r.error == MissingRequiredColumns(MissingColumnsMessage)
    ensures r.Success? ==> r.value == fit(TrainingExamples(stockData))
  {
    if Open !in stockData.columns || Close !in stockData.columns
       || High !in stockData.columns || Low !in stockData.columns
       || Volume !in stockData.columns
    {
      return Failure(MissingRequiredColumns(MissingColumnsMessage));
    }
    var data := WithFutureOpen(stockData);
    data := DropNA(data);
    PipelineIsReference(stockData);
    var examples := Project(data.rows);
    r := Success(fit(examples));
  }

  // ---------------------------------------------------------------------------
  // What the training set is, stated on the fetched table

  /**
   * Row i of the fetched table yields a training example: it has a next row,
   * every one of its own cells is present, and the next row's Open is
   * present. (A `Future Open` column already in the table is overwritten, so
   * its old cell does not matter.)
   */
  predicate Survives(t: Table, i: int)
    requires Trainable(t)
  {
    && 0 <= i && i + 1 < |t.rows|
    && (forall c :: c in t.rows[i] && c != FutureOpen ==> t.rows[i][c].Some?)
    && t.rows[i + 1][Open].Some?
  }

  /** The indices, from `from` on, of the rows that yield an example, in table order. */
  function SurvivingIndices(t: Table, from: nat): (idx: seq<nat>)
    requires Trainable(t)
    decreases |t.rows| - from
  {
    if from + 1 >= |t.rows| then []
    else (if Survives(t, from) then [from] else []) + SurvivingIndices(t, from + 1)
  }

  /**
   * The surviving indices from `from` on are increasing, never the last
   * row's, and are exactly the surviving rows from `from` on.
   */
  lemma {:induction false} SurvivingIndicesSpec(t: Table, from: nat)
    requires Trainable(t)
    ensures forall k :: 0 <= k < |SurvivingIndices(t, from)| ==>
      from <= SurvivingIndices(t, from)[k] && SurvivingIndices(t, from)[k] + 1 < |t.rows|
      && Survives(t, SurvivingIndices(t, from)[k])
    ensures forall k, k' :: 0 <= k < k' < |SurvivingIndices(t, from)| ==>
      SurvivingIndices(t, from)[k] < SurvivingIndices(t, from)[k']
    ensures forall i :: from <= i && Survives(t, i) ==> i in SurvivingIndices(t, from)
    decreases |t.rows| - from
  {
    if from + 1 < |t.rows| {
      SurvivingIndicesSpec(t, from + 1);
    }
  }

  /** The example row i yields: its own features, and the Open of row i + 1 as the target. */
  function PairAt(t: Table, i: int): (e: Example)
    requires Trainable(t) && Survives(t, i)
  {
    assert HasFeatures(t.rows[i]);
    Example(FeaturesOf(t.rows[i]), t.rows[i + 1][Open].value)
  }

  /** The examples of the surviving rows from `from` on, in table order. */
  function ExamplesFrom(t: Table, from: nat): seq<Example>
    requires Trainable(t)
    decreases |t.rows| - from
  {
    if from + 1 >= |t.rows| then []
    else (if Survives(t, from) then [PairAt(t, from)] else []) + ExamplesFrom(t, from + 1)
  }

  /** The training set: one example per surviving row of the fetched table, in table order. */
  function TrainingExamples(t: Table): seq<Example>
    requires Trainable(t)
  {
    ExamplesFrom(t, 0)
  }

  /** The k-th example from `from` on is the example of the k-th surviving row from `from` on. */
  lemma {:induction false} ExamplesAtIndices(t: Table, from: nat)
    requires Trainable(t)
    ensures |ExamplesFrom(t, from)| == |SurvivingIndices(t, from)|
    ensures forall k :: 0 <= k < |SurvivingIndices(t, from)| ==>
      Survives(t, SurvivingIndices(t, from)[k])
      && ExamplesFrom(t, from)[k] == PairAt(t, SurvivingIndices(t, from)[k])
    decreases |t.rows| - from
  {
    if from + 1 < |t.rows| {
      ExamplesAtIndices(t, from + 1);
    }
  }

  /**
   * Each training example is the example of a surviving row of the fetched
   * table, its target the Open of the row right after it in that table (even
   * when that next row is itself dropped); the rows used appear in table
   * order, the last row is never used, and every surviving row is used.
   */
  lemma TrainingExamplesSpec(t: Table)
    requires Trainable(t)
    ensures var ex, idx := TrainingExamples(t), SurvivingIndices(t, 0);
      && |ex| == |idx| <= (if |t.rows| == 0 then 0 else |t.rows| - 1)
      && (forall k :: 0 <= k < |ex| ==>
            idx[k] + 1 < |t.rows| && Survives(t, idx[k])
            && ex[k].features == FeaturesOf(t.rows[idx[k]])
            && Some(ex[k].target) == t.rows[idx[k] + 1][Open])
      && (forall k, k' :: 0 <= k < k' < |ex| ==> idx[k] < idx[k'])
      && (forall i :: 0 <= i < |t.rows| ==> (i in idx <==> Survives(t, i)))
  {
    SurvivingIndicesSpec(t, 0);
    ExamplesAtIndices(t, 0);
    IndicesBound(t, 0);
  }

  /** There are at most as many surviving indices from `from` as rows after it. */
  lemma {:induction false} IndicesBound(t: Table, from: nat)
    requires Trainable(t)
    ensures |SurvivingIndices(t, from)| <= if from + 1 >= |t.rows| then 0 else |t.rows| - 1 - from
    decreases |t.rows| - from
  {
    if from + 1 < |t.rows| {
      IndicesBound(t, from + 1);
    }
  }

  /** A table of n complete rows yields n - 1 examples; an empty one yields none. */
  lemma {:induction false} CompleteTableSize(t: Table)
    requires Trainable(t)
    requires forall i :: 0 <= i < |t.rows| ==> Complete(t.rows[i])
    ensures |TrainingExamples(t)| == if |t.rows| == 0 then 0 else |t.rows| - 1
  {
    CompleteIndices(t, 0);
    ExamplesAtIndices(t, 0);
  }

  lemma {:induction false} CompleteIndices(t: Table, from: nat)
    requires Trainable(t)
    requires forall i :: 0 <= i < |t.rows| ==> Complete(t.rows[i])
    ensures |SurvivingIndices(t, from)| == if from + 1 >= |t.rows| then 0 else |t.rows| - 1 - from
    decreases |t.rows| - from
  {
    if from + 1 < |t.rows| {
      CompleteRowSurvives(t, from);
      CompleteIndices(t, from + 1);
    }
  }

  /** A complete row followed by a complete row survives. */
  lemma CompleteRowSurvives(t: Table, i: nat)
    requires Trainable(t) && i + 1 < |t.rows|
    requires Complete(t.rows[i]) && Complete(t.rows[i + 1])
    ensures Survives(t, i)
  {
  }

  /** A table with at most one row yields no example. */
  lemma ShortTableNoExamples(t: Table)
    requires Trainable(t) && |t.rows| <= 1
    ensures TrainingExamples(t) == []
  {
  }

  // ---------------------------------------------------------------------------
  // The steps compute the training set

  /** After the shift, a row is complete exactly when row i survives. */
  lemma ShiftedRowComplete(t: Table, i: nat)
    requires Trainable(t) && i < |t.rows|
    ensures var s := WithFutureOpen(t).rows[i];
      && (Complete(s) <==> Survives(t, i))
      && (Complete(s) ==> Prepared(s) && ExampleOf(s) == PairAt(t, i))
  {
  }

  lemma ProjectCons(head: Row, rest: seq<Row>)
    requires Prepared(head) && forall i :: 0 <= i < |rest| ==> Prepared(rest[i])
    ensures forall i :: 0 <= i < |[head] + rest| ==> Prepared(([head] + rest)[i])
    ensures Project([head] + rest) == [ExampleOf(head)] + Project(rest)
  {
  }

  /**
   * Shifting before dropping: projecting the complete shifted rows from
   * position `from` on gives the examples of the surviving rows from `from` on.
   */
  lemma {:induction false} PipelineFrom(t: Table, shifted: seq<Row>, from: nat)
    requires Trainable(t) && shifted == WithFutureOpen(t).rows && from <= |t.rows|
    ensures forall i :: 0 <= i < |DropMissing(shifted[from..])| ==> Prepared(DropMissing(shifted[from..])[i])
    ensures Project(DropMissing(shifted[from..])) == ExamplesFrom(t, from)
    decreases |t.rows| - from
  {
    var rows := shifted[from..];
    if from < |t.rows| {
      assert rows[1..] == shifted[from + 1..];
      PipelineFrom(t, shifted, from + 1);
      ShiftedRowComplete(t, from);
      PipelineStep(t, from, rows);
    } else {
      assert rows == [];
    }
  }

  lemma PipelineStep(t: Table, from: nat, rows: seq<Row>)
    requires Trainable(t) && from < |t.rows| && |rows| > 0
    requires Complete(rows[0]) <==> Survives(t, from)
    requires Complete(rows[0]) ==> Prepared(rows[0]) && ExampleOf(rows[0]) == PairAt(t, from)
    requires forall i :: 0 <= i < |DropMissing(rows[1..])| ==> Prepared(DropMissing(rows[1..])[i])
    requires Project(DropMissing(rows[1..])) == ExamplesFrom(t, from + 1)
    ensures forall i :: 0 <= i < |DropMissing(rows)| ==> Prepared(DropMissing(rows)[i])
    ensures Project(DropMissing(rows)) == ExamplesFrom(t, from)
  {
    var head, kept := rows[0], DropMissing(rows[1..]);
    if from + 1 == |t.rows| {
      assert ExamplesFrom(t, from) == [] == ExamplesFrom(t, from + 1);
    } else {
      assert ExamplesFrom(t, from)
          == (if Survives(t, from) then [PairAt(t, from)] else []) + ExamplesFrom(t, from + 1);
    }
    if Complete(head) {
      assert DropMissing(rows) == [head] + kept;
      ProjectCons(head, kept);
    } else {
      assert DropMissing(rows) == kept;
    }
  }

  /**
   * The steps of model.py compute the training set: the rows that survive the
   * shift and `dropna`, projected, are exactly TrainingExamples.
   */
  lemma PipelineIsReference(t: Table)
    requires Trainable(t)
    ensures var kept := DropNA(WithFutureOpen(t)).rows;
      && (forall i :: 0 <= i < |kept| ==> Prepared(kept[i]))
      && Project(kept) == TrainingExamples(t)
  {
    PipelineFrom(t, WithFutureOpen(t).rows, 0);
    assert WithFutureOpen(t).rows[0..] == WithFutureOpen(t).rows;
  }

  // ---------------------------------------------------------------------------
  // Worked examples

  /** A day with the given Open and Close, the other cells fixed around the Open. */
  function Day(open: real, close: Option<real>): Row
  {
    map[Open := Some(open), Close := close, High := Some(open + 1.0),
        Low := Some(open - 1.0), Volume := Some(1000.0)]
  }

  const DayColumns: set<string> := {Open, Close, High, Low, Volume}

  lemma DayKeys(open: real, close: Option<real>)
    ensures Day(open, close).Keys == DayColumns
  {
  }

  /**
   * Three complete days with Opens 10, 12 and 11 give exactly two examples:
   * day one with target 12 and day two with target 11.
   */
  lemma ThreeDayScenario()
    ensures var t := Table(DayColumns, [Day(10.0, Some(10.5)), Day(12.0, Some(11.5)), Day(11.0, Some(11.0))]);
      && Trainable(t)
      && TrainingExamples(t)
         == [Example([10.0, 10.5, 11.0, 9.0, 1000.0], 12.0), Example([12.0, 11.5, 13.0, 11.0, 1000.0], 11.0)]
  {
    var t := Table(DayColumns, [Day(10.0, Some(10.5)), Day(12.0, Some(11.5)), Day(11.0, Some(11.0))]);
    DayKeys(10.0, Some(10.5));
    DayKeys(12.0, Some(11.5));
    DayKeys(11.0, Some(11.0));
    assert Trainable(t);
    assert Survives(t, 0) && Survives(t, 1);
    assert ExamplesFrom(t, 2) == [];
    assert ExamplesFrom(t, 1) == [PairAt(t, 1)];
  }

  /**
   * The shift happens before `dropna`: when the middle of three days lacks
   * its Close, the first day still gets the middle day's Open (12) as its
   * target, not the Open (11) of the next day that survives.
   */
  lemma ShiftBeforeDropNA()
    ensures var t := Table(DayColumns, [Day(10.0, Some(10.5)), Day(12.0, None), Day(11.0, Some(11.0))]);
      && Trainable(t)
      && TrainingExamples(t) == [Example([10.0, 10.5, 11.0, 9.0, 1000.0], 12.0)]
  {
    var t := Table(DayColumns, [Day(10.0, Some(10.5)), Day(12.0, None), Day(11.0, Some(11.0))]);
    DayKeys(10.0, Some(10.5));
    DayKeys(12.0, None);
    DayKeys(11.0, Some(11.0));
    assert Trainable(t);
    assert Survives(t, 0);
    assert !Survives(t, 1) by {
      assert Close in t.rows[1] && Close != FutureOpen && t.rows[1][Close].None?;
    }
    assert ExamplesFrom(t, 2) == [];
    assert ExamplesFrom(t, 1) == [];
  }

  // ---------------------------------------------------------------------------
  // Prediction

  /**
   * The features `predict_future_opening_price` passes to the model: those of
   * the last row. A missing feature column, an empty table and a missing
   * feature value of the last row are errors, checked in that order.
   */
  function LatestFeatures(historicalData: Table): (r: Result<seq<real>, PredictError>)
    requires WellFormed(historicalData)
    ensures r.Success? <==>
      HasRequiredColumns(historicalData.columns) && |historicalData.rows| > 0
      && HasFeatures(historicalData.rows[|historicalData.rows| - 1])
    ensures r.Failure? ==>
      r.error == (if !HasRequiredColumns(historicalData.columns) then MissingColumns
                  else if |historicalData.rows| == 0 then EmptyHistory
                  else MissingFeatureValue)
    ensures r.Success? ==> |r.value| == 5 && forall j :: 0 <= j < 5 ==>
      historicalData.rows[|historicalData.rows| - 1][FeatureColumns[j]] == Some(r.value[j])
  {
    if !HasRequiredColumns(historicalData.columns) then Failure(MissingColumns)
    else if |historicalData.rows| == 0 then Failure(EmptyHistory)
    else
      var last := historicalData.rows[|historicalData.rows| - 1];
      if HasFeatures(last) then Success(FeaturesOf(last)) else Failure(MissingFeatureValue)
  }

  /** The model's prediction on the latest features. */
  function PredictFutureOpeningPrice(model: Regressor, historicalData: Table): (r: Result<real, PredictError>)
    requires WellFormed(historicalData)
    ensures r.Success? <==> LatestFeatures(historicalData).Success?
    ensures r.Success? ==> r.value == model(LatestFeatures(historicalData).value)
  {
    match LatestFeatures(historicalData)
    case Failure(e) => Failure(e)
    case Success(features) => Success(model(features))
  }

  /**
   * Only the last row matters: appending a row to a table makes the
   * prediction that of the new row alone, whatever the earlier rows hold.
   */
  lemma PredictionUsesLastRow(model: Regressor, columns: set<string>, earlier: seq<Row>, last: Row)
    requires WellFormed(Table(columns, earlier + [last]))
    requires HasRequiredColumns(columns)
    ensures PredictFutureOpeningPrice(model, Table(columns, earlier + [last]))
         == if HasFeatures(last) then Success(model(FeaturesOf(last))) else Failure(MissingFeatureValue)
  {
  }

  /**
   * The feature vector a prediction uses is built like a training example's:
   * were the last row followed by a row with an Open, its example would carry
   * exactly the features the prediction passes to the model.
   */
  lemma SameFeaturesForTrainingAndPrediction(t: Table, next: Row)
    requires Trainable(t) && |t.rows| > 0
    requires next.Keys == t.columns && next[Open].Some?
    requires Survives(Table(t.columns, t.rows + [next]), |t.rows| - 1)
    ensures LatestFeatures(t).Success?
    ensures PairAt(Table(t.columns, t.rows + [next]), |t.rows| - 1).features == LatestFeatures(t).value
  {
    var t' := Table(t.columns, t.rows + [next]);
    assert t'.rows[|t.rows| - 1] == t.rows[|t.rows| - 1];
    assert HasFeatures(t.rows[|t.rows| - 1]);
  }

  // ---------------------------------------------------------------------------
  // The second copy of the recommendation rule

  /** This file's copy of the buy / do-not-buy rule, written out on its own. */
  function MakeRecommendation(predictedOpeningPrice: real, currentClosingPrice: real): (html: string)
    ensures Html.ParseDiv(html)
         == if predictedOpeningPrice > currentClosingPrice
            then Some(("background-color: #16915a; padding: 10px; border-radius: 5px;", "Recommendation: Buy"))
            else Some(("background-color: #a11516; padding: 10px; border-radius: 5px;", "Recommendation: Do Not Buy"))
  {
    var (recommendation, style) :=
      if predictedOpeningPrice > currentClosingPrice then
        ("Recommendation: Buy",
         "background-color: #16915a; padding: 10px; border-radius: 5px;")
      else
        ("Recommendation: Do Not Buy",
         "background-color: #a11516; padding: 10px; border-radius: 5px;");
    assert '"' !in recommendation by { Recommend.LabelsQuoteFree(); }
    Html.ParseDivOfDiv(style, recommendation);
    Html.Div(style, recommendation)
  }

  /** Both copies of the rule return the same snippet for every pair of prices. */
  lemma RecommendationCopiesAgree(predictedOpeningPrice: real, price: real)
    ensures MakeRecommendation(predictedOpeningPrice, price)
         == Recommend.MakeRecommendation(predictedOpeningPrice, price)
  {
  }
}
