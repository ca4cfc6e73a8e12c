/**
 * FinancialAidAnalysis: ranking rows by a trained model's predictions, and the
 * sensitivity of those ranks to shifting one feature. The model's `predict` is
 * an arbitrary function from a feature frame to a prediction vector.
 */
module Predict {
  import opened Wrappers
  import opened Frames
  import opened Ordering

  const RankColumnName := "Financial_Aid_Rank"

  /** The feature `sensitivity_analysis` shifts when called without one. */
  const DefaultSensitivityFeature := "Unemployment rate"

  /** An integer vector stored as a numeric column called `Financial_Aid_Rank`. */
  function RankColumn(ranks: seq<int>): (c: Column)
    ensures c.Numeric? && c.name == RankColumnName && |c.nums| == |ranks|
    ensures forall i :: 0 <= i < |ranks| ==> c.nums[i] == Some(ranks[i] as real)
  {
    Numeric(RankColumnName, seq(|ranks|, i requires 0 <= i < |ranks| => Some(ranks[i] as real)))
  }

  /**
   * The column `customized_ranking` assigns: the ranks of the predictions made
   * on the selected features. A missing feature raises KeyError; a prediction
   * vector whose length is not the row count is refused by the assignment with
   * ValueError.
   */
  function Ranking(data: Table, features: seq<string>, predict: Table -> seq<real>): (r: Result<Column, Error>)
    ensures r.Success? <==> Select(data, features).Success? && |predict(Select(data, features).value)| == data.rows
    ensures Select(data, features).Failure? ==> r == Failure(Select(data, features).error)
    ensures r.Success? ==> r.value == RankColumn(Ranks(predict(Select(data, features).value)))
  {
    var selected :- Select(data, features);
    var predictions := predict(selected);
    if |predictions| != data.rows then
      Failure(ValueError("Length of values does not match length of index"))
    else
      Success(RankColumn(Ranks(predictions)))
  }

  /**
   * The `Financial_Aid_Rank` column holds each of 0..n-1 exactly once (n the row
   * count), and a row with a smaller prediction gets a smaller rank.
   */
  lemma RankColumnIsPermutation(data: Table, features: seq<string>, predict: Table -> seq<real>)
    requires Ranking(data, features, predict).Success?
    ensures var c, p := Ranking(data, features, predict).value, predict(Select(data, features).value);
      var r := Ranks(p);
      && |c.nums| == data.rows && IsPermutation(r, data.rows)
      && (forall m :: 0 <= m < data.rows ==> m in r)
      && (forall i :: 0 <= i < data.rows ==> c.nums[i] == Some(r[i] as real))
      && (forall i, j :: 0 <= i < data.rows && 0 <= j < data.rows && p[i] < p[j] ==> c.nums[i].value < c.nums[j].value)
  {
    var p := predict(Select(data, features).value);
    assert |p| == data.rows;
  }

  /**
   * `customized_ranking` on a frame without a rank column adds exactly that one
   * column, after the existing ones, which keep their places and contents; the
   * frame stays well formed.
   */
  lemma RankingAddsOneColumn(data: Table, features: seq<string>, predict: Table -> seq<real>)
    requires Ranking(data, features, predict).Success? && Find(data.columns, RankColumnName).None?
    ensures var t := SetColumn(data, Ranking(data, features, predict).value);
      && t.rows == data.rows
      && t.columns == data.columns + [Ranking(data, features, predict).value]
      && (WellFormed(data) ==> WellFormed(t))
  {
    var c := Ranking(data, features, predict).value;
    var t := SetColumn(data, c);
    forall k | 0 <= k < |data.columns| ensures t.columns[k] == data.columns[k] {
      assert data.columns[k].name != RankColumnName;
    }
    assert t.columns[|data.columns|] == c;
  }

  /** Adds `change` to every present cell of a numeric column; missing cells stay missing. */
  function ShiftCells(nums: seq<Option<real>>, change: int): (r: seq<Option<real>>)
    ensures |r| == |nums|
    ensures forall i :: 0 <= i < |nums| ==> r[i] == (if nums[i].None? then None else Some(nums[i].value + change as real))
  {
    seq(|nums|, i requires 0 <= i < |nums| => if nums[i].None? then None else Some(nums[i].value + change as real))
  }

  /**
   * Whether `+= change` leaves a column without raising. A numeric column
   * always does. On a text (object) column pandas falls back to masked
   * arithmetic, which touches only present cells: it raises on the first
   * present string and leaves an all-missing column (or one with no rows)
   * as it is.
   */
  predicate Shiftable(c: Column) {
    c.Numeric? || forall i :: 0 <= i < |c.texts| ==> c.texts[i].None?
  }

  /** The column `+= change` produces from a shiftable column. */
  function ShiftColumn(c: Column, change: int): (r: Column)
    requires Shiftable(c)
    ensures r.name == c.name && r.Numeric? == c.Numeric?
    ensures c.Numeric? ==> r.nums == ShiftCells(c.nums, change)
    ensures c.Text? ==> r == c
  {
    if c.Numeric? then Numeric(c.name, ShiftCells(c.nums, change)) else c
  }

  /**
   * `altered_data[feature] += change`: KeyError when no column has that name,
   * TypeError when a text column of that name holds a present cell; otherwise
   * the numeric columns of that name are shifted and every other column kept.
   */
  function Shift(t: Table, feature: string, change: int): (r: Result<Table, Error>)
    ensures r.Success? <==> Find(t.columns, feature).Some? && forall k :: 0 <= k < |t.columns| && t.columns[k].name == feature ==> Shiftable(t.columns[k])
    ensures Find(t.columns, feature).None? ==> r == Failure(KeyError(feature))
    ensures Find(t.columns, feature).Some? && !Shiftable(t.columns[Find(t.columns, feature).value]) ==> r.Failure? && r.error.TypeError?
    ensures r.Failure? && Find(t.columns, feature).Some? ==> r.error.TypeError?
    ensures r.Success? ==> r.value.rows == t.rows && |r.value.columns| == |t.columns|
    ensures r.Success? ==> forall k :: 0 <= k < |t.columns| && t.columns[k].name != feature ==> r.value.columns[k] == t.columns[k]
    ensures r.Success? ==> forall k :: 0 <= k < |t.columns| && t.columns[k].name == feature && t.columns[k].Numeric? ==>
      r.value.columns[k] == Numeric(feature, ShiftCells(t.columns[k].nums, change))
    ensures r.Success? ==> forall k :: 0 <= k < |t.columns| && t.columns[k].name == feature && t.columns[k].Text? ==>
      r.value.columns[k] == t.columns[k]
  {
    if Find(t.columns, feature).None? then Failure(KeyError(feature))
    else if exists k :: 0 <= k < |t.columns| && t.columns[k].name == feature && !Shiftable(t.columns[k]) then
      Failure(TypeError("can only concatenate str (not \"int\") to str"))
    else
      Success(Table(t.rows, seq(|t.columns|, k requires 0 <= k < |t.columns| =>
        if t.columns[k].name == feature then ShiftColumn(t.columns[k], change) else t.columns[k])))
  }

  /** After a successful shift, each column of the feature's name is shiftable and shifted on its own. */
  lemma ShiftedColumn(t: Table, feature: string, change: int, k: int)
    requires Shift(t, feature, change).Success?
    requires 0 <= k < |t.columns| && t.columns[k].name == feature
    ensures Shiftable(t.columns[k]) && Shift(t, feature, change).value.columns[k] == ShiftColumn(t.columns[k], change)
  {
  }

  /**
   * `d` is numeric column `c` with every present cell moved by exactly
   * `change` and every missing cell kept missing.
   */
  predicate ShiftedCells(c: Column, d: Column, change: int)
    requires c.Numeric?
  {
    && d.Numeric? && |d.nums| == |c.nums|
    && forall i :: 0 <= i < |c.nums| ==> d.nums[i] == (if c.nums[i].None? then None else Some(c.nums[i].value + change as real))
  }

  /** Shifting a numeric column moves each of its present cells by `change`. */
  lemma ShiftColumnShifts(c: Column, change: int)
    requires c.Numeric?
    ensures ShiftedCells(c, ShiftColumn(c, change), change)
  {
  }

  /** A text column with a present cell cannot be shifted; an all-missing one is kept. */
  lemma ShiftTextColumn(rows: nat, name: string, texts: seq<Option<string>>, change: int)
    requires |texts| == rows
    ensures (exists i :: 0 <= i < |texts| && texts[i].Some?) <==> Shift(Table(rows, [Text(name, texts)]), name, change).Failure?
    ensures (forall i :: 0 <= i < |texts| ==> texts[i].None?) ==>
      Shift(Table(rows, [Text(name, texts)]), name, change) == Success(Table(rows, [Text(name, texts)]))
  {
    var t := Table(rows, [Text(name, texts)]);
    assert Find(t.columns, name) == Some(0);
    var r := Shift(t, name, change);
    if forall i :: 0 <= i < |texts| ==> texts[i].None? {
      assert r.Success?;
      assert r.value.columns == [Text(name, texts)];
    }
  }

  /** One sweep step's frame: a copy of the selected features with `feature` shifted by `change`. */
  function Altered(data: Table, features: seq<string>, feature: string, change: int): (r: Result<Table, Error>)
    ensures Select(data, features).Failure? ==> r == Failure(Select(data, features).error)
    ensures Select(data, features).Success? && feature !in features ==> r == Failure(KeyError(feature))
  {
    var selected :- Select(data, features);
    assert feature !in features ==> Find(selected.columns, feature).None? by {
      assert forall k :: 0 <= k < |features| ==> selected.columns[k].name == features[k];
    }
    Shift(selected, feature, change)
  }

  /** Whether a sweep step raises, and what, does not depend on the size of the shift. */
  lemma AlteredOutcomeIgnoresChange(data: Table, features: seq<string>, feature: string, c1: int, c2: int)
    ensures Altered(data, features, feature, c1).Success? == Altered(data, features, feature, c2).Success?
    ensures Altered(data, features, feature, c1).Failure? ==>
      Altered(data, features, feature, c1).error == Altered(data, features, feature, c2).error
  {
  }

  /**
   * The frame of a sweep step has the selected features' rows and column names,
   * and every column other than `feature` is the selected one unchanged.
   */
  lemma AlteredKeepsOtherFeatures(data: Table, features: seq<string>, feature: string, change: int)
    requires Altered(data, features, feature, change).Success?
    ensures var s, a := Select(data, features).value, Altered(data, features, feature, change).value;
      && a.rows == data.rows && Names(a.columns) == features
      && (forall k :: 0 <= k < |features| && features[k] != feature ==> a.columns[k] == s.columns[k])
  {
    var s := Select(data, features).value;
    var a := Shift(s, feature, change).value;
    assert forall k :: 0 <= k < |features| ==> s.columns[k].name == features[k];
    assert forall k :: 0 <= k < |features| ==> a.columns[k].name == features[k];
  }

  /** In the frame of a sweep step the present cells of a numeric `feature` column are moved by exactly `change`. */
  lemma AlteredShiftsFeature(data: Table, features: seq<string>, feature: string, change: int, k: int)
    requires Altered(data, features, feature, change).Success?
    requires 0 <= k < |features| && features[k] == feature
    ensures Select(data, features).Success? && k < |Select(data, features).value.columns|
    ensures k < |Altered(data, features, feature, change).value.columns|
    ensures Select(data, features).value.columns[k].Numeric? ==>
      ShiftedCells(Select(data, features).value.columns[k], Altered(data, features, feature, change).value.columns[k], change)
  {
    var s := Select(data, features).value;
    assert Altered(data, features, feature, change) == Shift(s, feature, change);
    assert s.columns[k].name == features[k];
    ShiftedColumn(s, feature, change, k);
    if s.columns[k].Numeric? {
      ShiftColumnShifts(s.columns[k], change);
    }
  }

  /** In the frame of a sweep step a text `feature` column is all-missing and kept as it was. */
  lemma AlteredKeepsTextFeature(data: Table, features: seq<string>, feature: string, change: int, k: int)
    requires Altered(data, features, feature, change).Success?
    requires 0 <= k < |features| && features[k] == feature
    ensures Select(data, features).Success? && k < |Select(data, features).value.columns|
    ensures k < |Altered(data, features, feature, change).value.columns|
    ensures Select(data, features).value.columns[k].Text? ==>
      && Altered(data, features, feature, change).value.columns[k] == Select(data, features).value.columns[k]
      && Shiftable(Select(data, features).value.columns[k])
  {
    var s := Select(data, features).value;
    assert Altered(data, features, feature, change) == Shift(s, feature, change);
    assert s.columns[k].name == features[k];
    ShiftedColumn(s, feature, change, k);
  }

  /** The ranks one sweep step computes, or the exception it raises. */
  function StepRanks(data: Table, features: seq<string>, feature: string, predict: Table -> seq<real>, change: int): (r: Result<seq<int>, Error>)
    ensures r.Success? <==> Altered(data, features, feature, change).Success?
    ensures r.Failure? ==> r.error == Altered(data, features, feature, change).error
    ensures r.Success? ==> r.value == Ranks(predict(Altered(data, features, feature, change).value))
    ensures r.Success? ==> IsPermutation(r.value, |predict(Altered(data, features, feature, change).value)|)
  {
    var altered :- Altered(data, features, feature, change);
    Success(Ranks(predict(altered)))
  }

  /** Whether a sweep step raises, and what, is the same for every shift. */
  lemma StepOutcomeIgnoresChange(data: Table, features: seq<string>, feature: string, predict: Table -> seq<real>, c1: int, c2: int)
    ensures StepRanks(data, features, feature, predict, c1).Success? == StepRanks(data, features, feature, predict, c2).Success?
    ensures StepRanks(data, features, feature, predict, c1).Failure? ==>
      StepRanks(data, features, feature, predict, c1).error == StepRanks(data, features, feature, predict, c2).error
  {
    AlteredOutcomeIgnoresChange(data, features, feature, c1, c2);
  }

  class FinancialAidAnalysis {
    var data: Table
    const selectedFeatures: seq<string>
    const predict: Table -> seq<real>

    /** The frame and the model are given already loaded; reading them from files is not modelled. */
    constructor (data: Table, predict: Table -> seq<real>, selectedFeatures: seq<string>)
      ensures this.data == data && this.predict == predict && this.selectedFeatures == selectedFeatures
    {
      this.data := data;
      this.predict := predict;
      this.selectedFeatures := selectedFeatures;
    }

    /**
     * `customized_ranking`: assigns the rank column into `self.data`; every
     * other column and the row count are kept. On an exception `data` is unchanged.
     */
    method CustomizedRanking() returns (r: Outcome<Error>)
      modifies this
      ensures Ranking(old(data), selectedFeatures, predict).Success? ==>
        r.Pass? && data == SetColumn(old(data), Ranking(old(data), selectedFeatures, predict).value)
      ensures Ranking(old(data), selectedFeatures, predict).Failure? ==>
        r == Fail(Ranking(old(data), selectedFeatures, predict).error) && data == old(data)
    {
      var features := Select(data, selectedFeatures);
      if features.Failure? {
        return Fail(features.error);
      }
      var predictions := predict(features.value);
      if |predictions| != data.rows {
        return Fail(ValueError("Length of values does not match length of index"));
      }
      data := SetColumn(data, RankColumn(Ranks(predictions)));
      return Pass;
    }

    /**
     * `sensitivity_analysis(feature)`: for change = -10, -8, ..., 10, the ranks
     * predicted on the selected features with `feature` shifted by change.
     * `data` is only read.
     */
    method SensitivityAnalysis(feature: string) returns (res: Result<seq<(int, seq<int>)>, Error>)
      ensures res.Success? <==> StepRanks(data, selectedFeatures, feature, predict, -10).Success?
      ensures res.Failure? ==> res.error == StepRanks(data, selectedFeatures, feature, predict, -10).error
      ensures res.Success? ==> |res.value| == 11
      ensures res.Success? ==> forall k :: 0 <= k < 11 ==>
        && res.value[k].0 == 2 * k - 10
        && StepRanks(data, selectedFeatures, feature, predict, 2 * k - 10).Success?
        && res.value[k].1 == StepRanks(data, selectedFeatures, feature, predict, 2 * k - 10).value
    {
      var results: seq<(int, seq<int>)> := [];
      var change := -10;
      while change < 11
        invariant change == 2 * |results| - 10 && change <= 12
        invariant forall k :: 0 <= k < |results| ==>
          && results[k].0 == 2 * k - 10
          && StepRanks(data, selectedFeatures, feature, predict, 2 * k - 10).Success?
          && results[k].1 == StepRanks(data, selectedFeatures, feature, predict, 2 * k - 10).value
      {
        var step := StepRanks(data, selectedFeatures, feature, predict, change);
        if step.Failure? {
          StepOutcomeIgnoresChange(data, selectedFeatures, feature, predict, change, -10);
          return Failure(step.error);
        }
        ghost var before := results;
        results := results + [(change, step.value)];
        forall k | 0 <= k < |results|
          ensures && results[k].0 == 2 * k - 10
                  && StepRanks(data, selectedFeatures, feature, predict, 2 * k - 10).Success?
                  && results[k].1 == StepRanks(data, selectedFeatures, feature, predict, 2 * k - 10).value
        {
          if k < |before| {
            assert results[k] == before[k];
          }
        }
        change := change + 2;
      }
      return Success(results);
    }
  }
}
