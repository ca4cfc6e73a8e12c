/**
 * DataPreprocessor: the stages that turn a raw frame into a numeric frame
 * scaled into `feature_range`. Numbers are exact reals standing for floats;
 * `astype(float)` on a string is the partial function `parse`, and the
 * KNN estimator is the function `imputer`.
 */
module Preprocessing {
  import opened Wrappers
  import opened Frames
  import opened Statistics

  /** The settings of a DataPreprocessor: `feature_range` and `missing_value_strategy`. */
  datatype Config = Config(low: real, high: real, strategy: string)

  /** The constructor's defaults: `feature_range=(0, 1)`, `missing_value_strategy='median'`. */
  const DefaultConfig := Config(0.0, 1.0, "median")

  /** `str.replace` of every character in `drop` by the empty string. */
  function Strip(s: string, drop: set<char>): (r: string)
    ensures forall c :: c in r ==> c in s && c !in drop
    ensures (forall k :: 0 <= k < |s| ==> s[k] !in drop) ==> r == s
  {
    if s == [] then []
    else (if s[0] in drop then [] else [s[0]]) + Strip(s[1..], drop)
  }

  /** Stripping is idempotent: a stripped string has nothing left to strip. */
  lemma StripIdempotent(s: string, drop: set<char>)
    ensures Strip(Strip(s, drop), drop) == Strip(s, drop)
  {
    var r := Strip(s, drop);
    assert forall k :: 0 <= k < |r| ==> r[k] in r;
  }

  /** Stripping a concatenation strips each part: characters are removed where they stand and the rest keep their order. */
  lemma {:induction false} StripAppend(a: string, b: string, drop: set<char>)
    ensures Strip(a + b, drop) == Strip(a, drop) + Strip(b, drop)
    decreases |a|
  {
    if a == [] {
      assert a + b == b;
    } else {
      var x, t := a[0], a[1..];
      var h := if x in drop then [] else [x];
      calc {
        Strip(a + b, drop);
        { assert a + b == [x] + (t + b); }
        Strip([x] + (t + b), drop);
        { StripCons(x, t + b, drop); }
        h + Strip(t + b, drop);
        { StripAppend(t, b, drop); }
        h + (Strip(t, drop) + Strip(b, drop));
        (h + Strip(t, drop)) + Strip(b, drop);
        { StripCons(x, t, drop); assert a == [x] + t; }
        Strip(a, drop) + Strip(b, drop);
      }
    }
  }

  /** The first character is removed exactly when it is in `drop`. */
  lemma StripCons(x: char, s: string, drop: set<char>)
    ensures Strip([x] + s, drop) == (if x in drop then [] else [x]) + Strip(s, drop)
  {
    assert ([x] + s)[0] == x && ([x] + s)[1..] == s;
  }

  /** A single character is removed exactly when it is in `drop`. */
  lemma StripChar(c: char, drop: set<char>)
    ensures Strip([c], drop) == if c in drop then [] else [c]
  {
    assert [c][1..] == [];
  }

  /** Text holding no character of `drop` is left as it is. */
  lemma StripKeeps(s: string, drop: set<char>)
    requires forall c :: c in s ==> c !in drop
    ensures Strip(s, drop) == s
  {
    assert forall k :: 0 <= k < |s| ==> s[k] in s;
  }

  /** Two dropped characters, one before and one after kept text, vanish and the kept text closes up. */
  lemma StripTwoDropped(d: char, x: string, c: char, y: string, drop: set<char>)
    requires d in drop && c in drop
    requires forall e :: e in x ==> e !in drop
    requires forall e :: e in y ==> e !in drop
    ensures Strip([d] + x + [c] + y, drop) == x + y
  {
    var front := [d] + x;
    assert Strip(front, drop) == x by {
      StripAppend([d], x, drop);
      StripChar(d, drop);
      StripKeeps(x, drop);
    }
    assert Strip(front + [c], drop) == x by {
      StripAppend(front, [c], drop);
      StripChar(c, drop);
    }
    StripAppend(front + [c], y, drop);
    StripKeeps(y, drop);
  }

  /** The regex class `[\\$,]` of the currency conversion: backslash, dollar and comma. */
  const CurrencyChars: set<char> := {'\\', '$', ','}

  /** How a text column is encoded, judged from its first present value. */
  datatype Encoding = Currency | Percentage | Plain

  /** `'$'` is tested before `'%'`, so a value holding both is currency. */
  function Detect(first: string): (e: Encoding)
    ensures e == Currency <==> '$' in first
    ensures e == Percentage <==> '$' !in first && '%' in first
  {
    if '$' in first then Currency
    else if '%' in first then Percentage
    else Plain
  }

  /** `df[col].dropna().iloc[0]`: the first present value, if there is one. */
  function FirstPresent(texts: seq<Option<string>>): (r: Option<string>)
    ensures r.None? <==> forall i :: 0 <= i < |texts| ==> texts[i].None?
    ensures r.Some? ==> exists i :: 0 <= i < |texts| && texts[i] == r
                          && forall j :: 0 <= j < i ==> texts[j].None?
  {
    if texts == [] then None
    else if texts[0].Some? then texts[0]
    else
      var r := FirstPresent(texts[1..]);
      assert forall i :: 0 < i < |texts| ==> texts[i] == texts[1..][i - 1];
      r
  }

  /** One cell of such a column: stripped, parsed and divided, or ValueError; a gap stays a gap. */
  function ParseCell(cell: Option<string>, drop: set<char>, divisor: real,
                     parse: string -> Option<real>): (r: Result<Option<real>, Error>)
    requires divisor != 0.0
    ensures r.Success? <==> cell.None? || parse(Strip(cell.value, drop)).Some?
    ensures r.Failure? ==> r.error.ValueError?
    ensures r.Success? ==> r.value == (if cell.None? then None else Some(parse(Strip(cell.value, drop)).value / divisor))
  {
    if cell.None? then Success(None)
    else
      var text := Strip(cell.value, drop);
      match parse(text)
      case None => Failure(ValueError("could not convert string to float: '" + text + "'"))
      case Some(x) => Success(Some(x / divisor))
  }

  /**
   * `.replace(<drop>, '', regex=True).astype(float) / divisor` on a text column:
   * each present cell is stripped of the characters in `drop`, parsed and divided;
   * missing cells stay missing; the first cell that does not parse raises ValueError.
   */
  function ParseCells(texts: seq<Option<string>>, drop: set<char>, divisor: real,
                      parse: string -> Option<real>): (r: Result<seq<Option<real>>, Error>)
    requires divisor != 0.0
    ensures r.Success? <==> forall i :: 0 <= i < |texts| ==> ParseCell(texts[i], drop, divisor, parse).Success?
    ensures r.Failure? ==> r.error.ValueError?
    ensures r.Success? ==> |r.value| == |texts|
    ensures r.Success? ==> forall i :: 0 <= i < |texts| ==> r.value[i] == ParseCell(texts[i], drop, divisor, parse).value
  {
    if texts == [] then Success([])
    else
      var head :- ParseCell(texts[0], drop, divisor, parse);
      var rest :- ParseCells(texts[1..], drop, divisor, parse);
      assert forall i :: 0 < i < |texts| ==> texts[i] == texts[1..][i - 1];
      Success([head] + rest)
  }

  /**
   * The treatment of one column by `convert_currency_and_percentage_columns`: a
   * numeric column is kept; a text column with no present value raises
   * IndexError; otherwise its first present value decides between currency
   * (strip backslash, `$` and `,`), percentage (strip `%`, divide by 100) and
   * leaving it as it is.
   */
  function ConvertColumn(c: Column, parse: string -> Option<real>): (r: Result<Column, Error>)
    ensures c.Numeric? ==> r == Success(c)
    ensures c.Text? && FirstPresent(c.texts).None? ==> r.Failure? && r.error.IndexError?
    ensures c.Text? && FirstPresent(c.texts).Some? && Detect(FirstPresent(c.texts).value) == Plain ==> r == Success(c)
    ensures c.Text? && FirstPresent(c.texts).Some? && Detect(FirstPresent(c.texts).value) == Currency ==>
      r == (match ParseCells(c.texts, CurrencyChars, 1.0, parse)
            case Success(cells) => Success(Numeric(c.name, cells))
            case Failure(e) => Failure(e))
    ensures c.Text? && FirstPresent(c.texts).Some? && Detect(FirstPresent(c.texts).value) == Percentage ==>
      r == (match ParseCells(c.texts, {'%'}, 100.0, parse)
            case Success(cells) => Success(Numeric(c.name, cells))
            case Failure(e) => Failure(e))
    ensures r.Success? ==> r.value.name == c.name && r.value.Length() == c.Length()
  {
    match c
    case Numeric(_, _) => Success(c)
    case Text(name, texts) =>
      match FirstPresent(texts)
      case None => Failure(IndexError("single positional indexer is out-of-bounds"))
      case Some(first) =>
        match Detect(first)
        case Plain => Success(c)
        case Currency =>
          var cells :- ParseCells(texts, CurrencyChars, 1.0, parse);
          Success(Numeric(name, cells))
        case Percentage =>
          var cells :- ParseCells(texts, {'%'}, 100.0, parse);
          Success(Numeric(name, cells))
  }

  /** A percentage column: `"10%"` loses its sign, parses to 10 and is divided by 100. */
  lemma PercentageExample(parse: string -> Option<real>)
    requires parse("10") == Some(10.0)
    ensures ConvertColumn(Text("Rate", [None, Some("10%")]), parse) == Success(Numeric("Rate", [None, Some(0.1)]))
  {
    var texts := [None, Some("10%")];
    assert FirstPresent(texts) == Some("10%") by {
      assert FirstPresent(texts[1..]) == Some("10%");
    }
    assert Detect("10%") == Percentage by {
      assert "10%"[2] == '%';
      assert '$' !in "10%";
    }
    PercentCellsParse(parse);
  }

  lemma PercentCellsParse(parse: string -> Option<real>)
    requires parse("10") == Some(10.0)
    ensures ParseCells([None, Some("10%")], {'%'}, 100.0, parse) == Success([None, Some(0.1)])
  {
    PercentSignStripped();
    assert ParseCell(Some("10%"), {'%'}, 100.0, parse) == Success(Some(0.1));
    TwoCellsParse(None, Some("10%"), {'%'}, 100.0, parse);
  }

  lemma PercentSignStripped()
    ensures Strip("10%", {'%'}) == "10"
  {
    assert Strip("%", {'%'}) == "";
    assert Strip("0%", {'%'}) == "0";
  }

  /** `"$1,000"` loses its dollar sign and its thousands comma. */
  lemma CurrencyStripped()
    ensures Strip("$1,000", CurrencyChars) == "1000"
  {
    StripTwoDropped('$', "1", ',', "000", CurrencyChars);
    assert ['$'] + "1" + [','] + "000" == "$1,000";
    assert "1" + "000" == "1000";
  }

  /** A currency column: `"$1,000"` becomes 1000 and a gap stays a gap. */
  lemma CurrencyExample(parse: string -> Option<real>)
    requires parse("1000") == Some(1000.0)
    ensures ConvertColumn(Text("GDP", [Some("$1,000"), None]), parse) == Success(Numeric("GDP", [Some(1000.0), None]))
  {
    var texts := [Some("$1,000"), None];
    assert FirstPresent(texts) == Some("$1,000");
    assert Detect("$1,000") == Currency by {
      assert "$1,000"[0] == '$';
    }
    CurrencyCellsParse(parse);
  }

  lemma CurrencyCellsParse(parse: string -> Option<real>)
    requires parse("1000") == Some(1000.0)
    ensures ParseCells([Some("$1,000"), None], CurrencyChars, 1.0, parse) == Success([Some(1000.0), None])
  {
    CurrencyStripped();
    assert ParseCell(Some("$1,000"), CurrencyChars, 1.0, parse) == Success(Some(1000.0));
    TwoCellsParse(Some("$1,000"), None, CurrencyChars, 1.0, parse);
  }

  /** A two-cell column whose cells both convert converts to those two cells. */
  lemma TwoCellsParse(a: Option<string>, b: Option<string>, drop: set<char>, divisor: real,
                      parse: string -> Option<real>)
    requires divisor != 0.0
    requires ParseCell(a, drop, divisor, parse).Success? && ParseCell(b, drop, divisor, parse).Success?
    ensures ParseCells([a, b], drop, divisor, parse)
         == Success([ParseCell(a, drop, divisor, parse).value, ParseCell(b, drop, divisor, parse).value])
  {
    var r := ParseCells([a, b], drop, divisor, parse);
    assert [a, b][0] == a && [a, b][1] == b;
    assert r.Success? && |r.value| == 2;
    assert r.value[0] == ParseCell(a, drop, divisor, parse).value;
    assert r.value[1] == ParseCell(b, drop, divisor, parse).value;
    assert r.value == [r.value[0], r.value[1]];
  }

  /** The position of the first element that is `bad`, or the length. */
  function FirstWhere<T>(xs: seq<T>, bad: T -> bool): (i: nat)
    ensures i <= |xs|
    ensures forall k :: 0 <= k < i ==> !bad(xs[k])
    ensures i < |xs| ==> bad(xs[i])
  {
    if xs == [] || bad(xs[0]) then 0
    else
      var i := FirstWhere(xs[1..], bad);
      assert forall k :: 0 < k < |xs| ==> xs[k] == xs[1..][k - 1];
      i + 1
  }

  /** The position of the first column whose conversion raises, or the column count. */
  function FirstFailure(cols: seq<Column>, parse: string -> Option<real>): (i: nat)
    ensures i <= |cols|
    ensures forall k :: 0 <= k < i ==> ConvertColumn(cols[k], parse).Success?
    ensures i < |cols| ==> ConvertColumn(cols[i], parse).Failure?
  {
    FirstWhere(cols, c => ConvertColumn(c, parse).Failure?)
  }

  /** `convert_currency_and_percentage_columns` on a frame value: every column converted, or the first exception. */
  function ConvertAll(t: Table, parse: string -> Option<real>): (r: Result<Table, Error>)
    ensures r.Success? <==> FirstFailure(t.columns, parse) == |t.columns|
    ensures r.Failure? ==> r.error == ConvertColumn(t.columns[FirstFailure(t.columns, parse)], parse).error
    ensures r.Success? ==> r.value.rows == t.rows && |r.value.columns| == |t.columns|
    ensures r.Success? ==> forall k :: 0 <= k < |t.columns| ==>
      r.value.columns[k] == ConvertColumn(t.columns[k], parse).value
  {
    var i := FirstFailure(t.columns, parse);
    if i < |t.columns| then Failure(ConvertColumn(t.columns[i], parse).error)
    else Success(Table(t.rows, seq(|t.columns|, k requires 0 <= k < |t.columns| => ConvertColumn(t.columns[k], parse).value)))
  }

  /** Conversion keeps the row count, the column names and their order, and the shape of every column. */
  lemma ConvertKeepsShape(t: Table, parse: string -> Option<real>)
    requires ConvertAll(t, parse).Success?
    ensures Names(ConvertAll(t, parse).value.columns) == Names(t.columns)
    ensures WellFormed(t) ==> WellFormed(ConvertAll(t, parse).value)
  {
    var r := ConvertAll(t, parse).value;
    forall k | 0 <= k < |t.columns| ensures r.columns[k].name == t.columns[k].name && r.columns[k].Length() == t.columns[k].Length() {
      assert r.columns[k] == ConvertColumn(t.columns[k], parse).value;
    }
  }

  /**
   * `convert_currency_and_percentage_columns(df)`: assigns each converted column
   * into the caller's frame, column by column. When a column raises, the columns
   * before it have already been replaced and the rest are as they were.
   */
  method ConvertCurrencyAndPercentageColumns(df: Frame, parse: string -> Option<real>) returns (r: Outcome<Error>)
    modifies df
    ensures df.rows == old(df.rows) && |df.columns| == |old(df.columns)|
    ensures r.Pass? <==> ConvertAll(old(df.Value()), parse).Success?
    ensures r.Pass? ==> df.Value() == ConvertAll(old(df.Value()), parse).value
    ensures r.Fail? ==> r.error == ConvertAll(old(df.Value()), parse).error
    ensures forall k :: 0 <= k < FirstFailure(old(df.columns), parse) ==>
      df.columns[k] == ConvertColumn(old(df.columns)[k], parse).value
    ensures forall k :: FirstFailure(old(df.columns), parse) <= k < |df.columns| ==>
      df.columns[k] == old(df.columns)[k]
  {
    ghost var original := df.columns;
    ghost var stop := FirstFailure(original, parse);
    var i := 0;
    while i < |df.columns|
      invariant 0 <= i <= |original| && |df.columns| == |original| && df.rows == old(df.rows)
      invariant i <= stop
      invariant forall k :: 0 <= k < i ==> df.columns[k] == ConvertColumn(original[k], parse).value
      invariant forall k :: i <= k < |original| ==> df.columns[k] == original[k]
    {
      var converted := ConvertColumn(df.columns[i], parse);
      if converted.Failure? {
        assert stop == i by {
          assert df.columns[i] == original[i];
        }
        return Fail(converted.error);
      }
      assert i < stop by {
        assert df.columns[i] == original[i];
      }
      df.columns := df.columns[i := converted.value];
      i := i + 1;
    }
    assert stop == |original|;
    assert df.columns == ConvertAll(old(df.Value()), parse).value.columns;
    return Pass;
  }

  // ----- handle_missing_values -----

  /** The fill value of a strategy, computed from a column's present values. */
  function FillValue(strategy: string, xs: seq<real>): (v: real)
    requires strategy == "median" || strategy == "mean"
    requires xs != []
    ensures Min(xs) <= v <= Max(xs)
  {
    if strategy == "median" then Median(xs) else Mean(xs)
  }

  /**
   * `fillna` of one column with its own statistic: a numeric column with some
   * present value gets that statistic in every missing cell; a numeric column
   * with none (its statistic is NaN) and a text column are left as they are.
   */
  function FillColumn(c: Column, strategy: string): (r: Column)
    requires strategy == "median" || strategy == "mean"
    ensures r.name == c.name && r.Length() == c.Length() && r.Numeric? == c.Numeric?
    ensures c.Text? || Present(c.nums) == [] ==> r == c
    ensures c.Numeric? ==> forall i :: 0 <= i < |c.nums| && c.nums[i].Some? ==> r.nums[i] == c.nums[i]
    ensures c.Numeric? && Present(c.nums) != [] ==> forall i :: 0 <= i < |c.nums| && c.nums[i].None? ==>
      r.nums[i] == Some(FillValue(strategy, Present(c.nums)))
  {
    match c
    case Text(_, _) => c
    case Numeric(name, nums) =>
      var xs := Present(nums);
      if xs == [] then c
      else
        var v := FillValue(strategy, xs);
        Numeric(name, seq(|nums|, i requires 0 <= i < |nums| => if nums[i].None? then Some(v) else nums[i]))
  }

  /**
   * `handle_missing_values`: `median` or `mean` fill every numeric column's gaps
   * with that column's statistic; any other strategy raises ValueError.
   */
  function HandleMissingValues(config: Config, t: Table): (r: Result<Table, Error>)
    ensures r.Success? <==> config.strategy == "median" || config.strategy == "mean"
    ensures r.Failure? ==> r.error == ValueError("Invalid missing value strategy: " + config.strategy)
    ensures r.Success? ==> r.value.rows == t.rows && |r.value.columns| == |t.columns|
    ensures r.Success? ==> forall k :: 0 <= k < |t.columns| ==>
      r.value.columns[k] == FillColumn(t.columns[k], config.strategy)
  {
    if config.strategy == "median" || config.strategy == "mean" then
      Success(Table(t.rows, seq(|t.columns|, k requires 0 <= k < |t.columns| => FillColumn(t.columns[k], config.strategy))))
    else
      Failure(ValueError("Invalid missing value strategy: " + config.strategy))
  }

  /**
   * After `handle_missing_values`, names, kinds, present cells and text columns
   * are as before, and a numeric column with any present value has no missing
   * cell left, every filled cell lying within the range of the observed values.
   */
  lemma HandleMissingFillsGaps(config: Config, t: Table, k: nat)
    requires HandleMissingValues(config, t).Success? && k < |t.columns|
    ensures var c, r := t.columns[k], HandleMissingValues(config, t).value.columns[k];
      && r.name == c.name && r.Length() == c.Length() && r.Numeric? == c.Numeric?
      && (c.Text? ==> r == c)
      && (c.Numeric? ==> forall i :: 0 <= i < |c.nums| && c.nums[i].Some? ==> r.nums[i] == c.nums[i])
      && (c.Numeric? && Present(c.nums) != [] ==> forall i :: 0 <= i < |r.nums| ==>
            r.nums[i].Some? && Min(Present(c.nums)) <= r.nums[i].value <= Max(Present(c.nums)))
  {
    var c, r := t.columns[k], HandleMissingValues(config, t).value.columns[k];
    if c.Numeric? && Present(c.nums) != [] {
      var xs := Present(c.nums);
      forall i | 0 <= i < |r.nums| ensures r.nums[i].Some? && Min(xs) <= r.nums[i].value <= Max(xs) {
        if c.nums[i].Some? {
          assert c.nums[i].value in xs;
        }
      }
    }
  }

  /** `handle_missing_values` keeps the column names and every column's length. */
  lemma HandleMissingKeepsShape(config: Config, t: Table)
    requires HandleMissingValues(config, t).Success?
    ensures Names(HandleMissingValues(config, t).value.columns) == Names(t.columns)
    ensures WellFormed(t) ==> WellFormed(HandleMissingValues(config, t).value)
  {
  }

  // ----- impute_missing_values_with_knn -----

  /** `select_dtypes(include=['number'])`: the numeric columns, in order. */
  function NumericPart(cols: seq<Column>): (r: seq<Column>)
    ensures |r| <= |cols|
    ensures forall c :: c in r <==> c in cols && c.Numeric?
  {
    if cols == [] then []
    else
      assert forall c :: c in cols <==> c == cols[0] || c in cols[1..];
      (if cols[0].Numeric? then [cols[0]] else []) + NumericPart(cols[1..])
  }

  /** `select_dtypes(exclude=['number'])`: the other columns, in order. */
  function TextPart(cols: seq<Column>): (r: seq<Column>)
    ensures |r| <= |cols|
    ensures forall c :: c in r <==> c in cols && c.Text?
  {
    if cols == [] then []
    else
      assert forall c :: c in cols <==> c == cols[0] || c in cols[1..];
      (if cols[0].Text? then [cols[0]] else []) + TextPart(cols[1..])
  }

  /** Splitting into numeric and other columns loses no column name and adds none. */
  lemma {:induction false} PartitionNames(cols: seq<Column>)
    ensures multiset(Names(NumericPart(cols))) + multiset(Names(TextPart(cols))) == multiset(Names(cols))
  {
    if cols != [] {
      var c, rest := cols[0], cols[1..];
      assert cols == [c] + rest;
      PartitionNames(rest);
      PartsCons(c, rest);
      NamesCons(c, rest);
      var head := multiset{c.name};
      var nums, texts := multiset(Names(NumericPart(rest))), multiset(Names(TextPart(rest)));
      assert multiset(Names(cols)) == head + (nums + texts);
      if c.Numeric? {
        NamesCons(c, NumericPart(rest));
        assert multiset(Names(NumericPart(cols))) == head + nums;
        assert TextPart(cols) == [] + TextPart(rest) == TextPart(rest);
      } else {
        NamesCons(c, TextPart(rest));
        assert NumericPart(cols) == [] + NumericPart(rest) == NumericPart(rest);
        assert multiset(Names(TextPart(cols))) == head + texts;
      }
    }
  }

  lemma PartsCons(c: Column, rest: seq<Column>)
    ensures NumericPart([c] + rest) == (if c.Numeric? then [c] else []) + NumericPart(rest)
    ensures TextPart([c] + rest) == (if c.Text? then [c] else []) + TextPart(rest)
  {
    assert ([c] + rest)[1..] == rest;
  }

  /**
   * Both selections keep the frame's column order: selecting from two runs of
   * columns is selecting from each and putting the results side by side.
   */
  lemma PartsAppend(a: seq<Column>, b: seq<Column>)
    ensures NumericPart(a + b) == NumericPart(a) + NumericPart(b)
    ensures TextPart(a + b) == TextPart(a) + TextPart(b)
  {
    NumericAppend(a, b);
    TextAppend(a, b);
  }

  lemma {:induction false} NumericAppend(a: seq<Column>, b: seq<Column>)
    ensures NumericPart(a + b) == NumericPart(a) + NumericPart(b)
    decreases |a|
  {
    if a == [] {
      assert a + b == b;
    } else {
      var c, t := a[0], a[1..];
      var h := if c.Numeric? then [c] else [];
      calc {
        NumericPart(a + b);
        { assert a + b == [c] + (t + b); }
        NumericPart([c] + (t + b));
        { PartsCons(c, t + b); }
        h + NumericPart(t + b);
        { NumericAppend(t, b); }
        h + (NumericPart(t) + NumericPart(b));
        (h + NumericPart(t)) + NumericPart(b);
        { PartsCons(c, t); assert a == [c] + t; }
        NumericPart(a) + NumericPart(b);
      }
    }
  }

  lemma {:induction false} TextAppend(a: seq<Column>, b: seq<Column>)
    ensures TextPart(a + b) == TextPart(a) + TextPart(b)
    decreases |a|
  {
    if a == [] {
      assert a + b == b;
    } else {
      var c, t := a[0], a[1..];
      var h := if c.Text? then [c] else [];
      calc {
        TextPart(a + b);
        { assert a + b == [c] + (t + b); }
        TextPart([c] + (t + b));
        { PartsCons(c, t + b); }
        h + TextPart(t + b);
        { TextAppend(t, b); }
        h + (TextPart(t) + TextPart(b));
        (h + TextPart(t)) + TextPart(b);
        { PartsCons(c, t); assert a == [c] + t; }
        TextPart(a) + TextPart(b);
      }
    }
  }

  /** A single column goes to exactly one of the two selections. */
  lemma PartsOfOne(c: Column)
    ensures NumericPart([c]) == (if c.Numeric? then [c] else [])
    ensures TextPart([c]) == (if c.Text? then [c] else [])
  {
    PartsCons(c, []);
    assert [c] + [] == [c];
  }

  lemma NamesCons(c: Column, rest: seq<Column>)
    ensures multiset(Names([c] + rest)) == multiset{c.name} + multiset(Names(rest))
  {
    NamesAppend([c], rest);
    assert Names([c]) == [c.name];
  }

  lemma NamesAppend(a: seq<Column>, b: seq<Column>)
    ensures Names(a + b) == Names(a) + Names(b)
  {
  }

  /** A numeric block in column-major order: one sequence of cells per column. */
  type Block = seq<seq<Option<real>>>

  /** The cells of numeric columns, as the block handed to the estimator. */
  function CellsOf(cols: seq<Column>): (b: Block)
    requires forall k :: 0 <= k < |cols| ==> cols[k].Numeric?
    ensures |b| == |cols| && forall k :: 0 <= k < |cols| ==> b[k] == cols[k].nums
  {
    seq(|cols|, k requires 0 <= k < |cols| => cols[k].nums)
  }

  /** An estimator output that keeps every observed cell and has the input's shape. */
  ghost predicate KeepsObserved(input: Block, output: Block) {
    && |output| == |input|
    && (forall k :: 0 <= k < |input| ==> |output[k]| == |input[k]|)
    && (forall k, i :: 0 <= k < |input| && 0 <= i < |input[k]| && input[k][i].Some? ==> output[k][i] == input[k][i])
  }

  /** Whether an estimator output has one column per numeric column, each of `rows` cells. */
  predicate FitsShape(block: Block, columns: nat, rows: nat) {
    |block| == columns && forall k :: 0 <= k < |block| ==> |block[k]| == rows
  }

  /** The estimator's output columns under the names of the columns they came from. */
  function Relabel(numeric: seq<Column>, block: Block): (r: seq<Column>)
    requires |block| == |numeric|
    ensures |r| == |numeric| && Names(r) == Names(numeric)
    ensures forall k :: 0 <= k < |r| ==> r[k] == Numeric(numeric[k].name, block[k])
  {
    seq(|numeric|, k requires 0 <= k < |numeric| => Numeric(numeric[k].name, block[k]))
  }

  /**
   * `impute_missing_values_with_knn`: the numeric columns go through the
   * estimator and come back under their own names and index; the other columns
   * are appended after them unchanged. An estimator failure propagates, and an
   * estimator result of the wrong shape is refused by the DataFrame constructor
   * with ValueError.
   */
  function ImputeMissingValuesWithKnn(t: Table, imputer: Block -> Result<Block, Error>): (r: Result<Table, Error>)
    ensures var out := imputer(CellsOf(NumericPart(t.columns)));
      && (r.Success? <==> out.Success? && FitsShape(out.value, |NumericPart(t.columns)|, t.rows))
      && (out.Failure? ==> r == Failure(out.error))
      && (out.Success? && !FitsShape(out.value, |NumericPart(t.columns)|, t.rows) ==> r.Failure? && r.error.ValueError?)
    ensures r.Success? ==> r.value.rows == t.rows
    ensures r.Success? ==> |r.value.columns| == |NumericPart(t.columns)| + |TextPart(t.columns)|
    ensures r.Success? ==> r.value.columns[|NumericPart(t.columns)|..] == TextPart(t.columns)
    ensures r.Success? ==> Names(r.value.columns) == Names(NumericPart(t.columns)) + Names(TextPart(t.columns))
    ensures r.Success? ==> forall k :: 0 <= k < |NumericPart(t.columns)| ==>
      r.value.columns[k] == Numeric(NumericPart(t.columns)[k].name, imputer(CellsOf(NumericPart(t.columns))).value[k])
  {
    var numeric := NumericPart(t.columns);
    var text := TextPart(t.columns);
    var block :- imputer(CellsOf(numeric));
    if !FitsShape(block, |numeric|, t.rows) then
      Failure(ValueError("Shape of passed values does not match indices implied"))
    else
      var imputed := Relabel(numeric, block);
      NamesAppend(imputed, text);
      Success(Table(t.rows, imputed + text))
  }

  /**
   * When the estimator keeps every observed cell (as KNN imputation does), the
   * KNN step changes only missing numeric cells.
   */
  lemma KnnKeepsObservedCells(t: Table, imputer: Block -> Result<Block, Error>)
    requires ImputeMissingValuesWithKnn(t, imputer).Success?
    requires KeepsObserved(CellsOf(NumericPart(t.columns)), imputer(CellsOf(NumericPart(t.columns))).value)
    ensures var numeric, r := NumericPart(t.columns), ImputeMissingValuesWithKnn(t, imputer).value;
      forall k, i :: 0 <= k < |numeric| && 0 <= i < |numeric[k].nums| && numeric[k].nums[i].Some? ==>
        r.columns[k].nums[i] == numeric[k].nums[i]
  {
  }

  /**
   * The KNN step reorders columns (numeric first) but loses none, keeps every
   * other column intact on its own rows, and keeps the frame well formed.
   */
  lemma KnnReordersColumnsOnly(t: Table, imputer: Block -> Result<Block, Error>)
    requires ImputeMissingValuesWithKnn(t, imputer).Success?
    ensures var r := ImputeMissingValuesWithKnn(t, imputer).value;
      && multiset(Names(r.columns)) == multiset(Names(t.columns))
      && (forall k :: 0 <= k < |t.columns| && t.columns[k].Text? ==> t.columns[k] in r.columns)
      && (WellFormed(t) ==> WellFormed(r))
  {
    KnnKeepsNames(t, imputer);
    KnnKeepsTextColumns(t, imputer);
    if WellFormed(t) {
      KnnKeepsWellFormed(t, imputer);
    }
  }

  lemma KnnKeepsNames(t: Table, imputer: Block -> Result<Block, Error>)
    requires ImputeMissingValuesWithKnn(t, imputer).Success?
    ensures multiset(Names(ImputeMissingValuesWithKnn(t, imputer).value.columns)) == multiset(Names(t.columns))
  {
    PartitionNames(t.columns);
  }

  lemma KnnKeepsTextColumns(t: Table, imputer: Block -> Result<Block, Error>)
    requires ImputeMissingValuesWithKnn(t, imputer).Success?
    ensures forall k :: 0 <= k < |t.columns| && t.columns[k].Text? ==> t.columns[k] in ImputeMissingValuesWithKnn(t, imputer).value.columns
  {
    var r := ImputeMissingValuesWithKnn(t, imputer).value;
    var text := TextPart(t.columns);
    assert r.columns == r.columns[..|NumericPart(t.columns)|] + text;
    forall k | 0 <= k < |t.columns| && t.columns[k].Text? ensures t.columns[k] in r.columns {
      assert t.columns[k] in text;
    }
  }

  lemma KnnKeepsWellFormed(t: Table, imputer: Block -> Result<Block, Error>)
    requires ImputeMissingValuesWithKnn(t, imputer).Success? && WellFormed(t)
    ensures WellFormed(ImputeMissingValuesWithKnn(t, imputer).value)
  {
    var r := ImputeMissingValuesWithKnn(t, imputer).value;
    var numeric, text := NumericPart(t.columns), TextPart(t.columns);
    var n := |numeric|;
    var imputed := r.columns[..n];
    assert forall k :: 0 <= k < |imputed| ==> imputed[k].Length() == t.rows by {
      var out := imputer(CellsOf(numeric)).value;
      assert FitsShape(out, n, t.rows);
    }
    assert forall c :: c in text ==> c.Length() == t.rows by {
      assert forall c :: c in text ==> c in t.columns;
    }
    assert r.columns == imputed + text;
    JoinedFits(imputed, text, t.rows);
  }

  /** Columns that each have `rows` cells, followed by more such columns, form a well-formed frame. */
  lemma JoinedFits(a: seq<Column>, b: seq<Column>, rows: nat)
    requires forall k :: 0 <= k < |a| ==> a[k].Length() == rows
    requires forall c :: c in b ==> c.Length() == rows
    ensures WellFormed(Table(rows, a + b))
  {
    forall k | 0 <= k < |a + b| ensures (a + b)[k].Length() == rows {
      if k >= |a| {
        assert (a + b)[k] == b[k - |a|];
      }
    }
  }

  // ----- normalize_features -----

  /** `x.str.replace(',', '').astype(float)` on a text column; a numeric column is kept. */
  function ParseNumbers(c: Column, parse: string -> Option<real>): (r: Result<Column, Error>)
    ensures c.Numeric? ==> r == Success(c)
    ensures c.Text? ==> (r.Success? <==> ParseCells(c.texts, {','}, 1.0, parse).Success?)
    ensures c.Text? && r.Success? ==> r.value == Numeric(c.name, ParseCells(c.texts, {','}, 1.0, parse).value)
    ensures r.Success? ==> r.value.Numeric? && r.value.name == c.name && r.value.Length() == c.Length()
  {
    match c
    case Numeric(_, _) => Success(c)
    case Text(name, texts) =>
      var cells :- ParseCells(texts, {','}, 1.0, parse);
      Success(Numeric(name, cells))
  }

  /** `data.apply(...)` column by column: every column parsed, or the first exception. */
  function ParseAllNumbers(cols: seq<Column>, parse: string -> Option<real>): (r: Result<seq<Column>, Error>)
    ensures r.Success? <==> forall k :: 0 <= k < |cols| ==> ParseNumbers(cols[k], parse).Success?
    ensures r.Failure? ==> r.error.ValueError?
    ensures r.Success? ==> |r.value| == |cols| && forall k :: 0 <= k < |cols| ==> r.value[k] == ParseNumbers(cols[k], parse).value
  {
    if cols == [] then Success([])
    else
      assert forall k :: 0 < k < |cols| ==> cols[k] == cols[1..][k - 1];
      var head :- ParseNumbers(cols[0], parse);
      var rest :- ParseAllNumbers(cols[1..], parse);
      Success([head] + rest)
  }

  /**
   * Min-max scaling of one value of a column whose present values range over
   * [mn, mx]. A constant column goes to the lower bound: scikit-learn treats a
   * zero data range as one, so every value lands on `low`.
   */
  function MinMaxScale(x: real, mn: real, mx: real, low: real, high: real): (y: real)
    ensures mx == mn || x == mn ==> y == low
  {
    if mx == mn then low else (x - mn) / (mx - mn) * (high - low) + low
  }

  lemma RatioInUnit(a: real, d: real)
    requires d > 0.0 && 0.0 <= a <= d
    ensures 0.0 <= a / d <= 1.0
  {
    assert a / d * d == a;
  }

  lemma ProductWithin(u: real, w: real)
    requires 0.0 <= u <= 1.0 && w >= 0.0
    ensures 0.0 <= u * w <= w
  {
    assert (1.0 - u) * w >= 0.0;
  }

  /** A value within [mn, mx] is scaled into [low, high]. */
  lemma ScaleWithin(x: real, mn: real, mx: real, low: real, high: real)
    requires mn <= x <= mx && low <= high
    ensures low <= MinMaxScale(x, mn, mx, low, high) <= high
  {
    if mx != mn {
      RatioInUnit(x - mn, mx - mn);
      ProductWithin((x - mn) / (mx - mn), high - low);
    }
  }

  /** Scaling preserves the order of values. */
  lemma ScaleMonotone(x: real, y: real, mn: real, mx: real, low: real, high: real)
    requires mn <= x <= y <= mx && low <= high
    ensures MinMaxScale(x, mn, mx, low, high) <= MinMaxScale(y, mn, mx, low, high)
  {
    if mx != mn {
      var d := mx - mn;
      var u, v := (x - mn) / d, (y - mn) / d;
      assert u * d == x - mn && v * d == y - mn;
      assert u <= v;
      assert (v - u) * (high - low) >= 0.0;
    }
  }

  /** The column maximum is scaled to the upper bound, unless the column is constant. */
  lemma ScaleAtMax(mn: real, mx: real, low: real, high: real)
    requires mn != mx
    ensures MinMaxScale(mx, mn, mx, low, high) == high
  {
    assert (mx - mn) / (mx - mn) == 1.0;
  }

  /** With the bounds as the column's range, scaling is the identity. */
  lemma ScaleOnOwnRange(y: real, low: real, high: real)
    requires low < high
    ensures MinMaxScale(y, low, high, low, high) == y
  {
    assert (y - low) / (high - low) * (high - low) == y - low;
  }

  /** One cell scaled by the column's range; a missing cell stays missing. */
  function ScaleCell(c: Option<real>, mn: real, mx: real, low: real, high: real): Option<real> {
    match c
    case None => None
    case Some(x) => Some(MinMaxScale(x, mn, mx, low, high))
  }

  /**
   * `MinMaxScaler(feature_range).fit_transform` of one column: each present
   * value scaled by the column's own minimum and maximum; missing cells stay
   * missing, and so does a column without any present value.
   */
  function ScaleColumn(nums: seq<Option<real>>, low: real, high: real): (r: seq<Option<real>>)
    ensures |r| == |nums|
    ensures forall i :: 0 <= i < |nums| ==> (r[i].None? <==> nums[i].None?)
    ensures low <= high ==> forall i :: 0 <= i < |r| && r[i].Some? ==> low <= r[i].value <= high
  {
    var xs := Present(nums);
    if xs == [] then nums
    else
      var mn, mx := Min(xs), Max(xs);
      var r := seq(|nums|, i requires 0 <= i < |nums| => ScaleCell(nums[i], mn, mx, low, high));
      assert low <= high ==> forall i :: 0 <= i < |r| && r[i].Some? ==> low <= r[i].value <= high by {
        if low <= high {
          forall i | 0 <= i < |r| && r[i].Some? ensures low <= r[i].value <= high {
            var x := nums[i].value;
            assert x in xs;
            ScaleWithin(x, mn, mx, low, high);
          }
        }
      }
      r
  }

  /**
   * In a column with present values, the cells holding its minimum map to `low`,
   * the cells holding its maximum map to `high` unless the column is constant
   * (then every present cell maps to `low`), and the order of present values is kept.
   */
  lemma ScaleAttainsRange(nums: seq<Option<real>>, low: real, high: real)
    requires Present(nums) != [] && low <= high
    ensures var xs, r := Present(nums), ScaleColumn(nums, low, high);
      && (forall i :: 0 <= i < |nums| && nums[i] == Some(Min(xs)) ==> r[i] == Some(low))
      && (Min(xs) != Max(xs) ==> forall i :: 0 <= i < |nums| && nums[i] == Some(Max(xs)) ==> r[i] == Some(high))
      && (Min(xs) == Max(xs) ==> forall i :: 0 <= i < |nums| && nums[i].Some? ==> r[i] == Some(low))
      && (forall i, j :: 0 <= i < |nums| && 0 <= j < |nums| && nums[i].Some? && nums[j].Some? && nums[i].value <= nums[j].value
            ==> r[i].value <= r[j].value)
  {
    var xs, r := Present(nums), ScaleColumn(nums, low, high);
    var mn, mx := Min(xs), Max(xs);
    assert forall i :: 0 <= i < |nums| ==> r[i] == ScaleCell(nums[i], mn, mx, low, high);
    if mn != mx {
      ScaleAtMax(mn, mx, low, high);
    }
    forall i, j | 0 <= i < |nums| && 0 <= j < |nums| && nums[i].Some? && nums[j].Some? && nums[i].value <= nums[j].value
      ensures r[i].value <= r[j].value
    {
      assert nums[i].value in xs && nums[j].value in xs;
      ScaleMonotone(nums[i].value, nums[j].value, mn, mx, low, high);
    }
  }

  /**
   * The present values of a scaled column have `low` as their minimum, and
   * `high` as their maximum unless the column was constant.
   */
  lemma ScaledRange(nums: seq<Option<real>>, low: real, high: real)
    requires Present(nums) != [] && low < high
    ensures Present(ScaleColumn(nums, low, high)) != []
    ensures Min(Present(ScaleColumn(nums, low, high))) == low
    ensures Max(Present(ScaleColumn(nums, low, high)))
         == if Min(Present(nums)) == Max(Present(nums)) then low else high
  {
    var xs, r := Present(nums), ScaleColumn(nums, low, high);
    var mn, mx := Min(xs), Max(xs);
    ScaleAttainsRange(nums, low, high);
    var ys := Present(r);
    var i :| 0 <= i < |nums| && nums[i] == Some(mn);
    assert r[i] == Some(low);
    assert low in ys;
    forall k | 0 <= k < |ys| ensures low <= ys[k] <= high {
      assert ys[k] in ys;
    }
    MinIsLowerBound(ys, low);
    var top := if mn == mx then low else high;
    if mn != mx {
      var j :| 0 <= j < |nums| && nums[j] == Some(mx);
      assert r[j] == Some(high);
      assert high in ys;
    } else {
      forall k | 0 <= k < |ys| ensures ys[k] <= low {
        assert ys[k] in ys;
        var j :| 0 <= j < |r| && r[j] == Some(ys[k]);
      }
    }
    MaxIsUpperBound(ys, top);
  }

  /** Each cell of a column with present values is scaled by the column's own range. */
  lemma ScaleColumnCells(nums: seq<Option<real>>, low: real, high: real)
    requires Present(nums) != []
    ensures forall i :: 0 <= i < |nums| ==>
      ScaleColumn(nums, low, high)[i] == ScaleCell(nums[i], Min(Present(nums)), Max(Present(nums)), low, high)
  {
  }

  /** Scaling a column already scaled into [low, high] leaves it as it is. */
  lemma ScaleIdempotent(nums: seq<Option<real>>, low: real, high: real)
    requires low < high
    ensures ScaleColumn(ScaleColumn(nums, low, high), low, high) == ScaleColumn(nums, low, high)
  {
    if Present(nums) != [] {
      RescaleFixesCells(nums, low, high);
    }
  }

  lemma RescaleFixesCells(nums: seq<Option<real>>, low: real, high: real)
    requires low < high && Present(nums) != []
    ensures var r := ScaleColumn(nums, low, high);
      forall j :: 0 <= j < |r| ==> ScaleColumn(r, low, high)[j] == r[j]
  {
    var xs, r := Present(nums), ScaleColumn(nums, low, high);
    ScaledRange(nums, low, high);
    ScaleColumnCells(nums, low, high);
    ScaleColumnCells(r, low, high);
    var constant := Min(xs) == Max(xs);
    forall j | 0 <= j < |r| ensures ScaleColumn(r, low, high)[j] == r[j] {
      RescaleCell(r[j], low, high, constant);
    }
  }

  /** A cell of a scaled column is left as it is by scaling with the scaled column's range. */
  lemma RescaleCell(c: Option<real>, low: real, high: real, constant: bool)
    requires low < high && (constant ==> c.None? || c == Some(low))
    ensures ScaleCell(c, low, if constant then low else high, low, high) == c
  {
    if c.Some? && !constant {
      ScaleOnOwnRange(c.value, low, high);
    }
  }

  /**
   * `normalize_features`: text columns are stripped of `,` and parsed (ValueError
   * if one does not parse), then every column is min-max scaled into the range.
   * The scaler refuses, with ValueError, a range whose lower bound is not below
   * its upper bound, then a frame without rows, then a frame without columns.
   * The result has the same row count and column names.
   */
  function NormalizeFeatures(config: Config, t: Table, parse: string -> Option<real>): (r: Result<Table, Error>)
    ensures r.Success? <==> config.low < config.high && t.rows > 0 && |t.columns| > 0
                            && forall k :: 0 <= k < |t.columns| ==> ParseNumbers(t.columns[k], parse).Success?
    ensures r.Success? ==> r.value.rows == t.rows && Names(r.value.columns) == Names(t.columns)
    ensures r.Success? ==> forall k :: 0 <= k < |t.columns| ==>
      r.value.columns[k] == Numeric(t.columns[k].name, ScaleColumn(ParseNumbers(t.columns[k], parse).value.nums, config.low, config.high))
  {
    var cols :- ParseAllNumbers(t.columns, parse);
    if !(config.low < config.high) then
      Failure(ValueError("Minimum of desired feature range must be smaller than maximum."))
    else if t.rows == 0 then
      Failure(ValueError("Found array with 0 sample(s) while a minimum of 1 is required by MinMaxScaler."))
    else if |cols| == 0 then
      Failure(ValueError("Found array with 0 feature(s) while a minimum of 1 is required by MinMaxScaler."))
    else
      Success(Table(t.rows, seq(|cols|, k requires 0 <= k < |cols| =>
        Numeric(cols[k].name, ScaleColumn(cols[k].nums, config.low, config.high)))))
  }

  /** Every way `normalize_features` can fail raises ValueError. */
  lemma NormalizeRaisesValueError(config: Config, t: Table, parse: string -> Option<real>)
    requires NormalizeFeatures(config, t, parse).Failure?
    ensures NormalizeFeatures(config, t, parse).error.ValueError?
  {
    var parsed := ParseAllNumbers(t.columns, parse);
    if parsed.Failure? {
      assert NormalizeFeatures(config, t, parse) == Failure(parsed.error);
    }
  }

  /**
   * After `normalize_features` every column is numeric, of its former length, and
   * every present value lies in the feature range.
   */
  lemma NormalizedIsInRange(config: Config, t: Table, parse: string -> Option<real>)
    requires NormalizeFeatures(config, t, parse).Success?
    ensures var r := NormalizeFeatures(config, t, parse).value;
      && (WellFormed(t) ==> WellFormed(r))
      && forall k :: 0 <= k < |r.columns| ==> r.columns[k].Numeric? && (forall i :: 0 <= i < |r.columns[k].nums| && r.columns[k].nums[i].Some? ==>
            config.low <= r.columns[k].nums[i].value <= config.high)
  {
  }

  /** Normalising a normalised frame with the same settings changes nothing. */
  lemma NormalizeIdempotent(config: Config, t: Table, parse: string -> Option<real>)
    requires NormalizeFeatures(config, t, parse).Success?
    ensures NormalizeFeatures(config, NormalizeFeatures(config, t, parse).value, parse)
         == NormalizeFeatures(config, t, parse)
  {
    var r := NormalizeFeatures(config, t, parse).value;
    assert forall k :: 0 <= k < |r.columns| ==> ParseNumbers(r.columns[k], parse) == Success(r.columns[k]);
    var r2 := NormalizeFeatures(config, r, parse);
    assert r2.Success?;
    forall k | 0 <= k < |r.columns| ensures r2.value.columns[k] == r.columns[k] {
      ScaleIdempotent(ParseNumbers(t.columns[k], parse).value.nums, config.low, config.high);
    }
    assert r2.value.columns == r.columns;
  }

  // ----- preprocess_data -----

  /**
   * `preprocess_data` on a frame value: convert encoded columns, handle missing
   * values, KNN-impute, normalise, in that order; the first stage to raise ends it.
   */
  function Preprocess(config: Config, t: Table, parse: string -> Option<real>,
                      imputer: Block -> Result<Block, Error>): (r: Result<Table, Error>)
    ensures ConvertAll(t, parse).Failure? ==> r == Failure(ConvertAll(t, parse).error)
    ensures ConvertAll(t, parse).Success? && config.strategy != "median" && config.strategy != "mean" ==>
      r == Failure(ValueError("Invalid missing value strategy: " + config.strategy))
  {
    var converted :- ConvertAll(t, parse);
    var filled :- HandleMissingValues(config, converted);
    var imputed :- ImputeMissingValuesWithKnn(filled, imputer);
    NormalizeFeatures(config, imputed, parse)
  }

  /**
   * The pipeline drops no row and no column: its result has the input's row
   * count and the input's column names (numeric ones first), is well formed when
   * the input is, and holds only numeric columns whose present values lie in the
   * feature range.
   */
  lemma PreprocessShape(config: Config, t: Table, parse: string -> Option<real>,
                        imputer: Block -> Result<Block, Error>)
    requires Preprocess(config, t, parse, imputer).Success?
    ensures var r := Preprocess(config, t, parse, imputer).value;
      && r.rows == t.rows
      && multiset(Names(r.columns)) == multiset(Names(t.columns))
      && (WellFormed(t) ==> WellFormed(r))
      && forall k :: 0 <= k < |r.columns| ==> r.columns[k].Numeric? && (forall i :: 0 <= i < |r.columns[k].nums| && r.columns[k].nums[i].Some? ==>
            config.low <= r.columns[k].nums[i].value <= config.high)
  {
    var converted := ConvertAll(t, parse).value;
    var filled := HandleMissingValues(config, converted).value;
    var imputed := ImputeMissingValuesWithKnn(filled, imputer).value;
    var r := NormalizeFeatures(config, imputed, parse).value;
    assert Preprocess(config, t, parse, imputer) == Success(r);
    assert multiset(Names(filled.columns)) == multiset(Names(t.columns)) && (WellFormed(t) ==> WellFormed(filled)) by {
      ConvertKeepsShape(t, parse);
      HandleMissingKeepsShape(config, converted);
    }
    assert multiset(Names(imputed.columns)) == multiset(Names(filled.columns)) && (WellFormed(filled) ==> WellFormed(imputed)) by {
      KnnReordersColumnsOnly(filled, imputer);
    }
    NormalizedIsInRange(config, imputed, parse);
  }

  /**
   * `preprocess_data(data)`: the caller's frame is converted in place (and stays
   * converted, or partly converted, whatever happens later); the stages that
   * follow build new frames, and the result is the pipeline's value.
   * The stage-1 missing-value heat map is a plot and is not modelled.
   */
  method PreprocessData(config: Config, df: Frame, parse: string -> Option<real>,
                        imputer: Block -> Result<Block, Error>) returns (r: Result<Table, Error>)
    modifies df
    ensures r == Preprocess(config, old(df.Value()), parse, imputer)
    ensures df.rows == old(df.rows) && |df.columns| == |old(df.columns)|
    ensures forall k :: 0 <= k < FirstFailure(old(df.columns), parse) ==>
      df.columns[k] == ConvertColumn(old(df.columns)[k], parse).value
    ensures forall k :: FirstFailure(old(df.columns), parse) <= k < |df.columns| ==>
      df.columns[k] == old(df.columns)[k]
  {
    var converted := ConvertCurrencyAndPercentageColumns(df, parse);
    if converted.Fail? {
      return Failure(converted.error);
    }
    var data := df.Value();
    data :- HandleMissingValues(config, data);
    data :- ImputeMissingValuesWithKnn(data, imputer);
    data :- NormalizeFeatures(config, data, parse);
    return Success(data);
  }
}
