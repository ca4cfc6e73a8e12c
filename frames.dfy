/**
 * pandas data frames as the preprocessing and ranking code uses them: an ordered
 * sequence of named columns over a shared row index, each cell possibly missing.
 * Rows are identified by position (every frame in the modelled code keeps its
 * index aligned with positions).
 */
module Frames {
  import opened Wrappers

  /** The Python exceptions the modelled code can raise, by class name. */
  datatype Error =
    | KeyError(key: string)
    | ValueError(message: string)
    | IndexError(message: string)
    | TypeError(message: string)

  /**
   * A column is numeric (a float dtype) or textual (the `object` dtype holding
   * strings). `None` is a missing cell (NaN or None).
   */
  datatype Column =
    | Numeric(name: string, nums: seq<Option<real>>)
    | Text(name: string, texts: seq<Option<string>>)
  {
    function Length(): nat {
      if Numeric? then |nums| else |texts|
    }
  }

  /** A frame as a value: its row count (the length of its index) and its columns. */
  datatype Table = Table(rows: nat, columns: seq<Column>)

  /** Every column has one cell per row. */
  ghost predicate WellFormed(t: Table) {
    forall k :: 0 <= k < |t.columns| ==> t.columns[k].Length() == t.rows
  }

  /** `df.columns`: the column names in order. */
  function Names(cols: seq<Column>): (ns: seq<string>)
    ensures |ns| == |cols|
    ensures forall k :: 0 <= k < |cols| ==> ns[k] == cols[k].name
  {
    seq(|cols|, k requires 0 <= k < |cols| => cols[k].name)
  }

  /** The position of the first column called `name`, if any. */
  function Find(cols: seq<Column>, name: string): (r: Option<nat>)
    ensures r.None? <==> forall k :: 0 <= k < |cols| ==> cols[k].name != name
    ensures r.Some? ==> r.value < |cols| && cols[r.value].name == name
    ensures r.Some? ==> forall k :: 0 <= k < r.value ==> cols[k].name != name
  {
    if cols == [] then None
    else if cols[0].name == name then Some(0)
    else match Find(cols[1..], name)
      case None => None
      case Some(i) => Some(i + 1)
  }

  /**
   * `df[names]`: a new frame with the listed columns in the listed order and the
   * same index; a name that is not a column raises KeyError.
   */
  function Select(t: Table, names: seq<string>): (r: Result<Table, Error>)
    ensures r.Success? <==> forall k :: 0 <= k < |names| ==> Find(t.columns, names[k]).Some?
    ensures r.Failure? ==> r.error.KeyError? && r.error.key in names && Find(t.columns, r.error.key).None?
    ensures r.Success? ==> r.value.rows == t.rows && |r.value.columns| == |names|
    ensures r.Success? ==> forall k :: 0 <= k < |names| ==>
      r.value.columns[k] == t.columns[Find(t.columns, names[k]).value]
    ensures r.Success? ==> Names(r.value.columns) == names
    ensures r.Success? && WellFormed(t) ==> WellFormed(r.value)
  {
    if names == [] then Success(Table(t.rows, []))
    else match Find(t.columns, names[0])
      case None => Failure(KeyError(names[0]))
      case Some(i) =>
        var rest :- Select(t, names[1..]);
        Success(Table(t.rows, [t.columns[i]] + rest.columns))
  }

  /**
   * `df[c.name] = values`: replaces the column of that name where it stands, or
   * appends the column at the end when there is none.
   */
  function SetColumn(t: Table, c: Column): (r: Table)
    ensures r.rows == t.rows
    ensures |r.columns| == |t.columns| + (if Find(t.columns, c.name).None? then 1 else 0)
    ensures Find(r.columns, c.name).Some? && r.columns[Find(r.columns, c.name).value] == c
    ensures forall k :: 0 <= k < |t.columns| && t.columns[k].name != c.name ==> r.columns[k] == t.columns[k]
    ensures WellFormed(t) && c.Length() == t.rows ==> WellFormed(r)
  {
    match Find(t.columns, c.name)
    case None =>
      AppendColumn(t, c);
      Table(t.rows, t.columns + [c])
    case Some(i) =>
      ReplaceColumn(t, c, i);
      Table(t.rows, t.columns[i := c])
  }

  lemma AppendColumn(t: Table, c: Column)
    requires Find(t.columns, c.name).None?
    ensures var cols := t.columns + [c];
      && Find(cols, c.name) == Some(|t.columns|)
      && (forall k :: 0 <= k < |t.columns| ==> cols[k] == t.columns[k])
      && (WellFormed(t) && c.Length() == t.rows ==> WellFormed(Table(t.rows, cols)))
  {
    var cols := t.columns + [c];
    FindFirst(cols, c.name, |t.columns|);
  }

  lemma ReplaceColumn(t: Table, c: Column, i: nat)
    requires Find(t.columns, c.name) == Some(i)
    ensures var cols := t.columns[i := c];
      && Find(cols, c.name) == Some(i)
      && (WellFormed(t) && c.Length() == t.rows ==> WellFormed(Table(t.rows, cols)))
  {
    FindFirst(t.columns[i := c], c.name, i);
  }

  /** A column called `name` with no earlier one of that name is the one `Find` returns. */
  lemma FindFirst(cols: seq<Column>, name: string, i: nat)
    requires i < |cols| && cols[i].name == name
    requires forall k :: 0 <= k < i ==> cols[k].name != name
    ensures Find(cols, name) == Some(i)
  {
    var r := Find(cols, name);
    assert r.Some? by {
      assert cols[i].name == name;
    }
    assert r.value >= i by {
      assert cols[r.value].name == name;
    }
    assert r.value <= i;
  }

  /** A frame object, for the code that assigns columns of a caller's frame in place. */
  class Frame {
    var rows: nat
    var columns: seq<Column>

    constructor (t: Table)
      ensures Value() == t
    {
      rows := t.rows;
      columns := t.columns;
    }

    /** The frame's current contents as a value. */
    function Value(): Table
      reads this
    {
      Table(rows, columns)
    }
  }
}
