/**
 * The tabular values the pipeline moves around: a pandas DataFrame read from a
 * CSV file, a table of the SQLite database, the result of a query. Column-major,
 * as pandas holds them; the dtype pandas inferred is kept as its name
 * (`object`, `int64`, `float64`, ...).
 */
module Frames {

  /** One cell: a string, a missing value (NaN), or any other value with its `str()` rendering. */
  datatype Value = Str(s: string) | Missing | Other(repr: string)

  /** `str(value)`. */
  function ToStr(v: Value): string {
    match v
    case Str(s) => s
    case Missing => "nan"
    case Other(repr) => repr
  }

  datatype Column = Column(name: string, dtype: string, values: seq<Value>)

  datatype Frame = Frame(columns: seq<Column>)

  /** `df.empty`: no columns, or no rows. */
  predicate IsEmpty(f: Frame) {
    |f.columns| == 0 || |f.columns[0].values| == 0
  }

  function ColumnNames(cols: seq<Column>): (names: seq<string>)
    ensures |names| == |cols| && forall i :: 0 <= i < |cols| ==> names[i] == cols[i].name
  {
    seq(|cols|, i requires 0 <= i < |cols| => cols[i].name)
  }
}
