/**
 * The pandas side of the model: a DataFrame is a map from column name to a
 * homogeneous column, all of one length; a column's dtype is its tag.
 * PyObject stands for an argument whose Python type the code checks with
 * `isinstance`.
 */
module Frame {

  /** float32/float64, int/int64, and every other dtype (read as text). */
  datatype Column = FloatCol(floats: seq<real>) | IntCol(ints: seq<int>) | TextCol(texts: seq<string>)
  {
    function Length(): nat {
      match this
      case FloatCol(v) => |v|
      case IntCol(v) => |v|
      case TextCol(v) => |v|
    }
  }

  /**
   * `columns` are the named columns, `nrow` is `len(data)`, and `indexLabels`
   * are the string labels of the row index (none for the default RangeIndex).
   */
  datatype Table = Table(columns: map<string, Column>, nrow: nat, indexLabels: set<string>)
  {
    /** Every column has `nrow` cells, as in any DataFrame. */
    ghost predicate Valid() {
      forall name :: name in columns ==> columns[name].Length() == nrow
    }
  }

  /** A dynamically typed Python argument. */
  datatype PyObject = PyStr(s: string) | PyBool(b: bool) | PyFrame(t: Table) | PyOther
}
