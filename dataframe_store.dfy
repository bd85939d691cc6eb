/**
 * `DataFrameStore`: the process-wide metadata catalog. It holds an ordered
 * sequence of rows `{table_name, column_name, data_type, source_file}`, one
 * per column of every loaded table; loading a table replaces that table's rows.
 */
module Catalog {
  import opened Wrappers
  import opened Text

  datatype MetaRow = MetaRow(tableName: string, columnName: string, dataType: string, sourceFile: string)

  /** The columns `add_metadata` insists on. */
  const RequiredColumns: set<string> := {"column_name", "data_type", "table_name", "source_file"}

  /** The `ValueError` text `add_metadata` raises when a required column is missing. */
  const ShapeError: string :=
    "metadata_df deve conter as colunas: ['column_name', 'data_type', 'table_name', 'source_file']"

  /** The DataFrame handed to `add_metadata`: its column labels and its rows. */
  datatype MetaFrame = MetaFrame(columns: set<string>, rows: seq<MetaRow>)

  // ---------------------------------------------------------------------------
  // Row selections

  /** `store[store['table_name'] == t]`: the rows of table `t`, in catalog order. */
  function Filter(rows: seq<MetaRow>, t: string): (r: seq<MetaRow>)
    ensures forall x :: x in r <==> x in rows && x.tableName == t
    ensures |r| <= |rows|
    ensures IsSubsequence(r, rows)
  {
    if rows == [] then []
    else if rows[0].tableName == t then
      var r := [rows[0]] + Filter(rows[1..], t);
      assert r[1..] == Filter(rows[1..], t);
      r
    else
      Filter(rows[1..], t)
  }

  /** `store[store['table_name'] != t]`: every row of the other tables, in catalog order. */
  function Without(rows: seq<MetaRow>, t: string): (r: seq<MetaRow>)
    ensures forall x :: x in r <==> x in rows && x.tableName != t
    ensures |r| <= |rows|
    ensures IsSubsequence(r, rows)
  {
    if rows == [] then []
    else if rows[0].tableName != t then
      var r := [rows[0]] + Without(rows[1..], t);
      assert r[1..] == Without(rows[1..], t);
      r
    else Without(rows[1..], t)
  }

  /** Selecting a table's rows from a concatenation selects from each part in turn. */
  lemma {:induction false} FilterAppend(a: seq<MetaRow>, b: seq<MetaRow>, t: string)
    ensures Filter(a + b, t) == Filter(a, t) + Filter(b, t)
    decreases |a|
  {
    if a == [] {
      assert a + b == b;
    } else {
      assert (a + b)[1..] == a[1..] + b;
      FilterAppend(a[1..], b, t);
    }
  }

  lemma {:induction false} WithoutAppend(a: seq<MetaRow>, b: seq<MetaRow>, t: string)
    ensures Without(a + b, t) == Without(a, t) + Without(b, t)
    decreases |a|
  {
    if a == [] {
      assert a + b == b;
    } else {
      assert (a + b)[1..] == a[1..] + b;
      WithoutAppend(a[1..], b, t);
    }
  }

  /** Removing a table's rows does not change which rows the other tables have. */
  lemma {:induction false} FilterWithoutOther(rows: seq<MetaRow>, t: string, u: string)
    requires u != t
    ensures Filter(Without(rows, t), u) == Filter(rows, u)
    decreases |rows|
  {
    if rows != [] {
      FilterWithoutOther(rows[1..], t, u);
    }
  }

  /** Removing a table's rows twice is removing them once. */
  lemma {:induction false} WithoutIdempotent(rows: seq<MetaRow>, t: string)
    ensures Without(Without(rows, t), t) == Without(rows, t)
    decreases |rows|
  {
    if rows != [] {
      WithoutIdempotent(rows[1..], t);
    }
  }

  /** Rows that all belong to `t` are exactly what `Filter` keeps and all that `Without` drops. */
  lemma {:induction false} OwnRows(m: seq<MetaRow>, t: string)
    requires forall x :: x in m ==> x.tableName == t
    ensures Filter(m, t) == m && Without(m, t) == []
    decreases |m|
  {
    if m != [] {
      OwnRows(m[1..], t);
    }
  }

  /** A table none of whose rows are present selects nothing. */
  lemma {:induction false} FilterAbsent(rows: seq<MetaRow>, u: string)
    requires forall x :: x in rows ==> x.tableName != u
    ensures Filter(rows, u) == []
    decreases |rows|
  {
    if rows != [] {
      FilterAbsent(rows[1..], u);
    }
  }

  /** Every row is either one of table `t`'s rows or one of the others'. */
  lemma {:induction false} SplitByTable(rows: seq<MetaRow>, t: string)
    ensures multiset(Filter(rows, t)) + multiset(Without(rows, t)) == multiset(rows)
    decreases |rows|
  {
    if rows != [] {
      var x, rest := rows[0], rows[1..];
      SplitByTable(rest, t);
      SplitFirst(rows, t);
      assert multiset(rows) == multiset([x]) + multiset(rest) by {
        assert rows == [x] + rest;
      }
    }
  }

  lemma SplitFirst(rows: seq<MetaRow>, t: string)
    requires rows != []
    ensures multiset(Filter(rows, t)) + multiset(Without(rows, t))
      == multiset([rows[0]]) + (multiset(Filter(rows[1..], t)) + multiset(Without(rows[1..], t)))
  {
    SelectFirst(rows, t);
    if rows[0].tableName == t {
      assert multiset(Filter(rows, t)) == multiset([rows[0]]) + multiset(Filter(rows[1..], t));
    } else {
      assert multiset(Without(rows, t)) == multiset([rows[0]]) + multiset(Without(rows[1..], t));
    }
  }

  /** The first row goes to exactly one of the two selections. */
  lemma SelectFirst(rows: seq<MetaRow>, t: string)
    requires rows != []
    ensures rows[0].tableName == t ==>
      Filter(rows, t) == [rows[0]] + Filter(rows[1..], t) && Without(rows, t) == Without(rows[1..], t)
    ensures rows[0].tableName != t ==>
      Filter(rows, t) == Filter(rows[1..], t) && Without(rows, t) == [rows[0]] + Without(rows[1..], t)
  {
  }

  // ---------------------------------------------------------------------------
  // What add_metadata does to the rows

  /** The old rows of `t` are dropped, the other rows keep their order, the new rows follow. */
  function Replaced(rows: seq<MetaRow>, t: string, m: seq<MetaRow>): seq<MetaRow> {
    Without(rows, t) + m
  }

  /** After a replace, table `t` has exactly the new rows and every other table what it had. */
  lemma ReplacedFilter(rows: seq<MetaRow>, t: string, m: seq<MetaRow>, u: string)
    requires forall x :: x in m ==> x.tableName == t
    ensures Filter(Replaced(rows, t, m), u) == if u == t then m else Filter(rows, u)
  {
    FilterAppend(Without(rows, t), m, u);
    OwnRows(m, t);
    if u == t {
      FilterAbsent(Without(rows, t), t);
    } else {
      FilterWithoutOther(rows, t, u);
      FilterAbsent(m, u);
    }
  }

  /** `add_metadata(t, M)` twice leaves the state one call leaves, when every row of M is of table t. */
  lemma ReplacedIdempotent(rows: seq<MetaRow>, t: string, m: seq<MetaRow>)
    requires forall x :: x in m ==> x.tableName == t
    ensures Replaced(Replaced(rows, t, m), t, m) == Replaced(rows, t, m)
  {
    WithoutAppend(Without(rows, t), m, t);
    WithoutIdempotent(rows, t);
    OwnRows(m, t);
    calc {
      Replaced(Replaced(rows, t, m), t, m);
      Without(Without(rows, t) + m, t) + m;
      Without(Without(rows, t), t) + Without(m, t) + m;
      Without(rows, t) + [] + m;
      { assert Without(rows, t) + [] == Without(rows, t); }
      Replaced(rows, t, m);
    }
  }

  // ---------------------------------------------------------------------------
  // Distinct table names

  function TableNames(rows: seq<MetaRow>): (names: seq<string>)
    ensures |names| == |rows| && forall i :: 0 <= i < |rows| ==> names[i] == rows[i].tableName
  {
    seq(|rows|, i requires 0 <= i < |rows| => rows[i].tableName)
  }

  function FirstIndex(s: seq<string>, x: string): (i: nat)
    requires x in s
    ensures i < |s| && s[i] == x
    ensures forall k :: 0 <= k < i ==> s[k] != x
  {
    if s[0] == x then 0 else 1 + FirstIndex(s[1..], x)
  }

  lemma FirstIndexInPrefix(s: seq<string>, n: nat, x: string)
    requires n <= |s| && x in s[..n]
    ensures FirstIndex(s, x) == FirstIndex(s[..n], x)
  {
    var i, j := FirstIndex(s, x), FirstIndex(s[..n], x);
    assert s[j] == x;
    assert s[..n][i] == x by { assert i <= j; }
  }

  /** `Series.unique()`: every name once, in order of first appearance. */
  function Distinct(s: seq<string>): (r: seq<string>)
    ensures forall x :: x in r <==> x in s
    ensures forall i, j :: 0 <= i < j < |r| ==> r[i] != r[j]
    ensures forall i, j :: 0 <= i < j < |r| ==> FirstIndex(s, r[i]) < FirstIndex(s, r[j])
  {
    if s == [] then []
    else
      var p := s[..|s| - 1];
      var x := s[|s| - 1];
      var r := Distinct(p);
      assert s == p + [x];
      forall y | y in r
        ensures FirstIndex(s, y) == FirstIndex(p, y)
      {
        FirstIndexInPrefix(s, |s| - 1, y);
      }
      if x in r then r else r + [x]
  }

  // ---------------------------------------------------------------------------
  // The store

  class DataFrameStore {
    /** `_metadata_store`, as rows in order. */
    var rows: seq<MetaRow>

    constructor ()
      ensures rows == []
    {
      rows := [];
    }

    /**
     * `add_metadata(table_name, metadata_df)`: refuses a frame that lacks one of
     * the four required columns (raising `ValueError`, store unchanged); otherwise
     * drops the rows of `tableName` and appends the frame's rows.
     */
    method AddMetadata(tableName: string, frame: MetaFrame) returns (raised: Option<string>)
      modifies this
      ensures raised.Some? <==> !(RequiredColumns <= frame.columns)
      ensures raised.Some? ==> raised.value == ShapeError && rows == old(rows)
      ensures raised.None? ==> rows == Replaced(old(rows), tableName, frame.rows)
    {
      if !(RequiredColumns <= frame.columns) {
        return Some(ShapeError);
      }
      rows := Without(rows, tableName);
      rows := rows + frame.rows;
      return None;
    }

    /** `get_all_metadata()`: a copy of every row, in order. */
    function GetAllMetadata(): (snapshot: seq<MetaRow>)
      reads this
      ensures |snapshot| == |rows| && forall i :: 0 <= i < |rows| ==> snapshot[i] == rows[i]
    {
      rows
    }

    /** `get_metadata_by_table(t)`: exactly the rows of `t`, in store order. */
    function GetMetadataByTable(t: string): (r: seq<MetaRow>)
      reads this
      ensures forall x :: x in r <==> x in rows && x.tableName == t
      ensures multiset(r) + multiset(Without(rows, t)) == multiset(rows)
      ensures IsSubsequence(r, rows)
    {
      SplitByTable(rows, t);
      Filter(rows, t)
    }

    /** `clear()`: no rows left. */
    method Clear()
      modifies this
      ensures rows == []
    {
      rows := [];
    }

    /** `get_table_names()`: each table name once, in order of first appearance. */
    function GetTableNames(): (names: seq<string>)
      reads this
      ensures forall t :: t in names <==> t in TableNames(rows)
      ensures forall t :: t in names <==> exists i :: 0 <= i < |rows| && rows[i].tableName == t
      ensures forall i, j :: 0 <= i < j < |names| ==> names[i] != names[j]
      ensures forall i, j :: 0 <= i < j < |names| ==>
                FirstIndex(TableNames(rows), names[i]) < FirstIndex(TableNames(rows), names[j])
    {
      var all := TableNames(rows);
      assert forall t :: t in all <==> exists i :: 0 <= i < |rows| && rows[i].tableName == t by {
        forall t | t in all ensures exists i :: 0 <= i < |rows| && rows[i].tableName == t {
          var i :| 0 <= i < |all| && all[i] == t;
        }
      }
      Distinct(all)
    }
  }

  /**
   * The `DataFrameStore` class object: `__new__` creates the instance on first
   * use and hands back that same instance ever after.
   */
  class DataFrameStoreClass {
    /** `_instance`. */
    var instance: DataFrameStore?

    constructor ()
      ensures instance == null
    {
      instance := null;
    }

    /** `DataFrameStore()`. */
    method New() returns (store: DataFrameStore)
      modifies this
      ensures instance == store
      ensures old(instance) != null ==> store == old(instance)
      ensures old(instance) == null ==> fresh(store) && store.rows == []
    {
      if instance == null {
        store := new DataFrameStore();
        instance := store;
      } else {
        store := instance;
      }
    }
  }

  /** Two constructions, in any order with anything else, yield one and the same store. */
  method ConstructTwice(cls: DataFrameStoreClass) returns (a: DataFrameStore, b: DataFrameStore)
    modifies cls
    ensures a == b && cls.instance == a
  {
    a := cls.New();
    b := cls.New();
  }
}
