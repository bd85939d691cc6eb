/**
 * The schema description the query analyser hands to the SQL generator: one
 * line per catalogued table, in ascending order of table name, listing that
 * table's columns with their dtypes in catalog order; a fixed sentence when the
 * catalog is empty.
 */
module SchemaContext {
  import opened Text
  import opened Catalog

  const NoMetadataContext: string := "N\U{E3}o h\U{E1} metadados de tabelas " + "carregados no momento."

  // ---------------------------------------------------------------------------
  // groupby('table_name'): the group keys, sorted

  predicate StrictlySorted(s: seq<string>) {
    forall i, j :: 0 <= i < j < |s| ==> Less(s[i], s[j])
  }

  /** A strictly sorted list names each text once. */
  lemma StrictlySortedDistinct(s: seq<string>)
    requires StrictlySorted(s)
    ensures forall i, j :: 0 <= i < j < |s| ==> s[i] != s[j]
  {
    forall i, j | 0 <= i < j < |s| ensures s[i] != s[j] {
      if s[i] == s[j] {
        LessIrreflexive(s[i]);
      }
    }
  }

  /** Inserts `x` at its place in a strictly sorted list, unless it is there already. */
  function InsertName(x: string, s: seq<string>): (r: seq<string>)
    requires StrictlySorted(s)
    ensures StrictlySorted(r)
    ensures forall y :: y in r <==> y == x || y in s
    decreases |s|
  {
    if s == [] then [x]
    else if x == s[0] then s
    else if Less(x, s[0]) then
      assert forall j :: 0 < j < |s| ==> Less(x, s[j]) by {
        forall j | 0 < j < |s| ensures Less(x, s[j]) {
          LessTransitive(x, s[0], s[j]);
        }
      }
      [x] + s
    else
      LessTotal(x, s[0]);
      var tail := InsertName(x, s[1..]);
      assert forall y :: y in tail ==> Less(s[0], y);
      [s[0]] + tail
  }

  /** The distinct names of `names`, in ascending order: `groupby` sorts its keys. */
  function SortedNames(names: seq<string>): (r: seq<string>)
    ensures StrictlySorted(r)
    ensures forall y :: y in r <==> y in names
    decreases |names|
  {
    if names == [] then []
    else InsertName(names[|names| - 1], SortedNames(names[..|names| - 1]))
  }

  /** The group keys of the catalog: every table name once, ascending. */
  function GroupKeys(rows: seq<MetaRow>): (keys: seq<string>)
    ensures StrictlySorted(keys)
    ensures forall i, j :: 0 <= i < j < |keys| ==> keys[i] != keys[j]
    ensures forall t :: t in keys <==> exists x :: x in rows && x.tableName == t
  {
    var keys := SortedNames(TableNames(rows));
    StrictlySortedDistinct(keys);
    assert forall t :: t in TableNames(rows) <==> exists x :: x in rows && x.tableName == t by {
      forall t | t in TableNames(rows) ensures exists x :: x in rows && x.tableName == t {
        var i :| 0 <= i < |rows| && TableNames(rows)[i] == t;
        assert rows[i] in rows;
      }
      forall t | exists x :: x in rows && x.tableName == t ensures t in TableNames(rows) {
        var x :| x in rows && x.tableName == t;
        var i :| 0 <= i < |rows| && rows[i] == x;
        assert TableNames(rows)[i] == t;
      }
    }
    keys
  }

  // ---------------------------------------------------------------------------
  // The lines

  /** `f"{row['column_name']} {row['data_type']}"`. */
  function ColumnEntry(x: MetaRow): string {
    x.columnName + " " + x.dataType
  }

  /** The column entries of a group, in catalog order. */
  function Entries(group: seq<MetaRow>): seq<string> {
    seq(|group|, i requires 0 <= i < |group| => ColumnEntry(group[i]))
  }

  /** `"Tabela '{t}': " + ", ".join(entries) + "."` over the rows of the group, in catalog order. */
  function TableLine(t: string, group: seq<MetaRow>): (line: string)
    ensures StartsWith(line, "Tabela '" + t + "': ")
    ensures line != [] && line[|line| - 1] == '.'
    ensures forall i :: 0 <= i < |group| ==> Contains(line, ColumnEntry(group[i]))
  {
    var head := "Tabela '" + t + "': ";
    var entries := Entries(group);
    var line := head + Join(", ", entries) + ".";
    assert line[..|head|] == head;
    forall i | 0 <= i < |group| ensures Contains(line, ColumnEntry(group[i])) {
      JoinContainsPart(", ", entries, i);
      ContainsAfter(head, Join(", ", entries), entries[i]);
      ContainsBefore(head + Join(", ", entries), ".", entries[i]);
    }
    line
  }

  /** A table without rows gets a line with no entries. */
  lemma TableLineEmpty(t: string)
    ensures TableLine(t, []) == "Tabela '" + t + "': ."
  {
    assert Entries([]) == [];
    var head := "Tabela '" + t + "': ";
    assert head + [] == head;
    ConcatAssoc("Tabela '" + t, "': ", ".");
  }

  /** A single row gives the head, its entry and the full stop. */
  lemma TableLineSingle(t: string, x: MetaRow)
    ensures TableLine(t, [x]) == "Tabela '" + t + "': " + ColumnEntry(x) + "."
  {
    assert Entries([x]) == [ColumnEntry(x)];
  }

  /**
   * One more row of the group moves the full stop: the line so far, without
   * its full stop, then a comma and a space, the new entry and the full stop.
   */
  lemma TableLineAppend(t: string, g: seq<MetaRow>, x: MetaRow)
    requires g != []
    ensures TableLine(t, g + [x]) == TableLine(t, g)[..|TableLine(t, g)| - 1] + ", " + ColumnEntry(x) + "."
  {
    var head := "Tabela '" + t + "': ";
    var e := ColumnEntry(x);
    assert Entries(g + [x]) == Entries(g) + [e];
    JoinAppend(", ", Entries(g), e);
    var j := Join(", ", Entries(g));
    var line := TableLine(t, g);
    assert line == head + j + ".";
    assert line[..|line| - 1] == head + j;
    assert TableLine(t, g + [x]) == head + (j + ", " + e) + ".";
    ConcatAssoc(head, j + ", ", e);
    ConcatAssoc(head, j, ", ");
  }

  function TableLines(rows: seq<MetaRow>, keys: seq<string>): (lines: seq<string>)
    ensures |lines| == |keys|
    ensures forall i :: 0 <= i < |keys| ==> lines[i] == TableLine(keys[i], Filter(rows, keys[i]))
  {
    seq(|keys|, i requires 0 <= i < |keys| => TableLine(keys[i], Filter(rows, keys[i])))
  }

  /** Lines 31-42 of the query analyser. */
  function SchemaContextOf(rows: seq<MetaRow>): (ctx: string)
    ensures rows == [] <==> ctx == NoMetadataContext
    ensures rows != [] ==> ctx != [] && ctx[|ctx| - 1] == '.'
  {
    if rows == [] then NoMetadataContext
    else
      var keys := GroupKeys(rows);
      assert rows[0].tableName in keys;
      var lines := TableLines(rows, keys);
      JoinEndsWith("\n", lines, '.');
      JoinStartsWith("\n", lines);
      assert lines[0][0] == 'T';
      assert NoMetadataContext[0] == 'N';
      Join("\n", lines)
  }

  lemma JoinStartsWith(sep: string, parts: seq<string>)
    requires parts != [] && parts[0] != []
    ensures var r := Join(sep, parts); r != [] && r[0] == parts[0][0]
  {
  }

  // ---------------------------------------------------------------------------
  // Properties

  /** Every table with metadata has its own line in the context, listing its rows. */
  lemma ContextListsEveryTable(rows: seq<MetaRow>, t: string)
    requires exists x :: x in rows && x.tableName == t
    ensures Contains(SchemaContextOf(rows), TableLine(t, Filter(rows, t)))
  {
    var keys := GroupKeys(rows);
    assert t in keys;
    var k :| 0 <= k < |keys| && keys[k] == t;
    JoinContainsPart("\n", TableLines(rows, keys), k);
  }

  /** With at least one table, the context is the table lines joined by line breaks. */
  lemma ContextIsJoin(rows: seq<MetaRow>)
    requires GroupKeys(rows) != []
    ensures SchemaContextOf(rows) == Join("\n", TableLines(rows, GroupKeys(rows)))
  {
    var keys := GroupKeys(rows);
    assert keys[0] in keys;
  }

  /** `JoinPartAt` for lines joined by line breaks. */
  lemma LineAt(lines: seq<string>, ctx: string, k: nat)
    requires ctx == Join("\n", lines) && k < |lines|
    ensures OccursAt(lines[k], ctx, PartOffset("\n", lines, k))
    ensures k + 1 < |lines| ==>
      var e := PartOffset("\n", lines, k) + |lines[k]|;
      e < |ctx| && ctx[e] == '\n' && PartOffset("\n", lines, k + 1) == e + 1
    ensures k + 1 == |lines| ==> PartOffset("\n", lines, k) + |lines[k]| == |ctx|
  {
    assert |"\n"| == 1;
    JoinPartAt("\n", lines, k);
    if k + 1 < |lines| {
      var e := PartOffset("\n", lines, k) + |lines[k]|;
      assert ctx[e..e + 1] == "\n";
      assert ctx[e] == ctx[e..e + 1][0];
    }
  }

  /**
   * Line `k` of the context is the line of the `k`-th smallest table name
   * (`TableLines` states that it is that table's `TableLine`): it sits at its
   * offset, the first line opens the context, a line break follows every line
   * but the last and the next line starts right after it, and the last line
   * ends the context.
   */
  lemma ContextLineAt(rows: seq<MetaRow>, k: nat)
    requires k < |GroupKeys(rows)|
    ensures
      var lines := TableLines(rows, GroupKeys(rows));
      OccursAt(lines[k], SchemaContextOf(rows), PartOffset("\n", lines, k))
    ensures k == 0 ==> PartOffset("\n", TableLines(rows, GroupKeys(rows)), 0) == 0
    ensures k + 1 < |GroupKeys(rows)| ==>
      var lines := TableLines(rows, GroupKeys(rows));
      var ctx := SchemaContextOf(rows);
      var e := PartOffset("\n", lines, k) + |lines[k]|;
      e < |ctx| && ctx[e] == '\n' && PartOffset("\n", lines, k + 1) == e + 1
    ensures k + 1 == |GroupKeys(rows)| ==>
      var lines := TableLines(rows, GroupKeys(rows));
      PartOffset("\n", lines, k) + |lines[k]| == |SchemaContextOf(rows)|
  {
    var lines := TableLines(rows, GroupKeys(rows));
    ContextIsJoin(rows);
    LineAt(lines, SchemaContextOf(rows), k);
  }

  /**
   * The lines follow the sorted group keys: the line of a smaller table name
   * ends before the line of a larger one begins.
   */
  lemma ContextLinesInOrder(rows: seq<MetaRow>, i: nat, j: nat)
    requires i < j < |GroupKeys(rows)|
    ensures
      var keys := GroupKeys(rows);
      var ctx := SchemaContextOf(rows);
      var li := TableLine(keys[i], Filter(rows, keys[i]));
      var lj := TableLine(keys[j], Filter(rows, keys[j]));
      && Less(keys[i], keys[j])
      && exists p, q :: OccursAt(li, ctx, p) && OccursAt(lj, ctx, q) && p + |li| < q
  {
    var keys := GroupKeys(rows);
    var lines := TableLines(rows, keys);
    ContextIsJoin(rows);
    JoinPartAt("\n", lines, i);
    JoinPartAt("\n", lines, j);
    PartOffsetsIncrease("\n", lines, i, j);
    assert lines[i] == TableLine(keys[i], Filter(rows, keys[i]));
    assert lines[j] == TableLine(keys[j], Filter(rows, keys[j]));
    var p, q := PartOffset("\n", lines, i), PartOffset("\n", lines, j);
    assert OccursAt(lines[i], SchemaContextOf(rows), p) && OccursAt(lines[j], SchemaContextOf(rows), q);
  }

  /** The rows of the groups, one group after the other. */
  function GroupedRows(rows: seq<MetaRow>, keys: seq<string>): seq<MetaRow>
    decreases |keys|
  {
    if keys == [] then [] else Filter(rows, keys[0]) + GroupedRows(rows, keys[1..])
  }

  /** Removing a table's rows changes no group of another table. */
  lemma {:induction false} GroupedRowsWithout(rows: seq<MetaRow>, keys: seq<string>, t: string)
    requires t !in keys
    ensures GroupedRows(Without(rows, t), keys) == GroupedRows(rows, keys)
    decreases |keys|
  {
    if keys != [] {
      FilterWithoutOther(rows, t, keys[0]);
      GroupedRowsWithout(rows, keys[1..], t);
    }
  }

  /**
   * Grouping by a list of distinct keys that covers every row's table puts
   * every row in exactly one group: the groups together are the rows.
   */
  lemma {:induction false} GroupsPartitionRows(rows: seq<MetaRow>, keys: seq<string>)
    requires forall i, j :: 0 <= i < j < |keys| ==> keys[i] != keys[j]
    requires forall x :: x in rows ==> x.tableName in keys
    ensures multiset(GroupedRows(rows, keys)) == multiset(rows)
    decreases |keys|
  {
    if keys == [] {
      assert forall i :: 0 <= i < |rows| ==> rows[i] in rows;
    } else {
      var t := keys[0];
      var rest := Without(rows, t);
      assert forall i, j :: 0 <= i < j < |keys[1..]| ==> keys[1..][i] != keys[1..][j];
      assert t !in keys[1..];
      GroupsPartitionRows(rest, keys[1..]);
      GroupedRowsWithout(rows, keys[1..], t);
      SplitByTable(rows, t);
    }
  }

  /** The groups of the context's lines, taken together, are the catalog rows. */
  lemma ContextCoversEveryRow(rows: seq<MetaRow>)
    ensures multiset(GroupedRows(rows, GroupKeys(rows))) == multiset(rows)
  {
    GroupsPartitionRows(rows, GroupKeys(rows));
  }
}
