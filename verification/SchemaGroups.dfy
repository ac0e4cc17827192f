/** Grouping the rows of the column catalog into tables (`get_schema_info`). */
module SchemaGroups {
  import opened Common

  datatype Row = Row(table: string, column: string, dataType: string, description: Option<string>)

  datatype Column = Column(name: string, dataType: string)

  datatype TableInfo = TableInfo(name: string, columns: seq<Column>, description: string)

  /** A table grown by `row`. */
  function Open(row: Row): TableInfo {
    TableInfo(row.table, [Column(row.column, row.dataType)],
              if row.description.Some? then row.description.value else "")
  }

  function Extend(table: TableInfo, row: Row): TableInfo {
    table.(columns := table.columns + [Column(row.column, row.dataType)])
  }

  /** The first `n` rows cut wherever the table name changes. */
  function Grouped(rows: seq<Row>, n: nat): seq<TableInfo>
    requires n <= |rows|
  {
    if n == 0 then []
    else
      var schema, row := Grouped(rows, n - 1), rows[n - 1];
      if schema != [] && schema[|schema| - 1].name == row.table
      then schema[|schema| - 1 := Extend(schema[|schema| - 1], row)]
      else schema + [Open(row)]
  }

  /** `current_table` starts as the empty string, so a first table of that name would be read
      through a null pointer. */
  method GroupRows(rows: seq<Row>) returns (schema: seq<TableInfo>)
    requires rows != [] ==> rows[0].table != ""
    ensures schema == Grouped(rows, |rows|)
  {
    schema := [];
    var currentTable := "";
    var current: Option<TableInfo> := None;
    for i := 0 to |rows|
      invariant current.None? <==> i == 0
      invariant current.None? ==> currentTable == "" && schema == []
      invariant current.Some? ==> current.value.name == currentTable
      invariant current.Some? ==> Grouped(rows, i) == schema + [current.value]
    {
      var row := rows[i];
      if currentTable != row.table {
        if current.Some? {
          schema := schema + [current.value];
        }
        currentTable := row.table;
        current := Some(TableInfo(row.table, [], if row.description.Some? then row.description.value else ""));
      }
      assert [] + [Column(row.column, row.dataType)] == [Column(row.column, row.dataType)];
      ghost var all := schema + [current.value];
      current := Some(Extend(current.value, row));
      assert all[|all| - 1 := current.value] == schema + [current.value];
    }
    if current.Some? {
      schema := schema + [current.value];
    }
  }

  // ---------- What the grouping means ----------

  datatype Cell = Cell(table: string, column: Column)

  function Cells(table: string, columns: seq<Column>): seq<Cell> {
    seq(|columns|, i requires 0 <= i < |columns| => Cell(table, columns[i]))
  }

  function Flatten(schema: seq<TableInfo>): seq<Cell> {
    if schema == [] then []
    else
      var last := schema[|schema| - 1];
      Flatten(schema[..|schema| - 1]) + Cells(last.name, last.columns)
  }

  function CellOf(row: Row): Cell {
    Cell(row.table, Column(row.column, row.dataType))
  }

  function Project(rows: seq<Row>, n: nat): seq<Cell>
    requires n <= |rows|
  {
    seq(n, i requires 0 <= i < n => CellOf(rows[i]))
  }

  /** No table is empty and neighbours have different names. */
  predicate Maximal(schema: seq<TableInfo>) {
    && (forall i :: 0 <= i < |schema| ==> schema[i].columns != [])
    && (forall i :: 0 < i < |schema| ==> schema[i - 1].name != schema[i].name)
  }

  predicate Continues(schema: seq<TableInfo>, row: Row) {
    schema != [] && schema[|schema| - 1].name == row.table
  }

  lemma ExtendedGroup(schema: seq<TableInfo>, row: Row)
    requires Continues(schema, row)
    ensures var after := schema[|schema| - 1 := Extend(schema[|schema| - 1], row)];
            && Flatten(after) == Flatten(schema) + [CellOf(row)]
            && (Maximal(schema) ==> Maximal(after))
  {
    var last := schema[|schema| - 1];
    var after := schema[|schema| - 1 := Extend(last, row)];
    assert after[..|after| - 1] == schema[..|schema| - 1];
    assert Cells(last.name, Extend(last, row).columns) == Cells(last.name, last.columns) + [CellOf(row)];
    assert forall i :: 0 <= i < |after| ==> after[i].name == schema[i].name;
  }

  lemma OpenedGroup(schema: seq<TableInfo>, row: Row)
    requires !Continues(schema, row)
    ensures var after := schema + [Open(row)];
            && Flatten(after) == Flatten(schema) + [CellOf(row)]
            && (Maximal(schema) ==> Maximal(after))
  {
    assert (schema + [Open(row)])[..|schema|] == schema;
    assert Cells(row.table, Open(row).columns) == [CellOf(row)];
  }

  lemma ProjectPush(rows: seq<Row>, n: nat)
    requires 0 < n <= |rows|
    ensures Project(rows, n) == Project(rows, n - 1) + [CellOf(rows[n - 1])]
  {
  }

  /** Flattening the groups gives back every row, in order, and the groups are maximal. */
  lemma {:induction false} GroupingConserves(rows: seq<Row>, n: nat)
    requires n <= |rows|
    ensures Flatten(Grouped(rows, n)) == Project(rows, n) && Maximal(Grouped(rows, n))
    ensures n > 0 ==> Continues(Grouped(rows, n), rows[n - 1])
  {
    if n > 0 {
      GroupingConserves(rows, n - 1);
      ProjectPush(rows, n);
      var before, row := Grouped(rows, n - 1), rows[n - 1];
      if Continues(before, row) {
        ExtendedGroup(before, row);
      } else {
        OpenedGroup(before, row);
      }
    }
  }

  predicate OpenedBy(table: TableInfo, row: Row) {
    && table.name == row.table
    && (row.description.Some? ==> table.description == row.description.value)
    && (row.description.None? ==> table.description == "")
    && table.columns != [] && table.columns[0] == Column(row.column, row.dataType)
  }

  /** Some row at which the table name changes gives the table's name, description and first
      column. */
  predicate HasOpener(rows: seq<Row>, n: nat, table: TableInfo)
    requires n <= |rows|
  {
    exists r :: 0 <= r < n && OpenedBy(table, rows[r]) && (r > 0 ==> rows[r - 1].table != rows[r].table)
  }

  lemma {:induction false} DescribedByFirstRow(rows: seq<Row>, n: nat)
    requires n <= |rows|
    ensures forall i :: 0 <= i < |Grouped(rows, n)| ==> HasOpener(rows, n, Grouped(rows, n)[i])
  {
    if n > 0 {
      DescribedByFirstRow(rows, n - 1);
      GroupingConserves(rows, n - 1);
      var before, after := Grouped(rows, n - 1), Grouped(rows, n);
      forall i | 0 <= i < |after|
        ensures HasOpener(rows, n, after[i])
      {
        if i < |before| {
          assert HasOpener(rows, n - 1, before[i]);
          var r :| 0 <= r < n - 1 && OpenedBy(before[i], rows[r]) && (r > 0 ==> rows[r - 1].table != rows[r].table);
          assert OpenedBy(after[i], rows[r]);
        } else {
          assert OpenedBy(after[i], rows[n - 1]);
        }
      }
    }
  }

  /** Among the first `n` rows, those of one table stand together. */
  predicate Contiguous(rows: seq<Row>, n: nat)
    requires n <= |rows|
  {
    forall i, j, k :: 0 <= i < j < k < n && rows[i].table == rows[k].table ==> rows[j].table == rows[i].table
  }

  predicate DistinctNames(schema: seq<TableInfo>) {
    forall i, j :: 0 <= i < j < |schema| ==> schema[i].name != schema[j].name
  }

  function ColumnsOf(rows: seq<Row>, n: nat, table: string): seq<Column>
    requires n <= |rows|
  {
    if n == 0 then []
    else
      var row := rows[n - 1];
      ColumnsOf(rows, n - 1, table) + (if row.table == table then [Column(row.column, row.dataType)] else [])
  }

  predicate Named(schema: seq<TableInfo>, table: string) {
    exists i :: 0 <= i < |schema| && schema[i].name == table
  }

  predicate Mentioned(rows: seq<Row>, n: nat, table: string)
    requires n <= |rows|
  {
    exists i :: 0 <= i < n && rows[i].table == table
  }

  lemma NamedAfter(schema: seq<TableInfo>, row: Row, table: string)
    ensures Named(schema + [Open(row)], table) <==> Named(schema, table) || row.table == table
    ensures schema != [] ==>
              (Named(schema[|schema| - 1 := Extend(schema[|schema| - 1], row)], table) <==> Named(schema, table))
  {
    var grown := schema + [Open(row)];
    assert forall i :: 0 <= i < |schema| ==> grown[i] == schema[i];
    assert grown[|schema|].name == row.table;
    if schema != [] {
      var extended := schema[|schema| - 1 := Extend(schema[|schema| - 1], row)];
      assert forall i :: 0 <= i < |schema| ==> extended[i].name == schema[i].name;
    }
  }

  lemma {:induction false} GroupNames(rows: seq<Row>, n: nat, table: string)
    requires n <= |rows|
    ensures Named(Grouped(rows, n), table) <==> Mentioned(rows, n, table)
    ensures !Mentioned(rows, n, table) ==> ColumnsOf(rows, n, table) == []
  {
    if n > 0 {
      GroupNames(rows, n - 1, table);
      NamedAfter(Grouped(rows, n - 1), rows[n - 1], table);
      assert Mentioned(rows, n, table) <==> Mentioned(rows, n - 1, table) || rows[n - 1].table == table;
    }
  }

  lemma ContiguousPush(rows: seq<Row>, n: nat)
    requires 0 < n < |rows|
    ensures Contiguous(rows, n + 1)
       <==> Contiguous(rows, n) && (rows[n - 1].table == rows[n].table || !Mentioned(rows, n, rows[n].table))
  {
    if Contiguous(rows, n + 1) && Mentioned(rows, n, rows[n].table) {
      var i :| 0 <= i < n && rows[i].table == rows[n].table;
      assert i < n - 1 ==> rows[n - 1].table == rows[i].table;
    }
    if Contiguous(rows, n) && rows[n - 1].table == rows[n].table {
      forall i, j | 0 <= i < j < n && rows[i].table == rows[n].table
        ensures rows[j].table == rows[i].table
      {
        assert rows[i].table == rows[n - 1].table;
      }
    }
  }

  ghost predicate Complete(rows: seq<Row>, n: nat)
    requires n <= |rows|
  {
    var schema := Grouped(rows, n);
    forall i :: 0 <= i < |schema| ==> schema[i].columns == ColumnsOf(rows, n, schema[i].name)
  }

  /** Every table appears once exactly when its rows stand together, and then it carries all of
      its columns in order. */
  lemma {:induction false} EachTableOnceIff(rows: seq<Row>, n: nat)
    requires n <= |rows|
    ensures DistinctNames(Grouped(rows, n)) <==> Contiguous(rows, n)
    ensures Contiguous(rows, n) ==> Complete(rows, n)
  {
    if n == 1 {
      assert Grouped(rows, 0) == [] && Grouped(rows, 1) == [Open(rows[0])];
      assert ColumnsOf(rows, 0, rows[0].table) == [];
    } else if n > 1 {
      EachTableOnceIff(rows, n - 1);
      GroupingConserves(rows, n - 1);
      ContiguousPush(rows, n - 1);
      GroupNames(rows, n - 1, rows[n - 1].table);
      if rows[n - 2].table == rows[n - 1].table {
        ExtendStep(rows, n);
      } else {
        OpenStep(rows, n);
      }
    }
  }

  lemma ExtendStep(rows: seq<Row>, n: nat)
    requires 1 < n <= |rows| && rows[n - 2].table == rows[n - 1].table
    requires Continues(Grouped(rows, n - 1), rows[n - 1])
    ensures DistinctNames(Grouped(rows, n)) <==> DistinctNames(Grouped(rows, n - 1))
    ensures DistinctNames(Grouped(rows, n - 1)) && Complete(rows, n - 1) ==> Complete(rows, n)
  {
    var before, after := Grouped(rows, n - 1), Grouped(rows, n);
    assert |after| == |before|;
    assert forall i :: 0 <= i < |before| ==> after[i].name == before[i].name;
  }

  lemma OpenStep(rows: seq<Row>, n: nat)
    requires 1 < n <= |rows| && rows[n - 2].table != rows[n - 1].table
    requires Continues(Grouped(rows, n - 1), rows[n - 2])
    requires !Named(Grouped(rows, n - 1), rows[n - 1].table) ==> ColumnsOf(rows, n - 1, rows[n - 1].table) == []
    ensures DistinctNames(Grouped(rows, n))
       <==> DistinctNames(Grouped(rows, n - 1)) && !Named(Grouped(rows, n - 1), rows[n - 1].table)
    ensures DistinctNames(Grouped(rows, n)) && Complete(rows, n - 1) ==> Complete(rows, n)
  {
    var before, after := Grouped(rows, n - 1), Grouped(rows, n);
    assert after == before + [Open(rows[n - 1])];
    assert forall i :: 0 <= i < |before| ==> after[i] == before[i];
    assert after[|before|].name == rows[n - 1].table;
  }

  /** The query's `ORDER BY table_name` makes rows of one table stand together, for any order
      in which two names below each other are equal. */
  lemma {:induction false} SortedRowsGroupOnce(rows: seq<Row>, lessEqual: (string, string) -> bool)
    requires forall a, b :: lessEqual(a, b) && lessEqual(b, a) ==> a == b
    requires forall i, j :: 0 <= i < j < |rows| ==> lessEqual(rows[i].table, rows[j].table)
    ensures DistinctNames(Grouped(rows, |rows|)) && Complete(rows, |rows|)
  {
    EachTableOnceIff(rows, |rows|);
  }
}
