/**
 * The table helpers of the data-extraction script: a table is a list of
 * rows, a row a list of cells read from CSV (a number where the text
 * parses as one, the text otherwise). Column indices follow Python: a
 * negative index counts from the end, and one outside the row raises
 * IndexError, which every operation here reports as `None`.
 */
module DataExtract {
  import opened JavaTypes

  /** A CSV cell after `tryFloat`. */
  datatype Cell = Number(x: real) | Text(s: string)

  type Row = seq<Cell>
  type Table = seq<Row>

  /** `row[i]` does not raise IndexError. */
  predicate ValidIndex(row: Row, i: int)
  {
    -|row| <= i < |row|
  }

  /** `row[i]` for a valid index. */
  function At(row: Row, i: int): Cell
    requires ValidIndex(row, i)
  {
    if i < 0 then row[|row| + i] else row[i]
  }

  /** `row[i]`, or `None` for IndexError. */
  function Index(row: Row, i: int): Option<Cell>
  {
    if ValidIndex(row, i) then Some(At(row, i)) else None
  }

  /** Every one of `columns` indexes `row`. */
  predicate AllValid(row: Row, columns: seq<int>)
  {
    forall j | 0 <= j < |columns| :: ValidIndex(row, columns[j])
  }

  /** The cells of `row` at `columns`, in the order of `columns`. */
  function PickAll(row: Row, columns: seq<int>): (r: Row)
    requires AllValid(row, columns)
    ensures |r| == |columns|
  {
    seq(|columns|, j requires 0 <= j < |columns| => At(row, columns[j]))
  }

  /** Every row of `table` has all of `columns`. */
  predicate Projectable(table: Table, columns: seq<int>)
  {
    forall i | 0 <= i < |table| :: AllValid(table[i], columns)
  }

  /**
   * The loop the helpers share: one `append(row[column])` per column, in
   * order, the first bad index raising IndexError.
   */
  method PickColumns(row: Row, columns: seq<int>) returns (r: Option<Row>)
    ensures r.Some? <==> AllValid(row, columns)
    ensures r.Some? ==> r.value == PickAll(row, columns)
  {
    var picked: Row := [];
    for j := 0 to |columns|
      invariant AllValid(row, columns[..j]) && picked == PickAll(row, columns[..j])
    {
      var c := Index(row, columns[j]);
      if c.None? {
        assert !ValidIndex(row, columns[j]);
        return None;
      }
      picked := picked + [c.value];
    }
    assert columns[..|columns|] == columns;
    return Some(picked);
  }

  // ---------------------------------------------------------------- project

  /** The projection of every row onto `columns`. */
  function Projected(table: Table, columns: seq<int>): (r: Table)
    requires Projectable(table, columns)
    ensures |r| == |table|
  {
    seq(|table|, i requires 0 <= i < |table| => PickAll(table[i], columns))
  }

  /** `project(table, columns)`: one row per input row, holding the given columns in the given order. */
  method Project(table: Table, columns: seq<int>) returns (out: Option<Table>)
    ensures out.Some? <==> Projectable(table, columns)
    ensures out.Some? ==> out.value == Projected(table, columns)
  {
    var rows: Table := [];
    for i := 0 to |table|
      invariant Projectable(table[..i], columns) && rows == Projected(table[..i], columns)
    {
      var r := PickColumns(table[i], columns);
      if r.None? {
        return None;
      }
      rows := rows + [r.value];
    }
    assert table[..|table|] == table;
    return Some(rows);
  }

  /** Every cell of a projection is the cell of its row at the chosen column. */
  lemma ProjectedCells(table: Table, columns: seq<int>, i: int, j: int)
    requires Projectable(table, columns) && 0 <= i < |table| && 0 <= j < |columns|
    ensures |Projected(table, columns)[i]| == |columns|
    ensures Projected(table, columns)[i][j] == At(table[i], columns[j])
  {
  }

  // ------------------------------------------------------------- expandRows

  /** The rows one input row expands to: its key cells followed by one value cell, per value column. */
  function ExpandRow(row: Row, keyColumns: seq<int>, valueColumns: seq<int>): (r: Table)
    requires AllValid(row, keyColumns) && AllValid(row, valueColumns)
    ensures |r| == |valueColumns|
  {
    seq(|valueColumns|, j requires 0 <= j < |valueColumns| => PickAll(row, keyColumns) + [At(row, valueColumns[j])])
  }

  /** The expansion of every row, rows in input order. */
  function Expanded(table: Table, keyColumns: seq<int>, valueColumns: seq<int>): Table
    requires Projectable(table, keyColumns) && Projectable(table, valueColumns)
  {
    if table == [] then []
    else
      Expanded(table[..|table| - 1], keyColumns, valueColumns)
        + ExpandRow(table[|table| - 1], keyColumns, valueColumns)
  }

  /**
   * `expandRows(table, key_columns, value_columns)`: for each row, a
   * template of its key cells, then one copy of it per value column with
   * that column's cell appended.
   */
  method ExpandRows(table: Table, keyColumns: seq<int>, valueColumns: seq<int>) returns (out: Option<Table>)
    ensures out.Some? <==> Projectable(table, keyColumns) && Projectable(table, valueColumns)
    ensures out.Some? ==> out.value == Expanded(table, keyColumns, valueColumns)
  {
    var rows: Table := [];
    for i := 0 to |table|
      invariant Projectable(table[..i], keyColumns) && Projectable(table[..i], valueColumns)
      invariant rows == Expanded(table[..i], keyColumns, valueColumns)
    {
      var row := table[i];
      assert table[..i + 1][..i] == table[..i];
      var template := PickColumns(row, keyColumns);
      if template.None? {
        return None;
      }
      for j := 0 to |valueColumns|
        invariant AllValid(row, valueColumns[..j])
        invariant rows == Expanded(table[..i], keyColumns, valueColumns) + ExpandRow(row, keyColumns, valueColumns[..j])
      {
        var c := Index(row, valueColumns[j]);
        if c.None? {
          assert !ValidIndex(table[i], valueColumns[j]);
          return None;
        }
        assert ExpandRow(row, keyColumns, valueColumns[..j + 1])
            == ExpandRow(row, keyColumns, valueColumns[..j]) + [template.value + [c.value]];
        Regroup(Expanded(table[..i], keyColumns, valueColumns), ExpandRow(row, keyColumns, valueColumns[..j]), [template.value + [c.value]]);
        rows := rows + [template.value + [c.value]];
      }
      assert valueColumns[..|valueColumns|] == valueColumns;
    }
    assert table[..|table|] == table;
    return Some(rows);
  }

  lemma MulMono(a: nat, b: nat, c: nat)
    requires a <= b
    ensures a * c <= b * c
  {
  }

  /** An expansion has one row per input row and value column. */
  lemma {:induction false} ExpandedLength(table: Table, keyColumns: seq<int>, valueColumns: seq<int>)
    requires Projectable(table, keyColumns) && Projectable(table, valueColumns)
    ensures |Expanded(table, keyColumns, valueColumns)| == |table| * |valueColumns|
  {
    if table != [] {
      var n := |table| - 1;
      ExpandedLength(table[..n], keyColumns, valueColumns);
      assert (n + 1) * |valueColumns| == n * |valueColumns| + |valueColumns|;
    }
  }

  /**
   * The shape of an expansion: row `i * len(value_columns) + j` of the
   * `len(table) * len(value_columns)` rows is row `i`'s key cells followed
   * by its cell in value column `j`.
   */
  lemma {:induction false} ExpandedAt(table: Table, keyColumns: seq<int>, valueColumns: seq<int>, i: nat, j: nat)
    requires Projectable(table, keyColumns) && Projectable(table, valueColumns)
    requires i < |table| && j < |valueColumns|
    ensures |Expanded(table, keyColumns, valueColumns)| == |table| * |valueColumns|
    ensures i * |valueColumns| + j < |table| * |valueColumns|
    ensures Expanded(table, keyColumns, valueColumns)[i * |valueColumns| + j]
              == PickAll(table[i], keyColumns) + [At(table[i], valueColumns[j])]
  {
    var n := |table| - 1;
    var v := |valueColumns|;
    var prefix := table[..n];
    ExpandedLength(table, keyColumns, valueColumns);
    ExpandedLength(prefix, keyColumns, valueColumns);
    MulMono(i + 1, n + 1, v);
    assert (i + 1) * v == i * v + v;
    if i < n {
      ExpandedAt(prefix, keyColumns, valueColumns, i, j);
      MulMono(i + 1, n, v);
      assert (i + 1) * v == i * v + v;
      assert prefix[i] == table[i];
    }
  }

  /** With a single value column, expanding is projecting onto the key columns followed by that column. */
  lemma {:induction false} ExpandOneIsProject(table: Table, keyColumns: seq<int>, valueColumn: int)
    requires Projectable(table, keyColumns) && Projectable(table, [valueColumn])
    ensures Projectable(table, keyColumns + [valueColumn])
    ensures Expanded(table, keyColumns, [valueColumn]) == Projected(table, keyColumns + [valueColumn])
  {
    var columns := keyColumns + [valueColumn];
    forall i | 0 <= i < |table|
      ensures AllValid(table[i], columns)
    {
      assert ValidIndex(table[i], [valueColumn][0]);
    }
    if table != [] {
      var n := |table| - 1;
      ExpandOneIsProject(table[..n], keyColumns, valueColumn);
      assert ValidIndex(table[n], [valueColumn][0]);
      assert PickAll(table[n], keyColumns) + [At(table[n], valueColumn)] == PickAll(table[n], columns);
      assert ExpandRow(table[n], keyColumns, [valueColumn]) == [PickAll(table[n], columns)];
      assert Projected(table, columns) == Projected(table[..n], columns) + [PickAll(table[n], columns)];
    }
  }

  // ----------------------------------------------------------- insertColumn

  /** Where Python's `list.insert(index, value)` puts the value in a list of length `length`. */
  function InsertPosition(length: nat, index: int): (p: nat)
    ensures p <= length
  {
    if index < 0 then (if index + length < 0 then 0 else index + length)
    else if index > length then length
    else index
  }

  /** `r = list(row); r.insert(index, value)`. */
  function InsertAt(row: Row, index: int, value: Cell): Row
  {
    var p := InsertPosition(|row|, index);
    row[..p] + [value] + row[p..]
  }

  /** An index that names a position of the row, negative or not, is where the value lands, so that `r[index] == value` afterwards. */
  lemma InsertPositionIndexes(length: nat, index: int)
    requires 0 <= index + length && index <= length
    ensures InsertPosition(length, index) == (if index < 0 then index + length else index)
  {
  }

  /** The inserted row is one longer, holds the value at the insert position, and gives the row back without it. */
  lemma InsertAtInverse(row: Row, index: int, value: Cell)
    ensures var p := InsertPosition(|row|, index);
      var r := InsertAt(row, index, value);
      |r| == |row| + 1 && r[p] == value && r[..p] + r[p + 1..] == row
  {
    var p := InsertPosition(|row|, index);
    var r := InsertAt(row, index, value);
    assert r[..p] == row[..p];
    assert r[p + 1..] == row[p..];
  }

  /** `insertColumn(table, index, value)`: a new table of copies of the rows, each with the value inserted. */
  method InsertColumn(table: Table, index: int, value: Cell) returns (out: Table)
    ensures |out| == |table|
    ensures forall i | 0 <= i < |table| :: out[i] == InsertAt(table[i], index, value)
  {
    out := [];
    for i := 0 to |table|
      invariant |out| == i
      invariant forall k | 0 <= k < i :: out[k] == InsertAt(table[k], index, value)
    {
      var r := table[i];
      var p := InsertPosition(|r|, index);
      r := r[..p] + [value] + r[p..];
      out := out + [r];
    }
  }

  // ----------------------------------------------------------------- select

  /**
   * The `for column, value in equalityConditions` loop on one row: IndexError
   * at a bad column, `false` at the first cell that differs (later
   * conditions are not looked at), `true` when all are equal.
   */
  function Matches(row: Row, conditions: seq<(int, Cell)>): Option<bool>
  {
    if conditions == [] then Some(true)
    else
      match Index(row, conditions[0].0)
      case None => None
      case Some(x) => if x != conditions[0].1 then Some(false) else Matches(row, conditions[1..])
  }

  /** Every condition's column holds its value. */
  predicate Satisfies(row: Row, conditions: seq<(int, Cell)>)
  {
    forall k | 0 <= k < |conditions| :: Index(row, conditions[k].0) == Some(conditions[k].1)
  }

  /** The early-exit loop accepts a row exactly when the row satisfies every condition. */
  lemma {:induction false} MatchesMeansSatisfies(row: Row, conditions: seq<(int, Cell)>)
    ensures Matches(row, conditions) == Some(true) <==> Satisfies(row, conditions)
  {
    if conditions != [] {
      MatchesMeansSatisfies(row, conditions[1..]);
      if Satisfies(row, conditions) {
        assert Index(row, conditions[0].0) == Some(conditions[0].1);
        assert Satisfies(row, conditions[1..]) by {
          forall k | 0 <= k < |conditions[1..]|
            ensures Index(row, conditions[1..][k].0) == Some(conditions[1..][k].1)
          {
            assert conditions[1..][k] == conditions[k + 1];
          }
        }
      }
      if Matches(row, conditions) == Some(true) {
        forall k | 0 <= k < |conditions|
          ensures Index(row, conditions[k].0) == Some(conditions[k].1)
        {
          if k > 0 {
            assert conditions[k] == conditions[1..][k - 1];
          }
        }
      }
    }
  }

  /** The rows `select` keeps, or `None` when some row raises IndexError. */
  function Selected(table: Table, conditions: seq<(int, Cell)>): Option<Table>
  {
    if table == [] then Some([])
    else
      match Selected(table[..|table| - 1], conditions)
      case None => None
      case Some(kept) =>
        match Matches(table[|table| - 1], conditions)
        case None => None
        case Some(m) => Some(if m then kept + [table[|table| - 1]] else kept)
  }

  /** Once a prefix of the table raises, the whole table does. */
  lemma {:induction false} SelectedRaises(table: Table, conditions: seq<(int, Cell)>, i: nat)
    requires i <= |table| && Selected(table[..i], conditions) == None
    ensures Selected(table, conditions) == None
  {
    if i < |table| {
      var n := |table| - 1;
      assert table[..n][..i] == table[..i];
      SelectedRaises(table[..n], conditions, i);
    } else {
      assert table[..i] == table;
    }
  }

  /** `select(table, equalityConditions)`: the rows for which the condition loop ends without a mismatch, in order. */
  method Select(table: Table, conditions: seq<(int, Cell)>) returns (out: Option<Table>)
    ensures out == Selected(table, conditions)
  {
    var kept: Table := [];
    for i := 0 to |table|
      invariant Selected(table[..i], conditions) == Some(kept)
    {
      var row := table[i];
      assert table[..i + 1][..i] == table[..i];
      var match_ := true;
      var k := 0;
      while k < |conditions|
        invariant 0 <= k <= |conditions|
        invariant match_ ==> Matches(row, conditions) == Matches(row, conditions[k..])
        invariant !match_ ==> Matches(row, conditions) == Some(false)
        decreases |conditions| - k, match_
      {
        var c := Index(row, conditions[k].0);
        if c.None? {
          assert conditions[k..][1..] == conditions[k + 1..];
          assert Selected(table[..i + 1], conditions) == None;
          SelectedRaises(table, conditions, i + 1);
          return None;
        }
        assert conditions[k..][1..] == conditions[k + 1..];
        if c.value != conditions[k].1 {
          match_ := false;
          break;
        }
        k := k + 1;
      }
      if match_ {
        kept := kept + [row];
      }
    }
    assert table[..|table|] == table;
    return Some(kept);
  }

  /** The rows of `table` that satisfy every condition, in order. */
  function Filter(table: Table, conditions: seq<(int, Cell)>): Table
  {
    if table == [] then []
    else if Satisfies(table[|table| - 1], conditions) then Filter(table[..|table| - 1], conditions) + [table[|table| - 1]]
    else Filter(table[..|table| - 1], conditions)
  }

  /** When no row raises, `select` keeps exactly the rows that satisfy all the conditions, in order. */
  lemma {:induction false} SelectedIsFilter(table: Table, conditions: seq<(int, Cell)>)
    requires Selected(table, conditions).Some?
    ensures Selected(table, conditions) == Some(Filter(table, conditions))
  {
    if table != [] {
      var n := |table| - 1;
      var prefix := table[..n];
      assert Selected(prefix, conditions).Some?;
      SelectedIsFilter(prefix, conditions);
      MatchesMeansSatisfies(table[n], conditions);
      assert Matches(table[n], conditions).Some?;
    }
  }

  /** A row is in the filter exactly when it is in the table and satisfies every condition. */
  lemma {:induction false} FilterMembers(table: Table, conditions: seq<(int, Cell)>, row: Row)
    ensures row in Filter(table, conditions) <==> row in table && Satisfies(row, conditions)
  {
    if table != [] {
      var n := |table| - 1;
      FilterMembers(table[..n], conditions, row);
      assert table == table[..n] + [table[n]];
    }
  }

  // ---------------------------------------------------------------- groupBy

  /** The groups `groupBy` builds: each row appended to the list of its key, rows taken in order. */
  function Grouped(table: Table, columns: seq<int>): map<Row, Table>
    requires Projectable(table, columns)
  {
    if table == [] then map[]
    else
      var groups := Grouped(table[..|table| - 1], columns);
      var row := table[|table| - 1];
      var key := PickAll(row, columns);
      groups[key := (if key in groups then groups[key] else []) + [row]]
  }

  /** The rows of `table` whose key is `key`, in order. */
  function RowsWithKey(table: Table, columns: seq<int>, key: Row): Table
    requires Projectable(table, columns)
  {
    if table == [] then []
    else RowsWithKey(table[..|table| - 1], columns, key)
           + (if PickAll(table[|table| - 1], columns) == key then [table[|table| - 1]] else [])
  }

  /** `groupBy(table, group_columns)`: a dictionary from key tuple to the rows with that key. */
  method GroupBy(table: Table, columns: seq<int>) returns (out: Option<map<Row, Table>>)
    ensures out.Some? <==> Projectable(table, columns)
    ensures out.Some? ==> out.value == Grouped(table, columns)
  {
    var groups: map<Row, Table> := map[];
    for i := 0 to |table|
      invariant Projectable(table[..i], columns) && groups == Grouped(table[..i], columns)
    {
      var row := table[i];
      assert table[..i + 1][..i] == table[..i];
      var key := PickColumns(row, columns);
      if key.None? {
        return None;
      }
      if key.value !in groups {
        groups := groups[key.value := []];
      }
      groups := groups[key.value := groups[key.value] + [row]];
    }
    assert table[..|table|] == table;
    return Some(groups);
  }

  /**
   * Every key of the groups is the key of some row and every row's key is
   * a key, and each group is exactly the rows with its key, in table
   * order: every row is in exactly one group.
   */
  lemma GroupedSpec(table: Table, columns: seq<int>)
    requires Projectable(table, columns)
    ensures forall key :: key in Grouped(table, columns) <==> exists i | 0 <= i < |table| :: PickAll(table[i], columns) == key
    ensures forall key | key in Grouped(table, columns) :: Grouped(table, columns)[key] == RowsWithKey(table, columns, key)
  {
    GroupedKeys(table, columns);
    GroupedRows(table, columns);
  }

  /** The group keys are exactly the keys of the rows. */
  lemma {:induction false} GroupedKeys(table: Table, columns: seq<int>)
    requires Projectable(table, columns)
    ensures forall key :: key in Grouped(table, columns) <==> exists i | 0 <= i < |table| :: PickAll(table[i], columns) == key
  {
    if table != [] {
      var n := |table| - 1;
      var prefix := table[..n];
      GroupedKeys(prefix, columns);
      forall key
        ensures key in Grouped(table, columns) <==> exists i | 0 <= i < |table| :: PickAll(table[i], columns) == key
      {
        if key in Grouped(prefix, columns) {
          var i :| 0 <= i < |prefix| && PickAll(prefix[i], columns) == key;
          assert PickAll(table[i], columns) == key;
        }
        if exists i | 0 <= i < |table| :: PickAll(table[i], columns) == key {
          var i :| 0 <= i < |table| && PickAll(table[i], columns) == key;
          if i < n {
            assert PickAll(prefix[i], columns) == key;
          }
        }
      }
    }
  }

  /** Each group holds the rows with its key, in table order. */
  lemma {:induction false} GroupedRows(table: Table, columns: seq<int>)
    requires Projectable(table, columns)
    ensures forall key | key in Grouped(table, columns) :: Grouped(table, columns)[key] == RowsWithKey(table, columns, key)
  {
    if table != [] {
      var n := |table| - 1;
      var prefix := table[..n];
      GroupedRows(prefix, columns);
      GroupedKeys(prefix, columns);
      var last := PickAll(table[n], columns);
      forall key | key in Grouped(table, columns)
        ensures Grouped(table, columns)[key] == RowsWithKey(table, columns, key)
      {
        if key != last && key !in Grouped(prefix, columns) {
          assert false;
        }
        if key !in Grouped(prefix, columns) {
          RowsWithKeyAbsent(prefix, columns, key);
        }
      }
    }
  }

  /** No row of the table has a key that is not among the group keys. */
  lemma {:induction false} RowsWithKeyAbsent(table: Table, columns: seq<int>, key: Row)
    requires Projectable(table, columns)
    requires forall i | 0 <= i < |table| :: PickAll(table[i], columns) != key
    ensures RowsWithKey(table, columns, key) == []
  {
    if table != [] {
      RowsWithKeyAbsent(table[..|table| - 1], columns, key);
    }
  }

  // ----------------------------------------------------------------- unique

  /**
   * Python 2's ordering of cells: every number before every string,
   * numbers by value, strings character by character.
   */
  predicate CellLess(a: Cell, b: Cell)
  {
    match (a, b)
    case (Number(x), Number(y)) => x < y
    case (Number(_), Text(_)) => true
    case (Text(_), Number(_)) => false
    case (Text(s), Text(t)) => TextLess(s, t)
  }

  /** Lexicographic order on strings; a proper prefix comes first. */
  predicate TextLess(s: string, t: string)
  {
    if t == [] then false
    else if s == [] then true
    else s[0] < t[0] || (s[0] == t[0] && TextLess(s[1..], t[1..]))
  }

  lemma {:induction false} TextLessTransitive(s: string, t: string, u: string)
    requires TextLess(s, t) && TextLess(t, u)
    ensures TextLess(s, u)
  {
    if s != [] && s[0] == t[0] && t[0] == u[0] {
      TextLessTransitive(s[1..], t[1..], u[1..]);
    }
  }

  lemma {:induction false} TextLessTotal(s: string, t: string)
    ensures s == t || TextLess(s, t) || TextLess(t, s)
    ensures !(TextLess(s, t) && TextLess(t, s))
  {
    if s != [] && t != [] && s[0] == t[0] {
      TextLessTotal(s[1..], t[1..]);
      if s[1..] == t[1..] {
        assert s == [s[0]] + s[1..] && t == [t[0]] + t[1..];
      }
    }
  }

  /** The cell order is a strict total order. */
  lemma CellLessOrder(a: Cell, b: Cell, c: Cell)
    ensures !CellLess(a, a)
    ensures a == b || CellLess(a, b) || CellLess(b, a)
    ensures CellLess(a, b) ==> !CellLess(b, a)
    ensures CellLess(a, b) && CellLess(b, c) ==> CellLess(a, c)
  {
    if a.Text? && b.Text? {
      TextLessTotal(a.s, b.s);
      TextLessTotal(a.s, a.s);
      if c.Text? && CellLess(a, b) && CellLess(b, c) {
        TextLessTransitive(a.s, b.s, c.s);
      }
    } else if a.Text? {
      TextLessTotal(a.s, a.s);
    }
  }

  /** Keys in ascending order, no two equal: each a one-cell tuple. */
  predicate SortedKeys(keys: seq<Row>)
  {
    && (forall i | 0 <= i < |keys| :: |keys[i]| == 1)
    && (forall i, j | 0 <= i < j < |keys| :: CellLess(keys[i][0], keys[j][0]))
  }

  /** `keys.sort()` one key at a time: `key` placed before the first larger key. */
  function InsertKey(keys: seq<Row>, key: Row): (r: seq<Row>)
    requires |key| == 1 && forall i | 0 <= i < |keys| :: |keys[i]| == 1
    ensures |r| == |keys| + 1 && forall i | 0 <= i < |r| :: |r[i]| == 1
  {
    if keys == [] then [key]
    else if CellLess(keys[0][0], key[0]) then [keys[0]] + InsertKey(keys[1..], key)
    else [key] + keys
  }

  /** Inserting a key adds exactly that key. */
  lemma {:induction false} InsertKeyElements(keys: seq<Row>, key: Row)
    requires |key| == 1 && forall i | 0 <= i < |keys| :: |keys[i]| == 1
    ensures forall k :: k in InsertKey(keys, key) <==> k in keys || k == key
  {
    if keys != [] && CellLess(keys[0][0], key[0]) {
      InsertKeyElements(keys[1..], key);
      assert keys == [keys[0]] + keys[1..];
    }
  }

  /** Inserting a key above a bound into keys above the bound keeps every key above it. */
  lemma {:induction false} InsertKeyAbove(keys: seq<Row>, key: Row, bound: Cell)
    requires |key| == 1 && forall i | 0 <= i < |keys| :: |keys[i]| == 1
    requires CellLess(bound, key[0]) && forall i | 0 <= i < |keys| :: CellLess(bound, keys[i][0])
    ensures forall i | 0 <= i < |InsertKey(keys, key)| :: CellLess(bound, InsertKey(keys, key)[i][0])
  {
    if keys != [] && CellLess(keys[0][0], key[0]) {
      InsertKeyAbove(keys[1..], key, bound);
    }
  }

  /** Inserting a new key into sorted keys keeps them sorted. */
  lemma {:induction false} InsertKeySorted(keys: seq<Row>, key: Row)
    requires SortedKeys(keys) && |key| == 1 && key !in keys
    ensures SortedKeys(InsertKey(keys, key))
  {
    var r := InsertKey(keys, key);
    if keys == [] {
    } else if CellLess(keys[0][0], key[0]) {
      InsertKeySorted(keys[1..], key);
      InsertKeyAbove(keys[1..], key, keys[0][0]);
    } else {
      assert key[0] != keys[0][0] by {
        assert key == [key[0]] && keys[0] == [keys[0][0]];
      }
      CellLessOrder(keys[0][0], key[0], keys[0][0]);
      forall j | 1 < j < |r|
        ensures CellLess(key[0], r[j][0])
      {
        CellLessOrder(key[0], keys[0][0], keys[j - 1][0]);
      }
    }
  }

  /**
   * `unique(table, column)`: the keys of `groupBy(table, [column])`,
   * sorted. They are the distinct one-cell tuples of the column's values,
   * in ascending order.
   */
  method Unique(table: Table, column: int) returns (out: Option<seq<Row>>)
    ensures out.Some? <==> forall i | 0 <= i < |table| :: ValidIndex(table[i], column)
    ensures out.Some? ==> SortedKeys(out.value)
    ensures out.Some? ==> forall key :: key in out.value <==> exists i | 0 <= i < |table| :: key == [At(table[i], column)]
  {
    var groups := GroupBy(table, [column]);
    if groups.None? {
      var i :| 0 <= i < |table| && !AllValid(table[i], [column]);
      assert !ValidIndex(table[i], [column][0]);
      return None;
    }
    forall i | 0 <= i < |table|
      ensures ValidIndex(table[i], column) && PickAll(table[i], [column]) == [At(table[i], column)]
    {
      assert ValidIndex(table[i], [column][0]);
    }
    GroupedSpec(table, [column]);
    var remaining := groups.value.Keys;
    var keys: seq<Row> := [];
    while remaining != {}
      invariant remaining <= groups.value.Keys
      invariant forall k | k in groups.value.Keys :: |k| == 1
      invariant SortedKeys(keys)
      invariant forall k :: k in keys <==> k in groups.value.Keys - remaining
      decreases remaining
    {
      var key :| key in remaining;
      InsertKeySorted(keys, key);
      InsertKeyElements(keys, key);
      keys := InsertKey(keys, key);
      remaining := remaining - {key};
    }
    return Some(keys);
  }
}
