/**
 * The table operations `calculate_funding_metrics` is built from, at the
 * level of lists of rows: selecting a district, melting wide columns into
 * long (label, value) cells, relabelling, left-merging on the
 * (RCDTS, Resource, Total ASE) key, taking the minimum of a column and
 * picking the first row with a given label.
 */
module Frame {

  datatype Option<T> = None | Some(value: T)

  /**
   * One row of the wide district table: the identifying columns and the
   * numeric columns by name.
   */
  datatype District = District(rcdts: string, name: string, ase: real, values: map<string, real>)

  /** One row of a melted table: the identifying columns, the variable name and its value. */
  datatype Cell = Cell(rcdts: string, name: string, ase: real, variable: string, value: real)

  /**
   * One row of the merged resource table: the adequacy cell's columns and
   * the three merged value columns, `None` where a merge found no match.
   */
  datatype ResourceRow = ResourceRow(
    rcdts: string, name: string, ase: real, resource: string,
    adequate: real, actual: Option<real>, gaps: Option<real>, gapsPerSchool: Option<real>)

  /** The value columns the merges add. */
  datatype Column = Actual | Gaps | GapsPerSchool

  // ---------------------------------------------------------------------
  // Selecting a district (process_filtered_data)
  // ---------------------------------------------------------------------

  /** The rows whose district name equals `name`, in table order. */
  function SelectDistrict(table: seq<District>, name: string): (r: seq<District>)
    ensures |r| <= |table|
    ensures forall i | 0 <= i < |r| :: r[i].name == name && r[i] in table
    ensures forall i | 0 <= i < |table| :: table[i].name == name ==> table[i] in r
  {
    if table == [] then []
    else if table[0].name == name then [table[0]] + SelectDistrict(table[1..], name)
    else SelectDistrict(table[1..], name)
  }

  /** Selecting twice by the same name selects nothing more. */
  lemma {:induction false} SelectDistrictIdempotent(table: seq<District>, name: string)
    ensures SelectDistrict(SelectDistrict(table, name), name) == SelectDistrict(table, name)
  {
    if table != [] {
      SelectDistrictIdempotent(table[1..], name);
      if table[0].name == name {
        var rest := SelectDistrict(table[1..], name);
        assert ([table[0]] + rest)[1..] == rest;
      }
    }
  }

  /**
   * The filter keeps table order and multiplicity: selecting from two
   * tables laid end to end is selecting from each, in that order.
   */
  lemma {:induction false} SelectDistrictAppend(a: seq<District>, b: seq<District>, name: string)
    ensures SelectDistrict(a + b, name) == SelectDistrict(a, name) + SelectDistrict(b, name)
  {
    if a == [] {
      assert a + b == b;
    } else {
      assert (a + b)[0] == a[0];
      assert (a + b)[1..] == a[1..] + b;
      SelectDistrictAppend(a[1..], b, name);
    }
  }

  /** A single row is kept exactly when it carries the name. */
  lemma SelectDistrictOne(d: District, name: string)
    ensures SelectDistrict([d], name) == if d.name == name then [d] else []
  {
    assert [d][1..] == [];
  }

  /** When exactly one row carries the name, the selection is that row alone. */
  lemma {:induction false} SelectUniqueDistrict(table: seq<District>, name: string, k: nat)
    requires k < |table| && table[k].name == name
    requires forall i | 0 <= i < |table| && i != k :: table[i].name != name
    ensures SelectDistrict(table, name) == [table[k]]
  {
    if k == 0 {
      NoneSelected(table[1..], name);
    } else {
      SelectUniqueDistrict(table[1..], name, k - 1);
    }
  }

  lemma {:induction false} NoneSelected(table: seq<District>, name: string)
    requires forall i | 0 <= i < |table| :: table[i].name != name
    ensures SelectDistrict(table, name) == []
  {
    if table != [] {
      NoneSelected(table[1..], name);
    }
  }

  // ---------------------------------------------------------------------
  // Melt
  // ---------------------------------------------------------------------

  /** The row has every one of `vars` as a column. */
  predicate Provides(d: District, vars: seq<string>) {
    forall v | 0 <= v < |vars| :: vars[v] in d.values
  }

  /** Every row has every one of `vars` (otherwise pandas raises KeyError). */
  predicate HasColumns(rows: seq<District>, vars: seq<string>) {
    forall j | 0 <= j < |rows| :: Provides(rows[j], vars)
  }

  /** The cell the melt makes from row `d` and variable `v`. */
  function MeltCell(d: District, v: string): Cell
    requires v in d.values
  {
    Cell(d.rcdts, d.name, d.ase, v, d.values[v])
  }

  /** One variable over all rows, in row order. */
  function MeltVariable(rows: seq<District>, v: string): (r: seq<Cell>)
    requires forall j | 0 <= j < |rows| :: v in rows[j].values
    ensures |r| == |rows|
    ensures forall j | 0 <= j < |rows| :: r[j] == MeltCell(rows[j], v)
  {
    seq(|rows|, j requires 0 <= j < |rows| => MeltCell(rows[j], v))
  }

  /**
   * `pd.melt(rows, value_vars=vars)`: variable-major, so all rows for the
   * first variable come first, then all rows for the second, and so on.
   */
  function Melt(rows: seq<District>, vars: seq<string>): (r: seq<Cell>)
    requires HasColumns(rows, vars)
    ensures |r| == |vars| * |rows|
    ensures forall i | 0 <= i < |r| :: r[i].variable in vars
  {
    if vars == [] then []
    else
      var rest := Melt(rows, vars[1..]);
      assert |vars[1..]| * |rows| + |rows| == |vars| * |rows|;
      MeltVariable(rows, vars[0]) + rest
  }

  /** The cell of variable `v` and row `j` sits at position `v * |rows| + j`. */
  lemma {:induction false} MeltAt(rows: seq<District>, vars: seq<string>, v: nat, j: nat)
    requires HasColumns(rows, vars)
    requires v < |vars| && j < |rows|
    ensures v * |rows| + j < |Melt(rows, vars)|
    ensures Melt(rows, vars)[v * |rows| + j] == MeltCell(rows[j], vars[v])
  {
    if v > 0 {
      MeltAt(rows, vars[1..], v - 1, j);
      assert (v - 1) * |rows| + j + |rows| == v * |rows| + j;
    }
  }

  /** A single-row melt lists that row's values in variable order. */
  lemma MeltSingle(d: District, vars: seq<string>)
    requires Provides(d, vars)
    ensures HasColumns([d], vars)
    ensures |Melt([d], vars)| == |vars|
    ensures forall v | 0 <= v < |vars| :: Melt([d], vars)[v] == MeltCell(d, vars[v])
  {
    forall v | 0 <= v < |vars| ensures Melt([d], vars)[v] == MeltCell(d, vars[v]) {
      MeltAt([d], vars, v, 0);
    }
  }

  /**
   * The least value of a (relabelled) melt of a non-empty table is the
   * least of the melted columns over all rows, and is one of them.
   */
  lemma MeltedMinimum(rows: seq<District>, vars: seq<string>, f: string -> string)
    requires HasColumns(rows, vars) && rows != [] && vars != []
    ensures var m := MinValue(Relabel(Melt(rows, vars), f));
      m.Some?
      && (forall j, v | 0 <= j < |rows| && 0 <= v < |vars| :: m.value <= rows[j].values[vars[v]])
      && exists j, v | 0 <= j < |rows| && 0 <= v < |vars| :: m.value == rows[j].values[vars[v]]
  {
    var cells := Relabel(Melt(rows, vars), f);
    MeltAt(rows, vars, 0, 0);
    var m := MinValue(cells).value;
    forall j, v | 0 <= j < |rows| && 0 <= v < |vars| ensures m <= rows[j].values[vars[v]] {
      MeltValueAt(rows, vars, f, v, j);
    }
    var i :| 0 <= i < |cells| && cells[i].value == m;
    MeltOrigin(rows, vars, i);
  }

  lemma MeltValueAt(rows: seq<District>, vars: seq<string>, f: string -> string, v: nat, j: nat)
    requires HasColumns(rows, vars) && v < |vars| && j < |rows|
    ensures exists i | 0 <= i < |Relabel(Melt(rows, vars), f)| :: Relabel(Melt(rows, vars), f)[i].value == rows[j].values[vars[v]]
  {
    MeltAt(rows, vars, v, j);
    var i := v * |rows| + j;
    assert Relabel(Melt(rows, vars), f)[i].value == rows[j].values[vars[v]];
  }

  /** Every melted cell comes from some row and some variable. */
  lemma {:induction false} MeltOrigin(rows: seq<District>, vars: seq<string>, i: nat)
    requires HasColumns(rows, vars) && i < |Melt(rows, vars)|
    ensures exists j, v | 0 <= j < |rows| && 0 <= v < |vars| :: Melt(rows, vars)[i] == MeltCell(rows[j], vars[v])
  {
    assert HasColumns(rows, vars[1..]) by {
      forall j, v | 0 <= j < |rows| && 0 <= v < |vars[1..]| ensures vars[1..][v] in rows[j].values {
        assert vars[1..][v] == vars[v + 1];
      }
    }
    var rest := Melt(rows, vars[1..]);
    assert Melt(rows, vars) == MeltVariable(rows, vars[0]) + rest;
    if i < |rows| {
      assert Melt(rows, vars)[i] == MeltCell(rows[i], vars[0]);
    } else {
      MeltOrigin(rows, vars[1..], i - |rows|);
      var j, v :| 0 <= j < |rows| && 0 <= v < |vars[1..]| && rest[i - |rows|] == MeltCell(rows[j], vars[1..][v]);
      assert vars[1..][v] == vars[v + 1];
    }
  }

  // ---------------------------------------------------------------------
  // Relabelling (overwriting the variable column with a function of itself)
  // ---------------------------------------------------------------------

  /** `df[col] = df[col].str.replace(...)`: every cell's label passes through `f`, nothing else changes. */
  function Relabel(cells: seq<Cell>, f: string -> string): (r: seq<Cell>)
    ensures |r| == |cells|
    ensures forall i | 0 <= i < |r| ::
      r[i].variable == f(cells[i].variable) && r[i].value == cells[i].value
      && r[i].rcdts == cells[i].rcdts && r[i].name == cells[i].name && r[i].ase == cells[i].ase
  {
    seq(|cells|, i requires 0 <= i < |cells| => cells[i].(variable := f(cells[i].variable)))
  }

  // ---------------------------------------------------------------------
  // Left merge on (RCDTS, Resource, Total ASE)
  // ---------------------------------------------------------------------

  /** A right-hand cell joins a row when all three key columns agree. */
  predicate Matches(row: ResourceRow, c: Cell) {
    c.rcdts == row.rcdts && c.variable == row.resource && c.ase == row.ase
  }

  /** The values of the right-hand cells that join `row`, in right-hand order. */
  function Matching(right: seq<Cell>, row: ResourceRow): (r: seq<real>)
    ensures |r| <= |right|
    ensures r == [] <==> forall j | 0 <= j < |right| :: !Matches(row, right[j])
    ensures r != [] ==> exists j | 0 <= j < |right| :: Matches(row, right[j]) && right[j].value == r[0]
  {
    if right == [] then []
    else if Matches(row, right[0]) then [right[0].value] + Matching(right[1..], row)
    else
      var rest := Matching(right[1..], row);
      assert forall j | 1 <= j < |right| :: right[1..][j - 1] == right[j];
      rest
  }

  /** The value of the first right-hand cell that joins `row`, if any. */
  function Lookup(right: seq<Cell>, row: ResourceRow): (r: Option<real>)
    ensures r.None? <==> forall j | 0 <= j < |right| :: !Matches(row, right[j])
    ensures r.Some? ==> exists j | 0 <= j < |right| :: Matches(row, right[j]) && right[j].value == r.value
  {
    var ms := Matching(right, row);
    if ms == [] then None else Some(ms[0])
  }

  /** The matches against two right-hand tables laid end to end are those of each, in that order. */
  lemma {:induction false} MatchingAppend(a: seq<Cell>, b: seq<Cell>, row: ResourceRow)
    ensures Matching(a + b, row) == Matching(a, row) + Matching(b, row)
  {
    if a == [] {
      assert a + b == b;
    } else {
      assert (a + b)[0] == a[0];
      assert (a + b)[1..] == a[1..] + b;
      MatchingAppend(a[1..], b, row);
    }
  }

  /** A single right-hand cell contributes its value exactly when its key agrees. */
  lemma MatchingOne(c: Cell, row: ResourceRow)
    ensures Matching([c], row) == if Matches(row, c) then [c.value] else []
  {
    assert [c][1..] == [];
  }

  /** A key met by exactly one right-hand cell, at position `k`, looks up that cell's value. */
  lemma {:induction false} MatchingSingle(right: seq<Cell>, row: ResourceRow, k: nat)
    requires k < |right| && Matches(row, right[k])
    requires forall j | 0 <= j < |right| && j != k :: !Matches(row, right[j])
    ensures Matching(right, row) == [right[k].value]
  {
    if k == 0 {
      assert forall j | 0 <= j < |right[1..]| :: right[1..][j] == right[j + 1];
    } else {
      assert !Matches(row, right[0]);
      assert forall j | 0 <= j < |right[1..]| :: right[1..][j] == right[j + 1];
      MatchingSingle(right[1..], row, k - 1);
    }
  }

  /** Sets one merged column of a row. */
  function Put(row: ResourceRow, col: Column, v: Option<real>): ResourceRow {
    match col
    case Actual => row.(actual := v)
    case Gaps => row.(gaps := v)
    case GapsPerSchool => row.(gapsPerSchool := v)
  }

  /** The merged column `col` of a row. */
  function Get(row: ResourceRow, col: Column): Option<real> {
    match col
    case Actual => row.actual
    case Gaps => row.gaps
    case GapsPerSchool => row.gapsPerSchool
  }

  /** The rows one left-hand row becomes: one per match, or one with a missing value. */
  function JoinRow(row: ResourceRow, right: seq<Cell>, col: Column): (r: seq<ResourceRow>)
    ensures 1 <= |r|
    ensures |Matching(right, row)| <= 1 ==> r == [Put(row, col, Lookup(right, row))]
    ensures Matching(right, row) != [] ==>
      |r| == |Matching(right, row)|
      && forall i | 0 <= i < |r| :: r[i] == Put(row, col, Some(Matching(right, row)[i]))
  {
    var ms := Matching(right, row);
    if ms == [] then [Put(row, col, None)]
    else seq(|ms|, i requires 0 <= i < |ms| => Put(row, col, Some(ms[i])))
  }

  /** No left-hand row meets more than one right-hand cell. */
  predicate KeysUnique(left: seq<ResourceRow>, right: seq<Cell>) {
    forall i | 0 <= i < |left| :: |Matching(right, left[i])| <= 1
  }

  /**
   * `pd.merge(left, right, on=[RCDTS, Resource, Total ASE], how="left")`:
   * left-hand order, each left row followed by its matches in right-hand
   * order. No left row is ever dropped, and when no key meets two cells
   * the result is the left table with `col` looked up row by row.
   */
  function LeftJoin(left: seq<ResourceRow>, right: seq<Cell>, col: Column): (r: seq<ResourceRow>)
    ensures |r| >= |left|
    ensures KeysUnique(left, right) ==>
      |r| == |left| && forall i | 0 <= i < |left| :: r[i] == Put(left[i], col, Lookup(right, left[i]))
  {
    if left == [] then []
    else
      var rest := LeftJoin(left[1..], right, col);
      assert KeysUnique(left, right) ==> KeysUnique(left[1..], right) by {
        if KeysUnique(left, right) {
          forall i | 0 <= i < |left[1..]| ensures |Matching(right, left[1..][i])| <= 1 {
            assert left[1..][i] == left[i + 1];
          }
        }
      }
      JoinRow(left[0], right, col) + rest
  }

  /**
   * A left merge keeps left-hand order whatever the keys: merging two
   * left tables laid end to end is merging each, in that order.
   */
  lemma {:induction false} LeftJoinAppend(a: seq<ResourceRow>, b: seq<ResourceRow>, right: seq<Cell>, col: Column)
    ensures LeftJoin(a + b, right, col) == LeftJoin(a, right, col) + LeftJoin(b, right, col)
  {
    if a == [] {
      assert a + b == b;
    } else {
      assert (a + b)[0] == a[0];
      assert (a + b)[1..] == a[1..] + b;
      LeftJoinAppend(a[1..], b, right, col);
      var head := JoinRow(a[0], right, col);
      assert head + (LeftJoin(a[1..], right, col) + LeftJoin(b, right, col))
        == (head + LeftJoin(a[1..], right, col)) + LeftJoin(b, right, col);
    }
  }

  /** A single left row becomes exactly its own output rows. */
  lemma LeftJoinOne(row: ResourceRow, right: seq<Cell>, col: Column)
    ensures LeftJoin([row], right, col) == JoinRow(row, right, col)
  {
    assert [row][1..] == [];
  }

  /** The first row a left merge outputs is the first left row with its first match, or a missing value. */
  lemma LeftJoinHead(left: seq<ResourceRow>, right: seq<Cell>, col: Column)
    requires left != []
    ensures LeftJoin(left, right, col) != []
    ensures LeftJoin(left, right, col)[0] == Put(left[0], col, Lookup(right, left[0]))
  {
  }

  /** Every row a left merge outputs keeps the key and adequacy columns of a left row. */
  lemma {:induction false} LeftJoinKeepsLeft(left: seq<ResourceRow>, right: seq<Cell>, col: Column, k: nat)
    requires k < |LeftJoin(left, right, col)|
    ensures exists i | 0 <= i < |left| :: LeftJoin(left, right, col)[k] == Put(left[i], col, Get(LeftJoin(left, right, col)[k], col))
  {
    var r := LeftJoin(left, right, col);
    var head := JoinRow(left[0], right, col);
    var rest := LeftJoin(left[1..], right, col);
    assert r == head + rest;
    if k < |head| {
      assert r[k] == Put(left[0], col, Get(r[k], col));
    } else {
      LeftJoinKeepsLeft(left[1..], right, col, k - |head|);
      var i :| 0 <= i < |left[1..]| && rest[k - |head|] == Put(left[1..][i], col, Get(rest[k - |head|], col));
      assert r[k] == rest[k - |head|];
      assert left[1..][i] == left[i + 1];
    }
  }

  /** The rows a melted adequacy table starts the merges from; the merged columns are not yet set. */
  function Seed(cells: seq<Cell>): (r: seq<ResourceRow>)
    ensures |r| == |cells|
    ensures forall i | 0 <= i < |r| ::
      r[i].rcdts == cells[i].rcdts && r[i].name == cells[i].name && r[i].ase == cells[i].ase
      && r[i].resource == cells[i].variable && r[i].adequate == cells[i].value
  {
    seq(|cells|, i requires 0 <= i < |cells| =>
      ResourceRow(cells[i].rcdts, cells[i].name, cells[i].ase, cells[i].variable, cells[i].value, None, None, None))
  }

  // ---------------------------------------------------------------------
  // Column minimum and row selection
  // ---------------------------------------------------------------------

  /** `df[col].min()`: the least value, or `None` (pandas NaN) for an empty column. */
  function MinValue(cells: seq<Cell>): (m: Option<real>)
    ensures m.None? <==> cells == []
    ensures m.Some? ==> (forall i | 0 <= i < |cells| :: m.value <= cells[i].value)
    ensures m.Some? ==> exists i | 0 <= i < |cells| :: cells[i].value == m.value
  {
    if cells == [] then None
    else
      match MinValue(cells[1..])
      case None => Some(cells[0].value)
      case Some(rest) =>
        assert forall i | 1 <= i < |cells| :: cells[1..][i - 1] == cells[i];
        if cells[0].value <= rest then Some(cells[0].value) else Some(rest)
  }

  /**
   * `df[df["Resource"] == label].iloc[0]`: the first row with that
   * resource label, or `None` where pandas raises IndexError.
   */
  function FirstWithResource(rows: seq<ResourceRow>, resource: string): (r: Option<ResourceRow>)
    ensures r.None? <==> forall i | 0 <= i < |rows| :: rows[i].resource != resource
    ensures r.Some? ==> exists i | 0 <= i < |rows| ::
      rows[i] == r.value && r.value.resource == resource && forall j | 0 <= j < i :: rows[j].resource != resource
  {
    if rows == [] then None
    else if rows[0].resource == resource then Some(rows[0])
    else
      var rest := FirstWithResource(rows[1..], resource);
      assert forall j | 1 <= j < |rows| :: rows[1..][j - 1] == rows[j];
      rest
  }

  /** The first row carrying the label is the one `iloc[0]` picks. */
  lemma FirstWithResourceAt(rows: seq<ResourceRow>, resource: string, k: nat)
    requires k < |rows| && rows[k].resource == resource
    requires forall j | 0 <= j < k :: rows[j].resource != resource
    ensures FirstWithResource(rows, resource) == Some(rows[k])
  {
  }
}
