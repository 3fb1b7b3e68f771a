/**
 * `calculate_funding_metrics`: the selected district rows are melted into
 * four long resource tables (adequate, actual, gap and gap per school)
 * whose labels are normalised to one vocabulary, left-merged on
 * (RCDTS, Resource, Total ASE), and read back at the
 * "Total Resources (Dollar Amount)" row; demographics and revenue are
 * melted alongside, and the least gap is returned twice.
 */
module Metrics {
  import opened Labels
  import opened Frame

  /** Everything `calculate_funding_metrics` returns, in its order. */
  datatype FundingMetrics = FundingMetrics(
    actual: Option<real>,
    adequate: real,
    ase: real,
    merged: seq<ResourceRow>,
    demographics: seq<Cell>,
    revenue: seq<Cell>,
    negativeGap: Option<real>,
    negativeGapPerSchool: Option<real>)

  /** The call either returns its tuple or fails at `iloc[0]` (pandas IndexError). */
  datatype Outcome = Computed(metrics: FundingMetrics) | IndexError

  /** The rows carry every column the melts read (otherwise pandas raises KeyError). */
  predicate HasSchema(rows: seq<District>) {
    HasColumns(rows, AdequacyFields) && HasColumns(rows, ActualFields)
    && HasColumns(rows, GapFields) && HasColumns(rows, PerSchoolFields)
    && HasColumns(rows, DemographicFields) && HasColumns(rows, RevenueFields)
  }

  /** Adequate resources, labels normalised by lines 65-67. */
  function AdequacyTable(rows: seq<District>): seq<Cell>
    requires HasSchema(rows)
  {
    Relabel(Melt(rows, AdequacyFields), NormalizeAdequacy)
  }

  /** Actual resources, labels normalised by lines 88-93. */
  function ActualTable(rows: seq<District>): seq<Cell>
    requires HasSchema(rows)
  {
    Relabel(Melt(rows, ActualFields), NormalizeActual)
  }

  /** Funding gaps, labels normalised by lines 115-118. */
  function GapTable(rows: seq<District>): seq<Cell>
    requires HasSchema(rows)
  {
    Relabel(Melt(rows, GapFields), NormalizeGap)
  }

  /** Gaps per school, labels normalised by line 141. */
  function PerSchoolTable(rows: seq<District>): seq<Cell>
    requires HasSchema(rows)
  {
    Relabel(Melt(rows, PerSchoolFields), NormalizePerSchool)
  }

  /** Demographic percentages, " (%)" stripped by line 189. */
  function DemographicTable(rows: seq<District>): seq<Cell>
    requires HasSchema(rows)
  {
    Relabel(Melt(rows, DemographicFields), StripPercent)
  }

  /** Revenue percentages, " (%)" stripped by line 207. */
  function RevenueTable(rows: seq<District>): seq<Cell>
    requires HasSchema(rows)
  {
    Relabel(Melt(rows, RevenueFields), StripPercent)
  }

  /** The three left merges of lines 148-172, in order. */
  function MergedTable(rows: seq<District>): seq<ResourceRow>
    requires HasSchema(rows)
  {
    var withActual := LeftJoin(Seed(AdequacyTable(rows)), ActualTable(rows), Actual);
    var withGaps := LeftJoin(withActual, GapTable(rows), Gaps);
    LeftJoin(withGaps, PerSchoolTable(rows), GapsPerSchool)
  }

  /**
   * `calculate_funding_metrics(df_filtered)`. It fails at `iloc[0]` exactly
   * when nothing was selected; otherwise it returns the first district's
   * total adequacy target, actual resources and Total ASE, and the same
   * least gap twice, as line 144 reads the "Gaps" column.
   */
  function CalculateFundingMetrics(rows: seq<District>): (r: Outcome)
    requires HasSchema(rows)
    ensures r.IndexError? <==> rows == []
    ensures rows != [] ==>
      r.metrics.adequate == rows[0].values[AdequacyFields[0]]
      && r.metrics.actual == Some(rows[0].values[ActualFields[0]])
      && r.metrics.ase == rows[0].ase
      && r.metrics.negativeGapPerSchool == r.metrics.negativeGap
  {
    var merged := MergedTable(rows);
    var outcome :=
      match FirstWithResource(merged, TotalLabel)
      case None => IndexError
      case Some(total) =>
        Computed(FundingMetrics(
          total.actual, total.adequate, total.ase, merged,
          DemographicTable(rows), RevenueTable(rows),
          MinValue(GapTable(rows)), MinValue(GapTable(rows))));
    if rows == [] then
      assert merged == [];
      outcome
    else
      MergedHead(rows);
      outcome
  }

  // ---------------------------------------------------------------------
  // Any selection
  // ---------------------------------------------------------------------

  /** The first adequacy cell is the first district's target, relabelled to the total label. */
  lemma AdequacyTableHead(rows: seq<District>)
    requires HasSchema(rows) && rows != []
    ensures AdequacyTable(rows) != []
    ensures AdequacyTable(rows)[0] == Cell(rows[0].rcdts, rows[0].name, rows[0].ase, TotalLabel, rows[0].values[AdequacyFields[0]])
  {
    FieldCounts();
    MeltAt(rows, AdequacyFields, 0, 0);
    TotalAdequacyColumn();
  }

  /** The first actual cell is the first district's actual resources, relabelled to the total label. */
  lemma ActualTableHead(rows: seq<District>)
    requires HasSchema(rows) && rows != []
    ensures ActualTable(rows) != []
    ensures ActualTable(rows)[0] == Cell(rows[0].rcdts, rows[0].name, rows[0].ase, TotalLabel, rows[0].values[ActualFields[0]])
  {
    FieldCounts();
    MeltAt(rows, ActualFields, 0, 0);
    TotalActualColumn();
  }

  /** The first gap cell is the first district's funding gap, relabelled to the total label. */
  lemma GapTableHead(rows: seq<District>)
    requires HasSchema(rows) && rows != []
    ensures GapTable(rows) != []
    ensures GapTable(rows)[0] == Cell(rows[0].rcdts, rows[0].name, rows[0].ase, TotalLabel, rows[0].values[GapFields[0]])
  {
    FieldCounts();
    MeltAt(rows, GapFields, 0, 0);
    TotalGapColumn();
  }

  /** No per-school cell carries the total label. */
  lemma PerSchoolLacksTotal(rows: seq<District>)
    requires HasSchema(rows)
    ensures forall i | 0 <= i < |PerSchoolTable(rows)| :: PerSchoolTable(rows)[i].variable != TotalLabel
  {
    var m := Melt(rows, PerSchoolFields);
    PerSchoolNormalization();
    LabelListsDistinct();
    forall i | 0 <= i < |m| ensures NormalizePerSchool(m[i].variable) != TotalLabel {
      var v :| v in PerSchoolFields && v == m[i].variable;
      var k :| 0 <= k < |PerSchoolFields| && PerSchoolFields[k] == v;
      assert NormalizePerSchool(v) == PerSchoolLabels[k];
    }
  }

  /**
   * The first merged row is the first district's total-resources row:
   * its adequacy target, actual resources and funding gap, and no
   * per-school gap, whatever the other selected rows hold.
   */
  lemma MergedHead(rows: seq<District>)
    requires HasSchema(rows) && rows != []
    ensures MergedTable(rows) != []
    ensures MergedTable(rows)[0] == ResourceRow(
      rows[0].rcdts, rows[0].name, rows[0].ase, TotalLabel, rows[0].values[AdequacyFields[0]],
      Some(rows[0].values[ActualFields[0]]), Some(rows[0].values[GapFields[0]]), None)
  {
    AdequacyTableHead(rows);
    ActualTableHead(rows);
    GapTableHead(rows);
    PerSchoolLacksTotal(rows);
    var seed := Seed(AdequacyTable(rows));
    LeftJoinHead(seed, ActualTable(rows), Actual);
    var withActual := LeftJoin(seed, ActualTable(rows), Actual);
    LeftJoinHead(withActual, GapTable(rows), Gaps);
    var withGaps := LeftJoin(withActual, GapTable(rows), Gaps);
    LeftJoinHead(withGaps, PerSchoolTable(rows), GapsPerSchool);
  }

  /**
   * The returned minimum is the least funding-gap figure of any selected
   * district, over all ten gap columns, and is one of them; it is missing
   * only when nothing was selected.
   */
  lemma NegativeGapIsLeast(rows: seq<District>)
    requires HasSchema(rows) && rows != []
    ensures CalculateFundingMetrics(rows).Computed?
    ensures var g := CalculateFundingMetrics(rows).metrics.negativeGap;
      g.Some?
      && (forall j, v | 0 <= j < |rows| && 0 <= v < |GapFields| :: g.value <= rows[j].values[GapFields[v]])
      && exists j, v | 0 <= j < |rows| && 0 <= v < |GapFields| :: g.value == rows[j].values[GapFields[v]]
  {
    NegativeGapOfGapTable(rows);
    FieldCounts();
    MeltedMinimum(rows, GapFields, NormalizeGap);
  }

  lemma NegativeGapOfGapTable(rows: seq<District>)
    requires HasSchema(rows) && rows != []
    ensures CalculateFundingMetrics(rows).Computed?
    ensures CalculateFundingMetrics(rows).metrics.negativeGap == MinValue(GapTable(rows))
  {
  }

  // ---------------------------------------------------------------------
  // One district (the dashboard selects a single district by name)
  // ---------------------------------------------------------------------

  /** One district row carries every column the melts read. */
  predicate Schema(d: District) {
    Provides(d, AdequacyFields) && Provides(d, ActualFields)
    && Provides(d, GapFields) && Provides(d, PerSchoolFields)
    && Provides(d, DemographicFields) && Provides(d, RevenueFields)
  }

  /** The staff rows of the three resource vocabularies line up, one place apart. */
  lemma LabelAlignment()
    ensures |ResourceLabels| == 10 && |ActualLabels| == 9 && |PerSchoolLabels| == 9
    ensures ResourceLabels[0] == ActualLabels[0] == TotalLabel && ResourceLabels[1] == PerStudentLabel
    ensures forall i | 2 <= i < 10 :: ResourceLabels[i] == ActualLabels[i - 1] == PerSchoolLabels[i - 1] == StaffNames[i - 2]
  {
  }

  /** The cells melted from district `d`: column `fields[i]` under label `labels[i]`, in order. */
  predicate MeltOf(cells: seq<Cell>, d: District, fields: seq<string>, labels: seq<string>) {
    |cells| == |fields| == |labels|
    && forall i | 0 <= i < |cells| ::
      fields[i] in d.values && cells[i] == Cell(d.rcdts, d.name, d.ase, labels[i], d.values[fields[i]])
  }

  /** A row of `d` whose label sits at `k` among distinct labels meets exactly the `k`-th cell. */
  lemma LookupByLabel(right: seq<Cell>, d: District, fields: seq<string>, labels: seq<string>, row: ResourceRow, k: nat)
    requires MeltOf(right, d, fields, labels) && Distinct(labels)
    requires row.rcdts == d.rcdts && row.ase == d.ase
    requires k < |labels| && labels[k] == row.resource
    ensures Matching(right, row) == [right[k].value]
    ensures Lookup(right, row) == Some(d.values[fields[k]])
  {
    MatchingSingle(right, row, k);
  }

  /** A row whose label is not among `labels` meets no cell. */
  lemma LookupMissing(right: seq<Cell>, d: District, fields: seq<string>, labels: seq<string>, row: ResourceRow)
    requires MeltOf(right, d, fields, labels)
    requires forall i | 0 <= i < |labels| :: labels[i] != row.resource
    ensures Matching(right, row) == []
    ensures Lookup(right, row) == None
  {
  }

  /** Relabelling the melt of one district by a map that sends each column to its label. */
  lemma SingleRelabel(d: District, fields: seq<string>, labels: seq<string>, f: string -> string)
    requires Provides(d, fields) && |fields| == |labels|
    requires forall i | 0 <= i < |fields| :: f(fields[i]) == labels[i]
    ensures HasColumns([d], fields)
    ensures MeltOf(Relabel(Melt([d], fields), f), d, fields, labels)
  {
    MeltSingle(d, fields);
  }

  /** The adequacy table of one district: its ten adequacy columns under the ten resource labels. */
  lemma SingleAdequacy(d: District)
    requires Schema(d)
    ensures MeltOf(AdequacyTable([d]), d, AdequacyFields, ResourceLabels)
  {
    AdequacyNormalization();
    SingleRelabel(d, AdequacyFields, ResourceLabels, NormalizeAdequacy);
  }

  /** The actual table of one district: its nine actual columns under the total and staff labels. */
  lemma SingleActual(d: District)
    requires Schema(d)
    ensures MeltOf(ActualTable([d]), d, ActualFields, ActualLabels)
  {
    ActualNormalization();
    SingleRelabel(d, ActualFields, ActualLabels, NormalizeActual);
  }

  /** The gap table of one district: its ten gap columns under the ten resource labels. */
  lemma SingleGap(d: District)
    requires Schema(d)
    ensures MeltOf(GapTable([d]), d, GapFields, ResourceLabels)
  {
    GapNormalization();
    SingleRelabel(d, GapFields, ResourceLabels, NormalizeGap);
  }

  /** The per-school table of one district: its nine per-school columns under their labels. */
  lemma SinglePerSchool(d: District)
    requires Schema(d)
    ensures MeltOf(PerSchoolTable([d]), d, PerSchoolFields, PerSchoolLabels)
  {
    PerSchoolNormalization();
    SingleRelabel(d, PerSchoolFields, PerSchoolLabels, NormalizePerSchool);
  }

  /** The actual resources a district reports for resource row `i`: none for the per-student row. */
  function ExpectedActual(d: District, i: nat): Option<real>
    requires Schema(d) && i < 10
  {
    FieldCounts();
    if i == 0 then Some(d.values[ActualFields[0]])
    else if i == 1 then None
    else Some(d.values[ActualFields[i - 1]])
  }

  /** The per-school gap a district reports for resource row `i`: none for the two dollar rows. */
  function ExpectedPerSchool(d: District, i: nat): Option<real>
    requires Schema(d) && i < 10
  {
    FieldCounts();
    if i < 2 then None else Some(d.values[PerSchoolFields[i - 1]])
  }

  /**
   * Row `i` of one district's merged table, read straight off the
   * district's columns: resource label `i`, its adequacy and gap columns,
   * and its actual and per-school columns where the source has them.
   */
  function ExpectedRow(d: District, i: nat): ResourceRow
    requires Schema(d) && i < 10
  {
    FieldCounts();
    ResourceRow(d.rcdts, d.name, d.ase, ResourceLabels[i], d.values[AdequacyFields[i]],
      ExpectedActual(d, i), Some(d.values[GapFields[i]]), ExpectedPerSchool(d, i))
  }

  /** One resource row of `d` meets its actual column, if it has one, exactly once. */
  lemma SingleActualLookup(right: seq<Cell>, d: District, row: ResourceRow, i: nat)
    requires Schema(d) && i < 10
    requires MeltOf(right, d, ActualFields, ActualLabels)
    requires row.rcdts == d.rcdts && row.ase == d.ase && row.resource == ResourceLabels[i]
    ensures |Matching(right, row)| <= 1
    ensures Lookup(right, row) == ExpectedActual(d, i)
  {
    LabelAlignment();
    LabelListsDistinct();
    if i == 0 {
      LookupByLabel(right, d, ActualFields, ActualLabels, row, 0);
    } else if i == 1 {
      LookupMissing(right, d, ActualFields, ActualLabels, row);
    } else {
      LookupByLabel(right, d, ActualFields, ActualLabels, row, i - 1);
    }
  }

  /** The resource rows of district `d` before any merge. */
  predicate SeededBy(seed: seq<ResourceRow>, d: District) {
    |seed| == 10
    && forall i | 0 <= i < 10 :: seed[i].rcdts == d.rcdts && seed[i].ase == d.ase && seed[i].resource == ResourceLabels[i]
  }

  /** The first merge of one district: every resource row meets its actual column, if any, once. */
  lemma SingleJoinActual(seed: seq<ResourceRow>, right: seq<Cell>, d: District)
    requires Schema(d) && SeededBy(seed, d)
    requires MeltOf(right, d, ActualFields, ActualLabels)
    ensures KeysUnique(seed, right)
    ensures forall i | 0 <= i < 10 :: Lookup(right, seed[i]) == ExpectedActual(d, i)
  {
    forall i | 0 <= i < 10 ensures |Matching(right, seed[i])| <= 1 && Lookup(right, seed[i]) == ExpectedActual(d, i) {
      SingleActualLookup(right, d, seed[i], i);
    }
  }

  /** One resource row of `d` meets its gap column exactly once. */
  lemma SingleGapLookup(right: seq<Cell>, d: District, row: ResourceRow, i: nat)
    requires Schema(d) && i < 10
    requires MeltOf(right, d, GapFields, ResourceLabels)
    requires row.rcdts == d.rcdts && row.ase == d.ase && row.resource == ResourceLabels[i]
    ensures |Matching(right, row)| <= 1
    ensures Lookup(right, row) == Some(d.values[GapFields[i]])
  {
    LabelListsDistinct();
    LookupByLabel(right, d, GapFields, ResourceLabels, row, i);
  }

  /** The second merge of one district: every resource row meets its gap column once. */
  lemma SingleJoinGap(rows: seq<ResourceRow>, right: seq<Cell>, d: District)
    requires Schema(d) && SeededBy(rows, d)
    requires MeltOf(right, d, GapFields, ResourceLabels)
    ensures KeysUnique(rows, right)
    ensures forall i | 0 <= i < 10 :: Lookup(right, rows[i]) == Some(d.values[GapFields[i]])
  {
    forall i | 0 <= i < 10 ensures |Matching(right, rows[i])| <= 1 && Lookup(right, rows[i]) == Some(d.values[GapFields[i]]) {
      SingleGapLookup(right, d, rows[i], i);
    }
  }

  /** A merge that meets every row at most once keeps the rows' keys and sets one column. */
  lemma JoinKeepsSeeded(rows: seq<ResourceRow>, right: seq<Cell>, col: Column, d: District)
    requires SeededBy(rows, d) && KeysUnique(rows, right)
    ensures SeededBy(LeftJoin(rows, right, col), d)
    ensures forall i | 0 <= i < 10 :: LeftJoin(rows, right, col)[i] == Put(rows[i], col, Lookup(right, rows[i]))
  {
  }

  /** One resource row of `d` meets its per-school column, if it has one, exactly once. */
  lemma SinglePerSchoolLookup(right: seq<Cell>, d: District, row: ResourceRow, i: nat)
    requires Schema(d) && i < 10
    requires MeltOf(right, d, PerSchoolFields, PerSchoolLabels)
    requires row.rcdts == d.rcdts && row.ase == d.ase && row.resource == ResourceLabels[i]
    ensures |Matching(right, row)| <= 1
    ensures Lookup(right, row) == ExpectedPerSchool(d, i)
  {
    LabelAlignment();
    LabelListsDistinct();
    if i < 2 {
      LookupMissing(right, d, PerSchoolFields, PerSchoolLabels, row);
    } else {
      LookupByLabel(right, d, PerSchoolFields, PerSchoolLabels, row, i - 1);
    }
  }

  /** The third merge of one district: every staff row meets its per-school column once, the dollar rows none. */
  lemma SingleJoinPerSchool(rows: seq<ResourceRow>, right: seq<Cell>, d: District)
    requires Schema(d) && SeededBy(rows, d)
    requires MeltOf(right, d, PerSchoolFields, PerSchoolLabels)
    ensures KeysUnique(rows, right)
    ensures forall i | 0 <= i < 10 :: Lookup(right, rows[i]) == ExpectedPerSchool(d, i)
  {
    forall i | 0 <= i < 10 ensures |Matching(right, rows[i])| <= 1 && Lookup(right, rows[i]) == ExpectedPerSchool(d, i) {
      SinglePerSchoolLookup(right, d, rows[i], i);
    }
  }

  /** The three merges of one district, given its four melted tables. */
  lemma SingleMerges(adequacy: seq<Cell>, actual: seq<Cell>, gaps: seq<Cell>, perSchool: seq<Cell>, d: District)
    requires Schema(d)
    requires MeltOf(adequacy, d, AdequacyFields, ResourceLabels)
    requires MeltOf(actual, d, ActualFields, ActualLabels)
    requires MeltOf(gaps, d, GapFields, ResourceLabels)
    requires MeltOf(perSchool, d, PerSchoolFields, PerSchoolLabels)
    ensures var merged := LeftJoin(LeftJoin(LeftJoin(Seed(adequacy), actual, Actual), gaps, Gaps), perSchool, GapsPerSchool);
      |merged| == 10 && forall i | 0 <= i < 10 :: merged[i] == ExpectedRow(d, i)
  {
    var seed := Seed(adequacy);
    assert SeededBy(seed, d);
    SingleJoinActual(seed, actual, d);
    JoinKeepsSeeded(seed, actual, Actual, d);
    var withActual := LeftJoin(seed, actual, Actual);
    SingleJoinGap(withActual, gaps, d);
    JoinKeepsSeeded(withActual, gaps, Gaps, d);
    var withGaps := LeftJoin(withActual, gaps, Gaps);
    SingleJoinPerSchool(withGaps, perSchool, d);
    JoinKeepsSeeded(withGaps, perSchool, GapsPerSchool, d);
    var merged := LeftJoin(withGaps, perSchool, GapsPerSchool);
    forall i | 0 <= i < 10 ensures merged[i] == ExpectedRow(d, i) {
      assert merged[i] == seed[i].(actual := ExpectedActual(d, i), gaps := Some(d.values[GapFields[i]]), gapsPerSchool := ExpectedPerSchool(d, i));
    }
  }

  /**
   * For one selected district the merged table has exactly the ten
   * resource rows, in order, each holding the district's own adequate,
   * actual, gap and per-school figures for that resource: actual figures
   * are missing only on the per-student row, per-school gaps only on the
   * two dollar rows.
   */
  lemma SingleDistrictMerge(d: District)
    requires Schema(d)
    ensures HasSchema([d])
    ensures |MergedTable([d])| == 10
    ensures forall i | 0 <= i < 10 :: MergedTable([d])[i] == ExpectedRow(d, i)
  {
    var adequacy, actual, gaps, perSchool := AdequacyTable([d]), ActualTable([d]), GapTable([d]), PerSchoolTable([d]);
    SingleAdequacy(d);
    SingleActual(d);
    SingleGap(d);
    SinglePerSchool(d);
    SingleMerges(adequacy, actual, gaps, perSchool, d);
    assert MergedTable([d]) == LeftJoin(LeftJoin(LeftJoin(Seed(adequacy), actual, Actual), gaps, Gaps), perSchool, GapsPerSchool);
  }

  /** For one selected district the demographic table lists its nine percentages under the group names, " (%)" removed. */
  lemma SingleDemographics(d: District)
    requires Schema(d)
    ensures MeltOf(DemographicTable([d]), d, DemographicFields, DemographicGroups)
  {
    DemographicNormalization();
    SingleRelabel(d, DemographicFields, DemographicGroups, StripPercent);
  }

  /** For one selected district the revenue table lists its five percentages under the source names, " (%)" removed. */
  lemma SingleRevenue(d: District)
    requires Schema(d)
    ensures MeltOf(RevenueTable([d]), d, RevenueFields, RevenueSources)
  {
    RevenueNormalization();
    SingleRelabel(d, RevenueFields, RevenueSources, StripPercent);
  }
}
