# Illinois school funding dashboard: funding metrics core

The dashboard (`peer_app.py`) shows Illinois school districts next to the
Evidence-Based Funding (EBF) adequacy model. A user picks a district (or
"State of Illinois"). The app then:

- selects that district's rows from the district table (`process_filtered_data`);
- reshapes the wide table into long resource tables and joins them
  (`calculate_funding_metrics`);
- shows the headline adequate, actual and gap figures, in total or per pupil;
- headlines the gap as a "Funding Gap" or a "Funding Surplus";
- for a chosen staff type, says whether the district is adequately staffed.

This project models that core in Dafny. Data frames are sequences of
datatype rows.

- `text.dfy` (module `Text`) models Python's `str.replace`: every
  non-overlapping occurrence is replaced, in one left-to-right pass. It
  also models `str.lower` on ASCII text.
- `labels.dfy` (module `Labels`) holds the column families that are melted
  and the `str.replace` chain applied to each. It proves where each raw
  column name ends up:
  - Adequacy and gap columns end up on the same ten resource labels:
    "Total Resources (Dollar Amount)", the per-student label and the eight
    staff types.
  - Actual columns end up on the total label and the eight staff types.
    There is no per-student actual column.
  - Per-school columns end up on "Adequacy Funding" and the eight staff
    types.
  - Within each of these lists no label repeats.
  - Demographic and revenue columns lose their " (%)" suffix.
- `frame.dfy` (module `Frame`) holds the table operations:
  - row selection by district name;
  - `pd.melt`, which is variable-major;
  - relabelling;
  - a left `pd.merge` on (RCDTS, Resource, Total ASE);
  - the column minimum;
  - `iloc[0]` on a filtered table.
- `metrics.dfy` (module `Metrics`) models `calculate_funding_metrics` and
  proves what it returns. It covers any selection, and in detail the case
  of one selected district.
- `display.dfy` (module `Display`) models:
  - the per-pupil arithmetic;
  - the total and per-pupil headline figures, including the fixed
    statewide gap of -5679275708;
  - the gap heading and its colour class;
  - the staffing sentence.

Behaviour of the code as written that the model keeps and proves:

- Three `str.replace` calls never fire.
  - Line 67 looks for "Adequate Target Per Student", but no column is
    named that.
  - Line 93 looks for "Resources Per Student", but no actual-level label
    ever contains it, before or after line 92. The actual melt (lines
    75-83) has no per-student column, and line 88 turns "Actual Resources"
    into plain "Resources".
  - Line 116 looks for "Adequacy Funding Gap Per Student", but line 115
    has already rewritten its prefix.
  - As a result, the per-student adequacy and gap rows are both labelled
    "Total Resources (Dollar Amount) Per Student". They still join each
    other. The actual table has no per-student column.
- Line 144 takes the minimum of the "Gaps" column, not of "Gaps Per
  School". So both returned minimums are the same value. Nothing
  downstream reads the second one.
- The merged table's per-school gap is missing on the two dollar rows. The
  per-school total is labelled "Adequacy Funding", which matches no
  resource label.
- A resource with no row in the merged table is reported as adequately
  staffed, because the code falls back to 0.
- A missing (NaN) gap takes the understaffed branch, because comparisons
  with NaN are false.

## Model

| member | source | states |
|---|---|---|
| `Frame.SelectDistrict` | peer_app.py:35-38 | the selection keeps exactly the rows whose district name equals the chosen name: every kept row has it, and every table row that has it is kept |
| `Frame.SelectDistrictAppend` | peer_app.py:35-38 | the filter keeps table order and multiplicity: selecting from `a + b` is selecting from `a` followed by selecting from `b` |
| `Frame.SelectDistrictOne` | peer_app.py:35-38 | a single row is kept exactly when it carries the name; with the row above this fixes the selection completely |
| `Frame.SelectDistrictIdempotent` | peer_app.py:35-38 | selecting the same name twice selects nothing more |
| `Frame.SelectUniqueDistrict` | peer_app.py:35-38 | when one row carries the name, the selection is that one row |
| `Text.Replace` | peer_app.py:65-67 | no contract of its own; Python's `str.replace` with a literal pattern: every non-overlapping occurrence, left to right, in one pass; what it does to the labels is stated by the three rows below and the `Labels` rows |
| `Text.ReplaceNoOccurrence` | peer_app.py:65-67 | `str.replace` with a pattern that does not occur leaves the label unchanged |
| `Text.ReplaceOnce` | peer_app.py:65-66 | for a label `a + pat + c`, exactly that occurrence is replaced (giving `a + rep + c`) when two witnesses hold: some pattern character `pat[k]` is missing from the window of the label where an occurrence starting inside `a` would need it, and some pattern character `pat[j]` is missing from `c` |
| `Text.ReplaceSuffix` | peer_app.py:141 | for a label `a + pat`, exactly the suffix is replaced (giving `a + rep`) when some pattern character `pat[k]` is missing both from `a` and from the pattern before position `k` |
| `Labels.NormalizeAdequacy` | peer_app.py:65-67 | no contract of its own; the three replacements of lines 65-67 in order; where each raw column lands is `Labels.AdequacyNormalization` |
| `Labels.AdequacyNormalization` | peer_app.py:47-67 | the ten adequacy columns become the ten resource labels, in order |
| `Labels.AdequacyLine67NeverFires` | peer_app.py:67 | the pattern of line 67 occurs in no label that line 67 is applied to |
| `Labels.NormalizeActual` | peer_app.py:88-93 | no contract of its own; the six replacements of lines 88-93 in order; where each raw column lands is `Labels.ActualNormalization` |
| `Labels.ActualNormalization` | peer_app.py:71-93 | the nine actual columns become the total label and the eight staff names, in order |
| `Labels.ActualLine93NeverFires` | peer_app.py:93 | the pattern of line 93 occurs in no label that line 93 is applied to |
| `Labels.NormalizeGap` | peer_app.py:115-118 | no contract of its own; the four replacements of lines 115-118 in order; where each raw column lands is `Labels.GapNormalization` |
| `Labels.GapNormalization` | peer_app.py:97-118 | the ten gap columns become the same ten resource labels as the adequacy columns, in order |
| `Labels.GapLine116NeverFires` | peer_app.py:115-116 | the pattern of line 116 occurs in the raw per-student gap column, but in no label after line 115 |
| `Labels.NormalizePerSchool` | peer_app.py:141 | no contract of its own; the one replacement of line 141; where each raw column lands is `Labels.PerSchoolNormalization` |
| `Labels.PerSchoolNormalization` | peer_app.py:124-141 | the nine per-school columns become "Adequacy Funding" and the eight staff names |
| `Labels.StripPercent` | peer_app.py:189 | no contract of its own; the " (%)" removal of lines 189 and 207; its effect is stated by the two rows below |
| `Labels.DemographicNormalization` | peer_app.py:175-189 | each demographic column becomes its group name without " (%)" |
| `Labels.RevenueNormalization` | peer_app.py:193-207 | each revenue column becomes its source name without " (%)" |
| `Labels.LabelListsDistinct` | peer_app.py:148-171 | the resource, actual and per-school label lists each have no repeats; the per-student label is in neither right-hand list; the total label is not a per-school label |
| `Frame.Melt` | peer_app.py:47-63 | a melt has one cell per (variable, row) pair, and every cell's variable is one of the melted columns |
| `Frame.MeltAt` | peer_app.py:47-63 | the cell at position `v * rows + j` holds row `j`'s value of variable `v` (variable-major order) |
| `Frame.MeltOrigin` | peer_app.py:47-63 | every melted cell holds some row's value of some melted column |
| `Frame.MeltSingle` | peer_app.py:47-63 | melting a single row lists its values in column order |
| `Frame.Relabel` | peer_app.py:65-67 | overwriting the Resource column changes each cell's label through the chain and keeps its value, RCDTS, district name and Total ASE, with the table's length and order unchanged |
| `Frame.Matching` | peer_app.py:148-153 | a row has no join partner exactly when no right-hand cell agrees on RCDTS, Resource and Total ASE |
| `Frame.MatchingAppend` | peer_app.py:148-153 | the partners' values are all matching values in right-hand order: matching against `a + b` is matching against `a` followed by `b` |
| `Frame.MatchingOne` | peer_app.py:148-153 | a single right-hand cell contributes its value exactly when its key agrees with the row |
| `Frame.JoinRow` | peer_app.py:148-153 | one left row becomes one row per partner, carrying that partner's value in right-hand order, or a single row with a missing value when it has none |
| `Frame.Lookup` | peer_app.py:148-153 | a merged value is missing exactly when there is no partner, and otherwise is some partner's value |
| `Frame.MatchingSingle` | peer_app.py:148-153 | a key met by exactly one right-hand cell joins that cell's value alone |
| `Frame.LeftJoin` | peer_app.py:148-171 | a left merge has at least as many rows as the left side; with unique keys it is the left rows in order, each with its looked-up value |
| `Frame.LeftJoinAppend` | peer_app.py:148-171 | whatever the keys, a left merge keeps left-hand order: merging `a + b` is merging `a` followed by merging `b` |
| `Frame.LeftJoinOne` | peer_app.py:148-171 | a single left row becomes exactly its `Frame.JoinRow` rows; with the row above, every left row yields its own rows, in left order |
| `Frame.LeftJoinHead` | peer_app.py:148-171 | the first merged row is the first left row with its first partner's value |
| `Frame.LeftJoinKeepsLeft` | peer_app.py:148-171 | every merged row is some left row with only the merged column set |
| `Frame.MinValue` | peer_app.py:120 | the minimum is missing (NaN) exactly for an empty column, and otherwise is at most every value and equal to one |
| `Frame.MeltedMinimum` | peer_app.py:120 | the minimum of a melted table is the least value of the melted columns over all rows, and is attained |
| `Frame.FirstWithResource` | peer_app.py:211-218 | `iloc[0]` of the filtered table fails exactly when no row has the label; otherwise it is the first row that has it |
| `Frame.FirstWithResourceAt` | peer_app.py:211-218 | a row carrying the label with none before it is the one picked |
| `Metrics.AdequacyTable` | peer_app.py:47-67 | no contract of its own; the melt of lines 47-63 relabelled by lines 65-67; its head is `Metrics.MergedHead`, its single-district form `Metrics.SingleDistrictMerge` |
| `Metrics.ActualTable` | peer_app.py:71-93 | no contract of its own; the melt of lines 71-86 relabelled by lines 88-93 |
| `Metrics.GapTable` | peer_app.py:97-118 | no contract of its own; the melt of lines 97-113 relabelled by lines 115-118; its minimum is `Metrics.NegativeGapIsLeast` |
| `Metrics.PerSchoolTable` | peer_app.py:124-141 | no contract of its own; the melt of lines 124-139 relabelled by line 141; `Metrics.PerSchoolLacksTotal` states what it lacks |
| `Metrics.DemographicTable` | peer_app.py:175-189 | no contract of its own; the melt of lines 175-187 relabelled by line 189; see `Metrics.SingleDemographics` |
| `Metrics.RevenueTable` | peer_app.py:193-207 | no contract of its own; the melt of lines 193-205 relabelled by line 207; see `Metrics.SingleRevenue` |
| `Metrics.MergedTable` | peer_app.py:148-171 | no contract of its own; the three left merges of lines 148-171 in order; `Metrics.MergedHead` and `Metrics.SingleDistrictMerge` state what it holds |
| `Metrics.CalculateFundingMetrics` | peer_app.py:42-220 | the call fails (IndexError) exactly when nothing was selected; otherwise it returns the first district's adequacy target, actual resources and Total ASE, and both returned minimums are equal |
| `Metrics.NegativeGapIsLeast` | peer_app.py:97-120 | the returned minimum is at most every gap figure of every selected district, and equals one of them |
| `Metrics.MergedHead` | peer_app.py:148-218 | the first merged row is the first district's total row: its target, its actual resources, its funding gap, and no per-school gap |
| `Metrics.PerSchoolLacksTotal` | peer_app.py:124-141 | no per-school cell carries the total label |
| `Metrics.SingleDistrictMerge` | peer_app.py:47-171 | for one district the merged table has exactly the ten resource rows, in order, each with that district's figures; actual is missing only on the per-student row, per-school gap only on the two dollar rows |
| `Metrics.SingleMerges` | peer_app.py:148-171 | the three merges of one district's melted tables give the expected ten rows |
| `Metrics.SingleJoinActual` | peer_app.py:148-153 | in the first merge of one district, each resource row meets at most one actual cell, and it is the expected one |
| `Metrics.SingleJoinGap` | peer_app.py:157-162 | in the second merge, each resource row meets exactly its own gap cell |
| `Metrics.SingleJoinPerSchool` | peer_app.py:166-171 | in the third merge, each staff row meets its per-school cell and the two dollar rows meet none |
| `Metrics.SingleDemographics` | peer_app.py:175-189 | one district's demographic table lists its nine percentages under the group names |
| `Metrics.SingleRevenue` | peer_app.py:193-207 | one district's revenue table lists its five percentages under the source names |
| `Display.PerPupil` | peer_app.py:493-494 | with a positive Total ASE, the per-pupil figure times ASE is the amount; otherwise it is 0 |
| `Display.HeadlineFigures` | peer_app.py:493-517 | in total: adequate and actual unchanged, a district's gap is actual minus adequate, Illinois shows the fixed statewide gap; per pupil with a positive ASE: each figure times ASE gives its total figure (the Illinois gap gives the least gap); per pupil without one: all three are 0 |
| `Display.IllinoisViewsAgree` | peer_app.py:495-514 | for Illinois the two views give the same gap exactly when the least gap equals -5679275708 |
| `Display.HeadingFor` | peer_app.py:600-605 | no contract of its own; the subheader is "Funding Gap" for a gap below zero and "Funding Surplus" otherwise; compared with the colour in `Display.HeadingAndClass` |
| `Display.ClassFor` | peer_app.py:599 | no contract of its own; the colour class as written, gap-positive only above zero; compared with the heading in `Display.HeadingAndClass` |
| `Display.HeadingAndClass` | peer_app.py:599-607 | the heading says "Funding Gap" exactly below zero and the class is gap-positive exactly above zero, so they agree for every non-zero gap; a zero gap is headed as a surplus but coloured as a gap |
| `Display.MatchingClassFor` | peer_app.py:599-605 | no contract of its own; the corrected colour class, gap-positive unless the gap is below zero; its agreement with the heading is `Display.MatchingClassAgrees` |
| `Display.MatchingClassAgrees` | peer_app.py:599-607 | a class that is gap-positive exactly when the gap is not below zero always agrees with the heading, and differs from the written class only at zero |
| `Display.GapOrZero` | peer_app.py:700-701 | the figure is 0 when the merged table lacks the resource; otherwise it is the first matching row's column |
| `Display.Judge` | peer_app.py:703-712 | "adequately staffed" exactly when the figure is a number at least 0; otherwise the shortfall is the figure's magnitude (positive), or NaN for a NaN figure |
| `Display.StaffingMessageFor` | peer_app.py:700-712 | the sentence names the lower-cased resource type; its scope is the state for Illinois and per school otherwise |
| `Display.MissingResourceIsStaffed` | peer_app.py:700-712 | a resource that is absent from the merged table is reported as adequately staffed |
| `Display.StaffingFromRow` | peer_app.py:683-712 | over the ten resource rows, staff type `k` is judged on row `k + 2`: its gap for Illinois, its per-school gap otherwise |
| `Display.SingleDistrictStaffing` | peer_app.py:683-712 | for one district and staff type, the sentence is decided by that district's own gap (Illinois) or gap per school (district); the shortfall is that figure negated |
| `Text.LowerChar` | peer_app.py:702 | an ASCII capital becomes the small letter 32 code points above it; any other character is kept |
| `Text.Lower` | peer_app.py:702 | lower-casing keeps the length, turns each ASCII capital into the small letter 32 code points above it, keeps every other character, and leaves no capital |
| `Text.LowerIdempotent` | peer_app.py:702 | lower-casing twice is the same as lower-casing once |

## Left out

- Streamlit rendering is not modelled: page layout, CSS, charts, fonts,
  number formatting (`:,.0f`, `:.2f`) and the text of the sentences. The
  model keeps which heading, class and sentence are chosen, and the
  numbers that go into them.
- `load_data` is file I/O and is not modelled. The district table is a
  parameter.
- `@st.cache_data` caching is not modelled. It does not change results.
- The district and resource dropdowns and `st.session_state` are
  parameters: the chosen name, `isIllinois` and `perPupil`.
- The legislative-district tab is not part of this model. Neither is
  `adequacy_level` (line 352), nor any code outside the functions and
  lines cited above.
- Floating point is not modelled. Figures are exact reals.
  - NaN appears only where the core itself produces it: an unmatched
    merge, or the minimum of an empty column. It is modelled as a missing
    (`None`) value.
  - NaN values inside the data, and NaN merge keys, are not modelled.
  - The display arithmetic takes the actual resources and the minimum as
    numbers. `Metrics.CalculateFundingMetrics` and
    `Metrics.NegativeGapIsLeast` prove that both are present whenever a
    district is selected.
- An empty selection is not a dashboard state. The dropdown offers only the
  table's own district names (lines 328 and 349), so the selection always
  has a row. Were it empty, line 352 (`adequacy_level`) would raise
  IndexError before the funding metrics are computed.
  `Metrics.CalculateFundingMetrics` on its own still models that case: it
  fails with IndexError.
- Missing columns raise pandas KeyError. The model instead requires every
  melted column to be present (`HasSchema`, `Schema`).
- Identifying columns: melted cells carry RCDTS, district name and Total
  ASE even where a melt keeps fewer of them. The merges use only RCDTS,
  Resource and Total ASE, as the source does.
- A merge with duplicate keys is modelled by `Frame.LeftJoin`, and its
  order is stated in general by `Frame.LeftJoinAppend`,
  `Frame.LeftJoinOne` and `Frame.JoinRow`. The detailed single-district
  theorems cover the unique-key case, which is the case of one district.
  With several selected districts, only the first merged row and the
  minimum are characterised.
- `Text.Lower` lower-cases ASCII letters only, which covers every
  resource label the dashboard offers. Unicode case mapping is not
  modelled.

## Findings

| source | as written | input that shows it | evidently intended | confidence | as-written member | corrected member |
|---|---|---|---|---|---|---|
| peer_app.py:599-607 | the colour class is "gap-negative" for every gap that is not above zero, while the heading says "Surplus" for every gap that is not below zero | a displayed gap of exactly 0: headed "School Funding Surplus" but coloured as a gap | the colour follows the heading, so a zero gap is coloured as a surplus | low, not executed | `Display.HeadingAndClass` | `Display.MatchingClassAgrees` |
