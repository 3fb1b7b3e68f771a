/**
 * What the dashboard shows from the funding metrics: the headline
 * adequate, actual and gap figures in total or per pupil, the gap
 * heading and its colour class, and the staffing sentence for one
 * resource type.
 */
module Display {
  import opened Text
  import opened Labels
  import opened Frame
  import opened Metrics

  /** The statewide funding gap the dashboard shows in total mode (line 514). */
  const IllinoisGap: real := -5679275708.0

  /** `amount / ase if ase > 0 else 0` (lines 493-498). */
  function PerPupil(amount: real, ase: real): (r: real)
    ensures ase > 0.0 ==> r * ase == amount
    ensures ase <= 0.0 ==> r == 0.0
  {
    if ase > 0.0 then amount / ase else 0.0
  }

  /** The three headline figures. */
  datatype Figures = Figures(adequate: real, actual: real, gap: real)

  /**
   * Lines 493-517. In total the adequate and actual figures are shown as
   * they are, and the gap is actual minus adequate, or the fixed statewide
   * figure for Illinois. Per pupil, with a positive Total ASE, every figure
   * is its total counterpart divided by the ASE, except that the Illinois
   * gap divides the least gap of the gap table; without one, all are zero.
   */
  function HeadlineFigures(actual: real, adequate: real, ase: real, negativeGap: real,
                           isIllinois: bool, perPupil: bool): (f: Figures)
    ensures !perPupil ==>
      f.adequate == adequate && f.actual == actual
      && (isIllinois ==> f.gap == IllinoisGap)
      && (!isIllinois ==> f.gap + adequate == actual)
    ensures perPupil && ase > 0.0 ==>
      f.adequate * ase == adequate && f.actual * ase == actual
      && (isIllinois ==> f.gap * ase == negativeGap)
      && (!isIllinois ==> f.gap * ase == actual - adequate)
    ensures perPupil && ase <= 0.0 ==> f == Figures(0.0, 0.0, 0.0)
  {
    var actualPerPupil := PerPupil(actual, ase);
    var adequatePerPupil := PerPupil(adequate, ase);
    var gapPerPupil := if isIllinois then PerPupil(negativeGap, ase) else actualPerPupil - adequatePerPupil;
    assert (actualPerPupil - adequatePerPupil) * ase == actualPerPupil * ase - adequatePerPupil * ase;
    if perPupil then Figures(adequatePerPupil, actualPerPupil, gapPerPupil)
    else Figures(adequate, actual, if isIllinois then IllinoisGap else actual - adequate)
  }

  /**
   * For Illinois the per-pupil gap and the total gap describe the same
   * shortfall only when the least gap of the gap table is the fixed
   * statewide figure.
   */
  lemma IllinoisViewsAgree(actual: real, adequate: real, ase: real, negativeGap: real)
    requires ase > 0.0
    ensures HeadlineFigures(actual, adequate, ase, negativeGap, true, true).gap * ase
              == HeadlineFigures(actual, adequate, ase, negativeGap, true, false).gap
            <==> negativeGap == IllinoisGap
  {
  }

  // ---------------------------------------------------------------------
  // Gap heading and colour (lines 599-607)
  // ---------------------------------------------------------------------

  datatype Heading = SchoolFundingGap | SchoolFundingSurplus
  datatype GapClass = GapPositive | GapNegative

  /** The subheader: a gap below zero, a surplus otherwise. */
  function HeadingFor(gap: real): Heading
  {
    if gap < 0.0 then SchoolFundingGap else SchoolFundingSurplus
  }

  /** The colour class as written: positive above zero, negative otherwise. */
  function ClassFor(gap: real): GapClass
  {
    if gap > 0.0 then GapPositive else GapNegative
  }

  /**
   * Heading and colour agree away from zero; a gap of exactly zero is
   * headed as a surplus but coloured as a gap.
   */
  lemma HeadingAndClass(gap: real)
    ensures gap != 0.0 ==> (HeadingFor(gap) == SchoolFundingGap <==> ClassFor(gap) == GapNegative)
    ensures gap == 0.0 ==> HeadingFor(gap) == SchoolFundingSurplus && ClassFor(gap) == GapNegative
  {
  }

  /** The colour class that follows the heading: positive unless the gap is below zero. */
  function MatchingClassFor(gap: real): GapClass
  {
    if gap >= 0.0 then GapPositive else GapNegative
  }

  /** The corrected colour always agrees with the heading, and differs from the written one only at zero. */
  lemma MatchingClassAgrees(gap: real)
    ensures HeadingFor(gap) == SchoolFundingGap <==> MatchingClassFor(gap) == GapNegative
    ensures MatchingClassFor(gap) != ClassFor(gap) <==> gap == 0.0
  {
  }

  // ---------------------------------------------------------------------
  // Staffing sentence (lines 683-712)
  // ---------------------------------------------------------------------

  /** Whose staffing the sentence is about. */
  datatype Scope = Statewide | PerSchoolInDistrict

  /**
   * The sentence shown: adequately staffed, or a shortfall of `shortfall`
   * staff (missing when the gap is NaN), for the lower-cased resource type.
   */
  datatype StaffingMessage =
    | AdequatelyStaffed(scope: Scope, resourceType: string)
    | Understaffed(scope: Scope, shortfall: Option<real>, resourceType: string)

  /**
   * `df_resource[column].iloc[0] if not df_resource.empty else 0`: the
   * first merged row with the resource label, or zero when there is none.
   */
  function GapOrZero(merged: seq<ResourceRow>, resource: string, col: Column): (g: Option<real>)
    ensures (forall i | 0 <= i < |merged| :: merged[i].resource != resource) ==> g == Some(0.0)
    ensures (exists i | 0 <= i < |merged| :: merged[i].resource == resource) ==>
      exists i | 0 <= i < |merged| :: merged[i].resource == resource && g == Get(merged[i], col)
        && forall j | 0 <= j < i :: merged[j].resource != resource
  {
    match FirstWithResource(merged, resource)
    case None => Some(0.0)
    case Some(row) => Get(row, col)
  }

  /** NaN compares false, so a missing gap takes the understaffed branch with a NaN shortfall. */
  function Judge(gap: Option<real>, scope: Scope, resourceType: string): (m: StaffingMessage)
    ensures m.scope == scope && m.resourceType == resourceType
    ensures m.AdequatelyStaffed? <==> gap.Some? && gap.value >= 0.0
    ensures m.Understaffed? && gap.Some? ==> m.shortfall == Some(-gap.value) && m.shortfall.value > 0.0
    ensures m.Understaffed? && gap.None? ==> m.shortfall.None?
  {
    match gap
    case Some(g) =>
      if g >= 0.0 then AdequatelyStaffed(scope, resourceType)
      else Understaffed(scope, Some(if g < 0.0 then -g else g), resourceType)
    case None => Understaffed(scope, None, resourceType)
  }

  /**
   * Lines 696-712: Illinois is judged on the whole gap of the resource,
   * a district on its gap per school.
   */
  function StaffingMessageFor(merged: seq<ResourceRow>, resource: string, isIllinois: bool): (m: StaffingMessage)
    ensures m.resourceType == Lower(resource)
    ensures m.scope == (if isIllinois then Statewide else PerSchoolInDistrict)
  {
    var perSchool := GapOrZero(merged, resource, GapsPerSchool);
    var gap := GapOrZero(merged, resource, Gaps);
    if isIllinois then Judge(gap, Statewide, Lower(resource))
    else Judge(perSchool, PerSchoolInDistrict, Lower(resource))
  }

  /** A resource the merged table lacks is reported as adequately staffed. */
  lemma MissingResourceIsStaffed(merged: seq<ResourceRow>, resource: string, isIllinois: bool)
    requires forall i | 0 <= i < |merged| :: merged[i].resource != resource
    ensures StaffingMessageFor(merged, resource, isIllinois).AdequatelyStaffed?
  {
  }

  /**
   * Over a merged table holding the ten resource rows in order, the
   * sentence for staff resource `k` is decided by that row's gap (for
   * Illinois) or gap per school (for a district).
   */
  lemma StaffingFromRow(merged: seq<ResourceRow>, k: nat, isIllinois: bool)
    requires k < 8 && |merged| == 10
    requires forall i | 0 <= i < 10 :: merged[i].resource == ResourceLabels[i]
    ensures var figure := if isIllinois then merged[k + 2].gaps else merged[k + 2].gapsPerSchool;
      StaffingMessageFor(merged, StaffNames[k], isIllinois)
        == Judge(figure, if isIllinois then Statewide else PerSchoolInDistrict, Lower(StaffNames[k]))
  {
    LabelAlignment();
    LabelListsDistinct();
    forall j | 0 <= j < k + 2 ensures merged[j].resource != StaffNames[k] {
      assert ResourceLabels[j] != ResourceLabels[k + 2];
    }
    FirstWithResourceAt(merged, StaffNames[k], k + 2);
  }

  /**
   * For one selected district and staff resource `k`, the sentence is
   * decided by that district's own figure: its gap for Illinois, its gap
   * per school otherwise; a shortfall is that figure's magnitude.
   */
  lemma SingleDistrictStaffing(d: District, k: nat, isIllinois: bool)
    requires Schema(d) && k < 8
    ensures HasSchema([d])
    ensures var figure := if isIllinois then d.values[GapFields[k + 2]] else d.values[PerSchoolFields[k + 1]];
      var m := StaffingMessageFor(MergedTable([d]), StaffNames[k], isIllinois);
      (m.AdequatelyStaffed? <==> figure >= 0.0)
      && (m.Understaffed? ==> m.shortfall == Some(-figure))
  {
    SingleDistrictMerge(d);
    var merged := MergedTable([d]);
    StaffingFromRow(merged, k, isIllinois);
    assert merged[k + 2] == ExpectedRow(d, k + 2);
  }
}
