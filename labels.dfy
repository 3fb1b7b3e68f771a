/**
 * The column families that `calculate_funding_metrics` melts, and the chains
 * of `str.replace` calls that turn each raw column name into the label the
 * merges join on.
 */
module Labels {
  import opened Text

  // ---------------------------------------------------------------------
  // Canonical labels
  // ---------------------------------------------------------------------

  /** The label of the aggregate dollar row, and the filter the summary selects by. */
  const TotalLabel: string := "Total Resources (Dollar Amount)"

  /** What the per-student adequacy target is actually relabelled to. */
  const PerStudentLabel: string := "Total Resources (Dollar Amount) Per Student"

  /** The replacement of lines 67, 93 and 116; no chain ever produces it. */
  const TotalPerStudentLabel: string := "Total Resources Per Student (Dollar Amount)"

  /** What the per-school aggregate gap is relabelled to; no adequacy label equals it. */
  const PerSchoolTotalLabel: string := "Adequacy Funding"

  /** The eight staff categories, in the order every family lists them. */
  const StaffNames: seq<string> := [
    "Core and Specialist Teachers",
    "Special Education Teachers",
    "Counselors",
    "Nurses",
    "Psychologists",
    "Principals",
    "Assistant Principals",
    "EL Teachers"
  ]

  /** The labels of the adequacy (and gap) family after normalisation, in melt order. */
  const ResourceLabels: seq<string> := [TotalLabel, PerStudentLabel] + StaffNames

  /** The labels of the actual-level family after normalisation. */
  const ActualLabels: seq<string> := [TotalLabel] + StaffNames

  /** The labels of the per-school family after normalisation. */
  const PerSchoolLabels: seq<string> := [PerSchoolTotalLabel] + StaffNames

  // ---------------------------------------------------------------------
  // The patterns the chains look for
  // ---------------------------------------------------------------------

  const AdequatePrefix: string := "Adequate "                        // line 65
  const AdequacyTarget: string := "Adequacy Target"                  // line 66
  const AdequateTargetPerStudent: string := "Adequate Target Per Student" // line 67
  const ActualPrefix: string := "Actual "                            // line 88
  const CountEis: string := " Count (EIS)"                           // line 89
  const Eis: string := " (EIS)"                                      // line 90
  const CountIrc: string := " Count (IRC)"                           // line 91
  const Resources: string := "Resources"                             // line 92
  const ResourcesPerStudent: string := "Resources Per Student"       // line 93
  const FundingGap: string := "Adequacy Funding Gap"                 // line 115
  const FundingGapPerStudent: string := "Adequacy Funding Gap Per Student" // line 116
  const GapEis: string := " Gap (EIS)"                               // line 117
  const GapIrc: string := " Gap (IRC)"                               // line 118
  const GapPerSchool: string := " Gap Per School"                    // line 141
  const Percent: string := " (%)"                                    // lines 189 and 207

  /** The suffix that distinguishes the per-student columns. */
  const PerStudent: string := " Per Student"

  // ---------------------------------------------------------------------
  // Raw column names (the `value_vars` of each melt), entry by entry in
  // the order the source lists them, spelled as prefix, name and suffix
  // ---------------------------------------------------------------------

  /** Lines 51-60. */
  const AdequacyFields: seq<string> := [
    AdequacyTarget,
    AdequacyTarget + PerStudent,
    AdequatePrefix + StaffNames[0],
    AdequatePrefix + StaffNames[1],
    AdequatePrefix + StaffNames[2],
    AdequatePrefix + StaffNames[3],
    AdequatePrefix + StaffNames[4],
    AdequatePrefix + StaffNames[5],
    AdequatePrefix + StaffNames[6],
    AdequatePrefix + StaffNames[7]
  ]

  /** Lines 75-83: the IRC-counted staff carry " Count (IRC)", EL teachers a bare " (EIS)". */
  const ActualFields: seq<string> := [
    ActualPrefix + Resources,
    ActualPrefix + StaffNames[0] + CountEis,
    ActualPrefix + StaffNames[1] + CountEis,
    ActualPrefix + StaffNames[2] + CountIrc,
    ActualPrefix + StaffNames[3] + CountIrc,
    ActualPrefix + StaffNames[4] + CountIrc,
    ActualPrefix + StaffNames[5] + CountEis,
    ActualPrefix + StaffNames[6] + CountEis,
    ActualPrefix + StaffNames[7] + Eis
  ]

  /** Lines 101-110. */
  const GapFields: seq<string> := [
    FundingGap,
    FundingGap + PerStudent,
    StaffNames[0] + GapEis,
    StaffNames[1] + GapEis,
    StaffNames[2] + GapIrc,
    StaffNames[3] + GapIrc,
    StaffNames[4] + GapIrc,
    StaffNames[5] + GapEis,
    StaffNames[6] + GapEis,
    StaffNames[7] + GapEis
  ]

  /** Lines 128-136: "Adequacy Funding Gap Per School" and one column per staff category. */
  const PerSchoolFields: seq<string> := [
    PerSchoolTotalLabel + GapPerSchool,
    StaffNames[0] + GapPerSchool,
    StaffNames[1] + GapPerSchool,
    StaffNames[2] + GapPerSchool,
    StaffNames[3] + GapPerSchool,
    StaffNames[4] + GapPerSchool,
    StaffNames[5] + GapPerSchool,
    StaffNames[6] + GapPerSchool,
    StaffNames[7] + GapPerSchool
  ]

  /** The demographic groups of lines 179-181. */
  const DemographicGroups: seq<string> := [
    "White", "Black", "Latine", "Asian",
    "Native Hawaiian or Other Pacific Islander",
    "American Indian or Alaska Native", "IEP", "EL", "Low Income"
  ]

  /** Lines 179-181: each group followed by " (%)". */
  const DemographicFields: seq<string> := [
    DemographicGroups[0] + Percent, DemographicGroups[1] + Percent,
    DemographicGroups[2] + Percent, DemographicGroups[3] + Percent,
    DemographicGroups[4] + Percent, DemographicGroups[5] + Percent,
    DemographicGroups[6] + Percent, DemographicGroups[7] + Percent,
    DemographicGroups[8] + Percent
  ]

  /** The revenue sources of lines 197-199. */
  const RevenueSources: seq<string> := [
    "Local Property Taxes", "Other Local Funding",
    "Evidence-Based Funding", "Other State Funding",
    "Federal Funding"
  ]

  /** Lines 197-199: each source followed by " (%)". */
  const RevenueFields: seq<string> := [
    RevenueSources[0] + Percent, RevenueSources[1] + Percent,
    RevenueSources[2] + Percent, RevenueSources[3] + Percent,
    RevenueSources[4] + Percent
  ]

  // ---------------------------------------------------------------------
  // Normalisation chains, one `str.replace` per source line
  // ---------------------------------------------------------------------

  /** Lines 65-66 of the adequacy chain. */
  function AdequacyStep2(l: string): string {
    Replace(Replace(l, AdequatePrefix, ""), AdequacyTarget, TotalLabel)
  }

  /** The adequacy chain (lines 65-67); line 67 never fires, see AdequacyLine67NeverFires. */
  function NormalizeAdequacy(l: string): string {
    Replace(AdequacyStep2(l), AdequateTargetPerStudent, TotalPerStudentLabel)
  }

  /** Lines 88-92 of the actual-level chain. */
  function ActualStep5(l: string): string {
    Replace(Replace(Replace(Replace(Replace(l,
      ActualPrefix, ""), CountEis, ""), Eis, ""), CountIrc, ""), Resources, TotalLabel)
  }

  /** The actual-level chain (lines 88-93); line 93 never fires, see ActualLine93NeverFires. */
  function NormalizeActual(l: string): string {
    Replace(ActualStep5(l), ResourcesPerStudent, TotalPerStudentLabel)
  }

  /** Line 115 of the gap chain. */
  function GapStep1(l: string): string {
    Replace(l, FundingGap, TotalLabel)
  }

  /** Lines 116-118 of the gap chain. */
  function GapTail(l: string): string {
    Replace(Replace(Replace(l, FundingGapPerStudent, TotalPerStudentLabel), GapEis, ""), GapIrc, "")
  }

  /** The gap chain (lines 115-118); line 116 never fires, see GapLine116NeverFires. */
  function NormalizeGap(l: string): string {
    GapTail(GapStep1(l))
  }

  /** The per-school chain (line 141). */
  function NormalizePerSchool(l: string): string {
    Replace(l, GapPerSchool, "")
  }

  /** The suffix strip shared by demographics and revenue (lines 189 and 207). */
  function StripPercent(l: string): string {
    Replace(l, Percent, "")
  }

  /** No two entries of `s` are equal. */
  predicate Distinct(s: seq<string>) {
    forall i, j | 0 <= i < j < |s| :: s[i] != s[j]
  }

  // ---------------------------------------------------------------------
  // Facts about the names that the chains rely on
  // ---------------------------------------------------------------------

  /** A character that none of the patterns the chains look for inside a name starts from. */
  predicate NameChar(c: char) {
    c != 'A' && c != 'q' && c != '(' && c != 'R' && c != 'G'
  }

  /**
   * What the chains rely on in a staff name: it has no 'q', '(', 'R' or 'G',
   * no 'A' after its first character, and its second character is not 'c'.
   */
  predicate PlainName(n: string) {
    && |n| >= 2 && n[1] != 'c'
    && n[0] != 'q' && n[0] != '(' && n[0] != 'R' && n[0] != 'G'
    && forall i | 1 <= i < |n| :: NameChar(n[i])
  }

  /** Staff names whose actual and gap columns carry the "(IRC)" suffix also have no 'E'. */
  predicate IrcName(n: string) {
    PlainName(n) && Lacks(n, 'E')
  }

  lemma PlainNameLacks(n: string)
    requires PlainName(n)
    ensures Lacks(n, 'q') && Lacks(n, '(') && Lacks(n, 'R') && Lacks(n, 'G')
    ensures Lacks(n[1..], 'A')
  {
    forall i | 0 <= i < |n| - 1 ensures n[1..][i] != 'A' {
      assert n[1..][i] == n[i + 1];
    }
  }

  lemma PlainCoreTeachers() ensures PlainName(StaffNames[0]) {}
  lemma PlainSpecialEducation() ensures PlainName(StaffNames[1]) {}
  lemma PlainCounselors() ensures IrcName(StaffNames[2]) {}
  lemma PlainNurses() ensures IrcName(StaffNames[3]) {}
  lemma PlainPsychologists() ensures IrcName(StaffNames[4]) {}
  lemma PlainPrincipals() ensures PlainName(StaffNames[5]) {}
  lemma PlainAssistantPrincipals() ensures PlainName(StaffNames[6]) {}
  lemma PlainElTeachers() ensures PlainName(StaffNames[7]) && Lacks(StaffNames[7], 'C') {}

  /** Every staff name has the characters the chains rely on. */
  lemma StaffNamesPlain()
    ensures |StaffNames| == 8
    ensures forall k | 0 <= k < 8 :: PlainName(StaffNames[k]) && (IrcStaff(k) ==> IrcName(StaffNames[k]))
    ensures Lacks(StaffNames[7], 'C')
  {
    PlainCoreTeachers();
    PlainSpecialEducation();
    PlainCounselors();
    PlainNurses();
    PlainPsychologists();
    PlainPrincipals();
    PlainAssistantPrincipals();
    PlainElTeachers();
  }

  /** The characters of the Total label that rule out the later patterns. */
  lemma TotalLabelLacks()
    ensures Lacks(TotalLabel, 'q') && Lacks(TotalLabel, 'G') && Lacks(TotalLabel, 'P')
  {
  }

  /** The per-student label is the Total label followed by " Per Student". */
  lemma PerStudentLabelShape()
    ensures PerStudentLabel == TotalLabel + PerStudent
    ensures Lacks(PerStudent, 'A') && Lacks(PerStudent, 'q') && Lacks(PerStudent, 'G')
  {
  }

  // ---------------------------------------------------------------------
  // How each raw column name is put together
  // ---------------------------------------------------------------------

  /** Whether staff category `k` is counted from the IRC source rather than EIS. */
  predicate IrcStaff(k: nat) {
    2 <= k <= 4
  }

  /** The suffix of staff category `k`'s actual-level column. */
  function ActualSuffix(k: nat): string {
    if IrcStaff(k) then CountIrc else if k == 7 then Eis else CountEis
  }

  /** The suffix of staff category `k`'s gap column. */
  function GapSuffix(k: nat): string {
    if IrcStaff(k) then GapIrc else GapEis
  }

  lemma AdequacyStaffFields()
    ensures |AdequacyFields| == 10
    ensures forall k | 0 <= k < 8 :: AdequacyFields[k + 2] == AdequatePrefix + StaffNames[k]
  {
  }

  lemma ActualStaffFields()
    ensures |ActualFields| == 9
    ensures forall k | 0 <= k < 8 :: ActualFields[k + 1] == ActualPrefix + StaffNames[k] + ActualSuffix(k)
  {
  }

  lemma GapStaffFields()
    ensures |GapFields| == 10
    ensures forall k | 0 <= k < 8 :: GapFields[k + 2] == StaffNames[k] + GapSuffix(k)
  {
  }

  lemma PerSchoolFieldsShape()
    ensures |PerSchoolFields| == |PerSchoolLabels| == 9
    ensures forall i | 0 <= i < 9 :: PerSchoolFields[i] == PerSchoolLabels[i] + GapPerSchool
  {
  }

  lemma DemographicFieldsShape()
    ensures |DemographicFields| == |DemographicGroups| == 9
    ensures forall i | 0 <= i < 9 :: DemographicFields[i] == DemographicGroups[i] + Percent
  {
  }

  lemma RevenueFieldsShape()
    ensures |RevenueFields| == |RevenueSources| == 5
    ensures forall i | 0 <= i < 5 :: RevenueFields[i] == RevenueSources[i] + Percent
  {
  }

  /** No demographic group contains '('. */
  lemma DemographicGroupsPlain()
    ensures forall i | 0 <= i < |DemographicGroups| :: Lacks(DemographicGroups[i], '(')
  {
  }

  /** No revenue source contains '('. */
  lemma RevenueSourcesPlain()
    ensures forall i | 0 <= i < |RevenueSources| :: Lacks(RevenueSources[i], '(')
  {
  }

  // ---------------------------------------------------------------------
  // Adequacy chain (lines 65-67)
  // ---------------------------------------------------------------------

  /** Line 65 strips "Adequate " from a staff column. */
  lemma AdequateStrip(n: string)
    requires Lacks(n, 'q')
    ensures Replace(AdequatePrefix + n, AdequatePrefix, "") == n
  {
    ReplaceAtHead(AdequatePrefix, n, "");
    ReplaceAbsent(n, AdequatePrefix, "", 3);
    assert "" + n == n;
  }

  /** Lines 66-67 leave a name without 'q' alone. */
  lemma AdequacyTailSkips(n: string)
    requires Lacks(n, 'q')
    ensures Replace(n, AdequacyTarget, TotalLabel) == n
    ensures Replace(n, AdequateTargetPerStudent, TotalPerStudentLabel) == n
  {
    ReplaceAbsent(n, AdequacyTarget, TotalLabel, 3);
    ReplaceAbsent(n, AdequateTargetPerStudent, TotalPerStudentLabel, 3);
  }

  /** "Adequate X" becomes X (line 65) and lines 66-67 leave X alone. */
  lemma AdequacyStaff(n: string)
    requires PlainName(n)
    ensures AdequacyStep2(AdequatePrefix + n) == n
    ensures NormalizeAdequacy(AdequatePrefix + n) == n
  {
    PlainNameLacks(n);
    AdequateStrip(n);
    AdequacyTailSkips(n);
  }

  /** Line 65 does not fire on a label that starts "Adequacy Target". */
  lemma AdequateSkipsTarget(t: string)
    requires Lacks(t, 'A')
    ensures Replace(AdequacyTarget + t, AdequatePrefix, "") == AdequacyTarget + t
  {
    var a := AdequacyTarget[..1];
    var rest := AdequacyTarget[1..];
    var b := rest + t;
    assert AdequacyTarget == a + rest;
    AppendAssoc(a, rest, t);
    assert (a + b)[6..7] == [AdequacyTarget[6]];
    ReplaceSkip(a, b, AdequatePrefix, "", 6);
    assert Lacks(rest, 'A');
    LacksAppend(rest, t, 'A');
    ReplaceAbsent(b, AdequatePrefix, "", 0);
  }

  /** "Adequacy Target" followed by `t` becomes the Total label followed by `t` (line 66). */
  lemma AdequacyTargetStep(t: string)
    requires Lacks(t, 'A') && Lacks(t, 'q')
    ensures AdequacyStep2(AdequacyTarget + t) == TotalLabel + t
  {
    AdequateSkipsTarget(t);
    assert "" + AdequacyTarget + t == AdequacyTarget + t;
    ReplaceOnce("", AdequacyTarget, t, TotalLabel, 0, 3);
    assert "" + TotalLabel + t == TotalLabel + t;
  }

  /** Line 67 leaves the Total label, and anything after it without 'q', alone. */
  lemma TotalSkipsLine67(t: string)
    requires Lacks(t, 'q')
    ensures Replace(TotalLabel + t, AdequateTargetPerStudent, TotalPerStudentLabel) == TotalLabel + t
  {
    TotalLabelLacks();
    LacksAppend(TotalLabel, t, 'q');
    ReplaceAbsent(TotalLabel + t, AdequateTargetPerStudent, TotalPerStudentLabel, 3);
  }

  /** The whole adequacy chain on "Adequacy Target" followed by `t`. */
  lemma AdequacyTargetLabel(t: string)
    requires Lacks(t, 'A') && Lacks(t, 'q')
    ensures AdequacyStep2(AdequacyTarget + t) == TotalLabel + t
    ensures NormalizeAdequacy(AdequacyTarget + t) == TotalLabel + t
  {
    AdequacyTargetStep(t);
    TotalSkipsLine67(t);
  }

  /** The first adequacy column becomes the Total label. */
  lemma AdequacyTotal()
    ensures AdequacyStep2(AdequacyTarget) == TotalLabel
    ensures NormalizeAdequacy(AdequacyTarget) == TotalLabel
  {
    AdequacyTargetLabel("");
    assert AdequacyTarget + "" == AdequacyTarget;
    assert TotalLabel + "" == TotalLabel;
  }

  /**
   * The per-student adequacy column is relabelled by line 66, not line 67:
   * it becomes the Total label followed by " Per Student".
   */
  lemma AdequacyPerStudent()
    ensures AdequacyStep2(AdequacyTarget + PerStudent) == PerStudentLabel
    ensures NormalizeAdequacy(AdequacyTarget + PerStudent) == PerStudentLabel
  {
    PerStudentLabelShape();
    AdequacyTargetLabel(PerStudent);
  }

  // ---------------------------------------------------------------------
  // Actual-level chain (lines 88-93)
  // ---------------------------------------------------------------------

  /** Line 88 strips the "Actual " prefix from a staff column and nothing else. */
  lemma ActualStripsPrefix(n: string, sfx: string)
    requires PlainName(n) && Lacks(sfx, 'A')
    ensures Replace(ActualPrefix + n + sfx, ActualPrefix, "") == n + sfx
  {
    PlainNameLacks(n);
    var b := n[1..] + sfx;
    assert ActualPrefix + n + sfx == ActualPrefix + (n[..1] + b);
    ReplaceAtHead(ActualPrefix, n[..1] + b, "");
    assert (n[..1] + b)[1..2] == [n[1]];
    ReplaceSkip(n[..1], b, ActualPrefix, "", 1);
    LacksAppend(n[1..], sfx, 'A');
    ReplaceAbsent(b, ActualPrefix, "", 0);
    assert "" + (n[..1] + b) == n + sfx;
  }

  /** Lines 92-93 leave a staff name alone. */
  lemma ActualTail(n: string)
    requires PlainName(n)
    ensures Replace(n, Resources, TotalLabel) == n
    ensures Replace(n, ResourcesPerStudent, TotalPerStudentLabel) == n
  {
    PlainNameLacks(n);
    ReplaceAbsent(n, Resources, TotalLabel, 0);
    ReplaceAbsent(n, ResourcesPerStudent, TotalPerStudentLabel, 0);
  }

  /** "Actual X Count (EIS)" becomes X (line 89). */
  lemma ActualCountEis(n: string)
    requires PlainName(n)
    ensures ActualStep5(ActualPrefix + n + CountEis) == n
    ensures NormalizeActual(ActualPrefix + n + CountEis) == n
  {
    PlainNameLacks(n);
    ActualStripsPrefix(n, CountEis);
    ReplaceSuffix(n, CountEis, "", 7);
    assert n + "" == n;
    ReplaceAbsent(n, Eis, "", 1);
    ReplaceAbsent(n, CountIrc, "", 7);
    ActualTail(n);
  }

  /** "Actual X Count (IRC)" becomes X (line 91); lines 89-90 need the missing 'E'. */
  lemma ActualCountIrc(n: string)
    requires IrcName(n)
    ensures ActualStep5(ActualPrefix + n + CountIrc) == n
    ensures NormalizeActual(ActualPrefix + n + CountIrc) == n
  {
    PlainNameLacks(n);
    ActualStripsPrefix(n, CountIrc);
    LacksAppend(n, CountIrc, 'E');
    ReplaceAbsent(n + CountIrc, CountEis, "", 8);
    ReplaceAbsent(n + CountIrc, Eis, "", 2);
    ReplaceSuffix(n, CountIrc, "", 7);
    assert n + "" == n;
    ActualTail(n);
  }

  /** "Actual X (EIS)" becomes X (line 90); line 89 needs the missing 'C'. */
  lemma ActualEis(n: string)
    requires PlainName(n) && Lacks(n, 'C')
    ensures ActualStep5(ActualPrefix + n + Eis) == n
    ensures NormalizeActual(ActualPrefix + n + Eis) == n
  {
    PlainNameLacks(n);
    ActualStripsPrefix(n, Eis);
    LacksAppend(n, Eis, 'C');
    ReplaceAbsent(n + Eis, CountEis, "", 1);
    ReplaceSuffix(n, Eis, "", 1);
    assert n + "" == n;
    ReplaceAbsent(n, CountIrc, "", 7);
    ActualTail(n);
  }

  /** Lines 88-91 strip "Actual " from a word without spaces and leave the rest. */
  lemma ActualWord(w: string)
    requires Lacks(w, ' ')
    ensures ActualStep5(ActualPrefix + w) == Replace(w, Resources, TotalLabel)
  {
    ReplaceAtHead(ActualPrefix, w, "");
    ReplaceAbsent(w, ActualPrefix, "", 6);
    assert "" + w == w;
    ReplaceAbsent(w, CountEis, "", 0);
    ReplaceAbsent(w, Eis, "", 0);
    ReplaceAbsent(w, CountIrc, "", 0);
  }

  /** Line 92 rewrites the bare word "Resources" to the Total label. */
  lemma ResourcesWhole()
    ensures Lacks(Resources, ' ')
    ensures Replace(Resources, Resources, TotalLabel) == TotalLabel
  {
    ReplaceAtHead(Resources, "", TotalLabel);
    assert Resources + "" == Resources;
  }

  /** Line 93 leaves the Total label alone. */
  lemma TotalSkipsLine93()
    ensures Replace(TotalLabel, ResourcesPerStudent, TotalPerStudentLabel) == TotalLabel
  {
    TotalLabelLacks();
    ReplaceAbsent(TotalLabel, ResourcesPerStudent, TotalPerStudentLabel, 10);
  }

  /** "Actual Resources" becomes the Total label (line 92). */
  lemma ActualTotal()
    ensures ActualStep5(ActualPrefix + Resources) == TotalLabel
    ensures NormalizeActual(ActualPrefix + Resources) == TotalLabel
  {
    ResourcesWhole();
    ActualWord(Resources);
    TotalSkipsLine93();
  }

  // ---------------------------------------------------------------------
  // Gap chain (lines 115-118)
  // ---------------------------------------------------------------------

  /** Lines 115-116 leave a staff gap column alone. */
  lemma GapHead(n: string, sfx: string)
    requires PlainName(n) && Lacks(sfx, 'q')
    ensures GapStep1(n + sfx) == n + sfx
    ensures Replace(n + sfx, FundingGapPerStudent, TotalPerStudentLabel) == n + sfx
  {
    PlainNameLacks(n);
    LacksAppend(n, sfx, 'q');
    ReplaceAbsent(n + sfx, FundingGap, TotalLabel, 3);
    ReplaceAbsent(n + sfx, FundingGapPerStudent, TotalPerStudentLabel, 3);
  }

  /** "X Gap (EIS)" becomes X (line 117). */
  lemma GapEisStaff(n: string)
    requires PlainName(n)
    ensures GapStep1(n + GapEis) == n + GapEis
    ensures NormalizeGap(n + GapEis) == n
  {
    PlainNameLacks(n);
    GapHead(n, GapEis);
    ReplaceSuffix(n, GapEis, "", 5);
    assert n + "" == n;
    ReplaceAbsent(n, GapIrc, "", 5);
  }

  /** "X Gap (IRC)" becomes X (line 118); line 117 needs the missing 'E'. */
  lemma GapIrcStaff(n: string)
    requires IrcName(n)
    ensures GapStep1(n + GapIrc) == n + GapIrc
    ensures NormalizeGap(n + GapIrc) == n
  {
    PlainNameLacks(n);
    GapHead(n, GapIrc);
    LacksAppend(n, GapIrc, 'E');
    ReplaceAbsent(n + GapIrc, GapEis, "", 6);
    ReplaceSuffix(n, GapIrc, "", 5);
    assert n + "" == n;
  }

  /** Lines 116-118 leave the Total label, and anything after it without 'q' or 'G', alone. */
  lemma GapTailTotal(t: string)
    requires Lacks(t, 'q') && Lacks(t, 'G')
    ensures GapTail(TotalLabel + t) == TotalLabel + t
  {
    var s := TotalLabel + t;
    TotalLabelLacks();
    LacksAppend(TotalLabel, t, 'q');
    LacksAppend(TotalLabel, t, 'G');
    ReplaceAbsent(s, FundingGapPerStudent, TotalPerStudentLabel, 3);
    ReplaceAbsent(s, GapEis, "", 1);
    ReplaceAbsent(s, GapIrc, "", 1);
  }

  /** Line 115 rewrites "Adequacy Funding Gap" and whatever follows it is kept. */
  lemma GapStep1Head(t: string)
    requires Lacks(t, 'q')
    ensures GapStep1(FundingGap + t) == TotalLabel + t
  {
    assert "" + FundingGap + t == FundingGap + t;
    ReplaceOnce("", FundingGap, t, TotalLabel, 0, 3);
    assert "" + TotalLabel + t == TotalLabel + t;
  }

  /** "Adequacy Funding Gap" becomes the Total label (line 115). */
  lemma GapTotal()
    ensures GapStep1(FundingGap) == TotalLabel
    ensures NormalizeGap(FundingGap) == TotalLabel
  {
    GapStep1Head("");
    assert FundingGap + "" == FundingGap;
    assert TotalLabel + "" == TotalLabel;
    GapTailTotal("");
  }

  /**
   * "Adequacy Funding Gap Per Student" is relabelled by line 115, which
   * rewrites its prefix, so it ends up as the per-student adequacy label.
   */
  lemma GapPerStudent()
    ensures GapStep1(FundingGap + PerStudent) == PerStudentLabel
    ensures NormalizeGap(FundingGap + PerStudent) == PerStudentLabel
  {
    PerStudentLabelShape();
    GapStep1Head(PerStudent);
    GapTailTotal(PerStudent);
  }

  // ---------------------------------------------------------------------
  // Per-school chain (line 141) and the percentage suffix (lines 189, 207)
  // ---------------------------------------------------------------------

  /** "X Gap Per School" becomes X whenever X has no 'G'. */
  lemma PerSchoolStrip(n: string)
    requires Lacks(n, 'G')
    ensures NormalizePerSchool(n + GapPerSchool) == n
  {
    ReplaceSuffix(n, GapPerSchool, "", 1);
    assert n + "" == n;
  }

  /** "X (%)" becomes X whenever X has no '('. */
  lemma PercentStrip(n: string)
    requires Lacks(n, '(')
    ensures StripPercent(n + Percent) == n
  {
    ReplaceSuffix(n, Percent, "", 1);
    assert n + "" == n;
  }

  // ---------------------------------------------------------------------
  // Patterns the final labels do not contain
  // ---------------------------------------------------------------------

  lemma TotalPatternsAbsent()
    ensures !Occurs(TotalLabel, AdequateTargetPerStudent)
    ensures !Occurs(TotalLabel, ResourcesPerStudent)
    ensures !Occurs(TotalLabel, FundingGapPerStudent)
  {
    TotalLabelLacks();
    MissingCharNoOccurrence(TotalLabel, AdequateTargetPerStudent, 3);
    MissingCharNoOccurrence(TotalLabel, ResourcesPerStudent, 10);
    MissingCharNoOccurrence(TotalLabel, FundingGapPerStudent, 3);
  }

  lemma PerStudentPatternsAbsent()
    ensures !Occurs(PerStudentLabel, AdequateTargetPerStudent)
    ensures !Occurs(PerStudentLabel, FundingGapPerStudent)
  {
    TotalLabelLacks();
    PerStudentLabelShape();
    LacksAppend(TotalLabel, PerStudent, 'q');
    MissingCharNoOccurrence(PerStudentLabel, AdequateTargetPerStudent, 3);
    MissingCharNoOccurrence(PerStudentLabel, FundingGapPerStudent, 3);
  }

  lemma StaffPatternsAbsent(n: string, sfx: string)
    requires PlainName(n) && Lacks(sfx, 'q')
    ensures !Occurs(n, AdequateTargetPerStudent)
    ensures !Occurs(n, ResourcesPerStudent)
    ensures !Occurs(n + sfx, FundingGapPerStudent)
  {
    PlainNameLacks(n);
    LacksAppend(n, sfx, 'q');
    MissingCharNoOccurrence(n, AdequateTargetPerStudent, 3);
    MissingCharNoOccurrence(n, ResourcesPerStudent, 0);
    MissingCharNoOccurrence(n + sfx, FundingGapPerStudent, 3);
  }

  // ---------------------------------------------------------------------
  // Column by column
  // ---------------------------------------------------------------------

  lemma TotalAdequacyColumn()
    ensures NormalizeAdequacy(AdequacyFields[0]) == TotalLabel
    ensures !Occurs(AdequacyStep2(AdequacyFields[0]), AdequateTargetPerStudent)
  {
    AdequacyTotal();
    TotalPatternsAbsent();
  }

  lemma PerStudentAdequacyColumn()
    ensures NormalizeAdequacy(AdequacyFields[1]) == PerStudentLabel
    ensures !Occurs(AdequacyStep2(AdequacyFields[1]), AdequateTargetPerStudent)
  {
    AdequacyPerStudent();
    PerStudentPatternsAbsent();
  }

  lemma StaffAdequacyColumn(k: nat)
    requires k < 8
    ensures NormalizeAdequacy(AdequacyFields[k + 2]) == StaffNames[k]
    ensures !Occurs(AdequacyStep2(AdequacyFields[k + 2]), AdequateTargetPerStudent)
  {
    StaffNamesPlain();
    AdequacyStaffFields();
    AdequacyStaff(StaffNames[k]);
    StaffPatternsAbsent(StaffNames[k], "");
  }

  lemma TotalActualColumn()
    ensures NormalizeActual(ActualFields[0]) == TotalLabel
    ensures !Occurs(ActualStep5(ActualFields[0]), ResourcesPerStudent)
  {
    ActualTotal();
    TotalPatternsAbsent();
  }

  lemma StaffActualColumn(k: nat)
    requires k < 8
    ensures NormalizeActual(ActualFields[k + 1]) == StaffNames[k]
    ensures !Occurs(ActualStep5(ActualFields[k + 1]), ResourcesPerStudent)
  {
    var n := StaffNames[k];
    StaffNamesPlain();
    ActualStaffFields();
    if IrcStaff(k) {
      ActualCountIrc(n);
    } else if k == 7 {
      ActualEis(n);
    } else {
      ActualCountEis(n);
    }
    StaffPatternsAbsent(n, "");
  }

  lemma TotalGapColumn()
    ensures NormalizeGap(GapFields[0]) == TotalLabel
    ensures !Occurs(GapStep1(GapFields[0]), FundingGapPerStudent)
  {
    GapTotal();
    TotalPatternsAbsent();
  }

  lemma PerStudentGapColumn()
    ensures NormalizeGap(GapFields[1]) == PerStudentLabel
    ensures !Occurs(GapStep1(GapFields[1]), FundingGapPerStudent)
  {
    GapPerStudent();
    PerStudentPatternsAbsent();
  }

  /** Before line 115 runs, the per-student gap column does contain the pattern of line 116. */
  lemma PerStudentGapRaw()
    ensures Occurs(GapFields[1], FundingGapPerStudent)
  {
    assert GapFields[1] == FundingGapPerStudent;
    assert OccursAt(GapFields[1], FundingGapPerStudent, 0);
  }

  /** A staff gap column, with either suffix, becomes the name and never meets line 116. */
  lemma GapStaff(n: string, sfx: string)
    requires PlainName(n)
    requires sfx == GapEis || (sfx == GapIrc && Lacks(n, 'E'))
    ensures NormalizeGap(n + sfx) == n
    ensures !Occurs(GapStep1(n + sfx), FundingGapPerStudent)
  {
    if sfx == GapEis {
      GapEisStaff(n);
    } else {
      GapIrcStaff(n);
    }
    StaffPatternsAbsent(n, sfx);
  }

  lemma StaffGapColumn(k: nat)
    requires k < 8
    ensures NormalizeGap(GapFields[k + 2]) == StaffNames[k]
    ensures !Occurs(GapStep1(GapFields[k + 2]), FundingGapPerStudent)
  {
    StaffNamesPlain();
    GapStaffFields();
    GapStaff(StaffNames[k], GapSuffix(k));
  }


  lemma PerSchoolColumn(i: nat)
    requires i < 9
    ensures NormalizePerSchool(PerSchoolFields[i]) == PerSchoolLabels[i]
  {
    PerSchoolFieldsShape();
    if i == 0 {
      assert Lacks(PerSchoolTotalLabel, 'G');
    } else {
      StaffNamesPlain();
      PlainNameLacks(StaffNames[i - 1]);
      assert PerSchoolLabels[i] == StaffNames[i - 1];
    }
    PerSchoolStrip(PerSchoolLabels[i]);
  }

  lemma FieldCounts()
    ensures |AdequacyFields| == |ResourceLabels| == 10
    ensures |ActualFields| == |ActualLabels| == 9
    ensures |GapFields| == 10
    ensures |PerSchoolFields| == |PerSchoolLabels| == 9
  {
  }

  // ---------------------------------------------------------------------
  // Each family as a whole
  // ---------------------------------------------------------------------

  /** Lines 47-67: the ten adequacy columns become the ten resource labels, in melt order. */
  lemma AdequacyNormalization()
    ensures |AdequacyFields| == |ResourceLabels|
    ensures forall i | 0 <= i < |AdequacyFields| :: NormalizeAdequacy(AdequacyFields[i]) == ResourceLabels[i]
  {
    FieldCounts();
    forall i | 0 <= i < 10 ensures NormalizeAdequacy(AdequacyFields[i]) == ResourceLabels[i] {
      if i == 0 {
        TotalAdequacyColumn();
      } else if i == 1 {
        PerStudentAdequacyColumn();
      } else {
        StaffAdequacyColumn(i - 2);
      }
    }
  }


  /** Line 67 looks for a pattern that no adequacy label contains once lines 65-66 have run. */
  lemma AdequacyLine67NeverFires()
    ensures forall i | 0 <= i < |AdequacyFields| :: !Occurs(AdequacyStep2(AdequacyFields[i]), AdequateTargetPerStudent)
  {
    FieldCounts();
    forall i | 0 <= i < 10 ensures !Occurs(AdequacyStep2(AdequacyFields[i]), AdequateTargetPerStudent) {
      if i == 0 {
        TotalAdequacyColumn();
      } else if i == 1 {
        PerStudentAdequacyColumn();
      } else {
        StaffAdequacyColumn(i - 2);
      }
    }
  }


  /** Lines 71-93: the nine actual-level columns become the Total label and the eight staff names. */
  lemma ActualNormalization()
    ensures |ActualFields| == |ActualLabels|
    ensures forall i | 0 <= i < |ActualFields| :: NormalizeActual(ActualFields[i]) == ActualLabels[i]
  {
    FieldCounts();
    forall i | 0 <= i < 9 ensures NormalizeActual(ActualFields[i]) == ActualLabels[i] {
      if i == 0 {
        TotalActualColumn();
      } else {
        StaffActualColumn(i - 1);
      }
    }
  }


  /** Line 93 looks for a pattern that no actual-level label contains once line 92 has run. */
  lemma ActualLine93NeverFires()
    ensures forall i | 0 <= i < |ActualFields| :: !Occurs(ActualStep5(ActualFields[i]), ResourcesPerStudent)
  {
    FieldCounts();
    forall i | 0 <= i < 9 ensures !Occurs(ActualStep5(ActualFields[i]), ResourcesPerStudent) {
      if i == 0 {
        TotalActualColumn();
      } else {
        StaffActualColumn(i - 1);
      }
    }
  }


  /** Lines 97-118: the ten gap columns become the ten adequacy labels, in the same order. */
  lemma GapNormalization()
    ensures |GapFields| == |ResourceLabels|
    ensures forall i | 0 <= i < |GapFields| :: NormalizeGap(GapFields[i]) == ResourceLabels[i]
  {
    FieldCounts();
    forall i | 0 <= i < 10 ensures NormalizeGap(GapFields[i]) == ResourceLabels[i] {
      if i == 0 {
        TotalGapColumn();
      } else if i == 1 {
        PerStudentGapColumn();
      } else {
        StaffGapColumn(i - 2);
      }
    }
  }


  /**
   * Line 116 would match the raw per-student gap column, but line 115 has
   * already rewritten its prefix, so it matches no label it is applied to.
   */
  lemma GapLine116NeverFires()
    ensures Occurs(GapFields[1], FundingGapPerStudent)
    ensures forall i | 0 <= i < |GapFields| :: !Occurs(GapStep1(GapFields[i]), FundingGapPerStudent)
  {
    FieldCounts();
    PerStudentGapRaw();
    forall i | 0 <= i < 10 ensures !Occurs(GapStep1(GapFields[i]), FundingGapPerStudent) {
      if i == 0 {
        TotalGapColumn();
      } else if i == 1 {
        PerStudentGapColumn();
      } else {
        StaffGapColumn(i - 2);
      }
    }
  }


  /** Lines 124-141: the per-school columns become "Adequacy Funding" and the eight staff names. */
  lemma PerSchoolNormalization()
    ensures |PerSchoolFields| == |PerSchoolLabels|
    ensures forall i | 0 <= i < |PerSchoolFields| :: NormalizePerSchool(PerSchoolFields[i]) == PerSchoolLabels[i]
  {
    FieldCounts();
    forall i | 0 <= i < 9 ensures NormalizePerSchool(PerSchoolFields[i]) == PerSchoolLabels[i] {
      PerSchoolColumn(i);
    }
  }

  lemma DemographicColumn(i: nat)
    requires i < |DemographicFields|
    ensures StripPercent(DemographicFields[i]) == DemographicGroups[i]
  {
    DemographicFieldsShape();
    DemographicGroupsPlain();
    PercentStrip(DemographicGroups[i]);
  }

  /** Lines 174-189: each demographic column loses its " (%)" suffix. */
  lemma DemographicNormalization()
    ensures |DemographicFields| == |DemographicGroups|
    ensures forall i | 0 <= i < |DemographicFields| :: StripPercent(DemographicFields[i]) == DemographicGroups[i]
  {
    DemographicFieldsShape();
    forall i | 0 <= i < |DemographicFields| ensures StripPercent(DemographicFields[i]) == DemographicGroups[i] {
      DemographicColumn(i);
    }
  }

  lemma RevenueColumn(i: nat)
    requires i < |RevenueFields|
    ensures StripPercent(RevenueFields[i]) == RevenueSources[i]
  {
    RevenueFieldsShape();
    RevenueSourcesPlain();
    PercentStrip(RevenueSources[i]);
  }

  /** Lines 193-207: each revenue column loses its " (%)" suffix. */
  lemma RevenueNormalization()
    ensures |RevenueFields| == |RevenueSources|
    ensures forall i | 0 <= i < |RevenueFields| :: StripPercent(RevenueFields[i]) == RevenueSources[i]
  {
    RevenueFieldsShape();
    forall i | 0 <= i < |RevenueFields| ensures StripPercent(RevenueFields[i]) == RevenueSources[i] {
      RevenueColumn(i);
    }
  }

  // ---------------------------------------------------------------------
  // Which labels can meet in a merge
  // ---------------------------------------------------------------------

  lemma LabelLengths()
    ensures |TotalLabel| == 31 && |PerStudentLabel| == 43 && |PerSchoolTotalLabel| == 16
    ensures |StaffNames| == 8
    ensures |StaffNames[0]| == 28 && |StaffNames[1]| == 26 && |StaffNames[2]| == 10 && |StaffNames[3]| == 6
    ensures |StaffNames[4]| == 13 && |StaffNames[5]| == 10 && |StaffNames[6]| == 20 && |StaffNames[7]| == 11
    ensures StaffNames[2][0] != StaffNames[5][0]
  {
  }

  /**
   * The label lists the merges join on are duplicate-free, the per-student
   * label appears in neither right-hand list, and the per-school total
   * label equals no adequacy label.
   */
  lemma LabelListsDistinct()
    ensures Distinct(ResourceLabels) && Distinct(ActualLabels) && Distinct(PerSchoolLabels)
    ensures forall i | 0 <= i < |ActualLabels| :: ActualLabels[i] != PerStudentLabel
    ensures forall i | 0 <= i < |PerSchoolLabels| :: PerSchoolLabels[i] != PerStudentLabel && PerSchoolLabels[i] != TotalLabel
    ensures forall i | 0 <= i < |ResourceLabels| :: ResourceLabels[i] != PerSchoolTotalLabel
  {
    LabelLengths();
  }
}
