/**
 * Molecular correlation analysis (`MolecularCorrelationAnalyzer` in
 * app/analytics.py): the cohort's (patient, pathology) pairs are grouped by their
 * IDH / MGMT / WHO-grade combination, and each group gets survival and treatment
 * response figures computed for the patients in it.
 *
 * The inner join yields one row per pathology report, so a patient with several
 * reports appears once per report: group sizes count rows, not distinct patients.
 */
module Molecular {
  import opened ClinicalTypes
  import opened Statistics
  import opened OrderedDict
  import opened Survival
  import opened TreatmentResponse

  /** The grouping key: the three marker values, `"unknown"` where absent. */
  datatype MarkerKey = MarkerKey(idh: string, mgmt: string, grade: string)

  function MarkerKeyOf(p: Pathology): MarkerKey
  {
    MarkerKey(
      if p.idhStatus.Some? then IdhValue(p.idhStatus.value) else "unknown",
      if p.mgmtStatus.Some? then MgmtValue(p.mgmtStatus.value) else "unknown",
      if p.whoGrade.Some? then WhoGradeValue(p.whoGrade.value) else "unknown")
  }

  /**
   * A report without an IDH or MGMT result falls in the same group as one whose
   * result is recorded as unknown; known results are kept apart.
   */
  lemma MarkerKeyMergesAbsentWithUnknown(p: Pathology, q: Pathology)
    requires p.mgmtStatus == q.mgmtStatus && p.whoGrade == q.whoGrade
    ensures (p.idhStatus.None? && q.idhStatus == Some(IdhUnknown)) ==> MarkerKeyOf(p) == MarkerKeyOf(q)
    ensures (p.idhStatus.Some? && q.idhStatus.Some? && p.idhStatus != q.idhStatus) ==> MarkerKeyOf(p) != MarkerKeyOf(q)
  {
    if p.idhStatus.Some? && q.idhStatus.Some? && p.idhStatus != q.idhStatus {
      assert MarkerKeyOf(p).idh != MarkerKeyOf(q).idh;
    }
  }

  /** The pathology reports of one patient, in table order. */
  function PathologiesOf(pathologies: seq<Pathology>, patientId: int): (r: seq<Pathology>)
    ensures forall q :: q in r <==> q in pathologies && q.patientId == patientId
  {
    if pathologies == [] then []
    else
      assert forall q :: q in pathologies <==> q == pathologies[0] || q in pathologies[1..];
      (if pathologies[0].patientId == patientId then [pathologies[0]] else [])
        + PathologiesOf(pathologies[1..], patientId)
  }

  function PairWith(p: Patient, reports: seq<Pathology>): (r: seq<(Patient, Pathology)>)
    ensures |r| == |reports|
    ensures forall row :: row in r <==> row.0 == p && row.1 in reports
  {
    var r := seq(|reports|, i requires 0 <= i < |reports| => (p, reports[i]));
    assert forall row :: row in r ==> exists i :: 0 <= i < |reports| && row == r[i];
    assert forall q :: q in reports ==> exists i :: 0 <= i < |reports| && q == reports[i] && (p, q) == r[i];
    r
  }

  /**
   * The join of the cohort's patients with their pathology reports, patient by
   * patient: every pair of a cohort patient and one of its reports.
   */
  function JoinRows(patients: seq<Patient>, pathologies: seq<Pathology>, patientIds: seq<int>): (rows: seq<(Patient, Pathology)>)
    ensures forall row :: row in rows <==>
      row.0 in patients && InCohort(row.0.id, patientIds) && row.1 in pathologies && row.1.patientId == row.0.id
  {
    if patients == [] then []
    else
      var p := patients[0];
      assert forall x :: x in patients <==> x == p || x in patients[1..];
      (if InCohort(p.id, patientIds) then PairWith(p, PathologiesOf(pathologies, p.id)) else [])
        + JoinRows(patients[1..], pathologies, patientIds)
  }

  function RowKey(row: (Patient, Pathology)): MarkerKey { MarkerKeyOf(row.1) }

  function RowPatient(row: (Patient, Pathology)): Patient { row.0 }

  /** The grouping loop of `analyze_molecular_correlations`. */
  method GroupByMarkers(rows: seq<(Patient, Pathology)>) returns (groups: Dict<MarkerKey, seq<Patient>>)
    ensures groups == GroupBy(rows, RowKey, RowPatient)
  {
    groups := Empty();
    for i := 0 to |rows|
      invariant groups == GroupBy(rows[..i], RowKey, RowPatient)
    {
      assert rows[..i + 1][..i] == rows[..i];
      groups := AppendTo(groups, MarkerKeyOf(rows[i].1), rows[i].0);
    }
    assert rows[..|rows|] == rows;
  }

  datatype MolecularCorrelation = MolecularCorrelation(
    idhStatus: string,
    mgmtStatus: string,
    whoGrade: string,
    patientCount: nat,
    meanSurvivalDays: Option<real>,
    medianSurvivalDays: Option<real>,
    progressionRate: real,
    treatmentResponseRate: real)

  /** `[p.id for p in patients]` */
  function IdsOf(group: seq<Patient>): (ids: seq<int>)
    ensures |ids| == |group|
    ensures forall i :: 0 <= i < |group| ==> ids[i] == group[i].id
  {
    seq(|group|, i requires 0 <= i < |group| => group[i].id)
  }

  /**
   * The figures of one group. `response_stats.get("overall_response_rate", 0)`:
   * the rate is 0 when no treatment of the group has a response.
   */
  function CorrelationOf(key: MarkerKey, group: seq<Patient>, survival: SurvivalStatistics, response: ResponseStatistics): MolecularCorrelation
  {
    MolecularCorrelation(key.idh, key.mgmt, key.grade, |group|,
      survival.overallSurvival.meanDays, survival.overallSurvival.medianDays,
      survival.progressionRate,
      if response.NoTreatments? then 0.0 else response.overallResponseRate)
  }

  /** A group's figures, computed over the ids of the group's patients. */
  function GroupCorrelation(key: MarkerKey, group: seq<Patient>, patients: seq<Patient>,
                            treatments: seq<Treatment>, visits: seq<FollowUpVisit>): MolecularCorrelation
  {
    var ids := IdsOf(group);
    CorrelationOf(key, group, GetSurvivalStatistics(patients, visits, ids),
                  ResponseStatisticsFrom(TreatmentResponsesOf(treatments, visits, ids)))
  }

  /** One correlation per group, in the order the groups were first met. */
  function CorrelationsOf(groups: Dict<MarkerKey, seq<Patient>>, patients: seq<Patient>,
                          treatments: seq<Treatment>, visits: seq<FollowUpVisit>): (cs: seq<MolecularCorrelation>)
    requires Valid(groups)
    ensures |cs| == |groups.keys|
  {
    seq(|groups.keys|, i requires 0 <= i < |groups.keys| =>
      GroupCorrelation(groups.keys[i], groups.entries[groups.keys[i]], patients, treatments, visits))
  }

  function MarkerGroups(patients: seq<Patient>, pathologies: seq<Pathology>, patientIds: seq<int>): (g: Dict<MarkerKey, seq<Patient>>)
    ensures Valid(g)
  {
    GroupByFacts(JoinRows(patients, pathologies, patientIds), RowKey, RowPatient);
    GroupBy(JoinRows(patients, pathologies, patientIds), RowKey, RowPatient)
  }

  /** `analyze_molecular_correlations` */
  function MolecularCorrelationsOf(patients: seq<Patient>, pathologies: seq<Pathology>, treatments: seq<Treatment>,
                                   visits: seq<FollowUpVisit>, patientIds: seq<int>): seq<MolecularCorrelation>
  {
    CorrelationsOf(MarkerGroups(patients, pathologies, patientIds), patients, treatments, visits)
  }

  method AnalyzeMolecularCorrelations(patients: seq<Patient>, pathologies: seq<Pathology>, treatments: seq<Treatment>,
                                      visits: seq<FollowUpVisit>, patientIds: seq<int>)
    returns (correlations: seq<MolecularCorrelation>)
    ensures correlations == MolecularCorrelationsOf(patients, pathologies, treatments, visits, patientIds)
  {
    var rows := JoinRows(patients, pathologies, patientIds);
    var groups := GroupByMarkers(rows);
    assert groups == MarkerGroups(patients, pathologies, patientIds);
    correlations := CorrelateGroups(groups, patients, treatments, visits);
  }

  /** The loop of `analyze_molecular_correlations` over the groups. */
  method CorrelateGroups(groups: Dict<MarkerKey, seq<Patient>>, patients: seq<Patient>,
                         treatments: seq<Treatment>, visits: seq<FollowUpVisit>)
    returns (correlations: seq<MolecularCorrelation>)
    requires Valid(groups)
    ensures correlations == CorrelationsOf(groups, patients, treatments, visits)
  {
    ghost var all := CorrelationsOf(groups, patients, treatments, visits);
    correlations := [];
    for i := 0 to |groups.keys|
      invariant correlations == all[..i]
    {
      var c := ComputeGroupCorrelation(groups.keys[i], groups.entries[groups.keys[i]], patients, treatments, visits);
      assert c == all[i];
      assert all[..i + 1] == all[..i] + [c];
      correlations := correlations + [c];
    }
    assert all[..|groups.keys|] == all;
  }

  /** The body of the correlation loop: survival and response statistics of one group. */
  method ComputeGroupCorrelation(key: MarkerKey, group: seq<Patient>, patients: seq<Patient>,
                                 treatments: seq<Treatment>, visits: seq<FollowUpVisit>)
    returns (c: MolecularCorrelation)
    ensures c == GroupCorrelation(key, group, patients, treatments, visits)
  {
    var ids := IdsOf(group);
    var survival := GetSurvivalStatistics(patients, visits, ids);
    var response := GetResponseStatistics(treatments, visits, ids);
    c := CorrelationOf(key, group, survival, response);
  }

  /** Number of rows across correlations (`sum(c.patient_count for c in correlations)`). */
  function TotalPatients(cs: seq<MolecularCorrelation>): nat
  {
    if cs == [] then 0 else TotalPatients(cs[..|cs| - 1]) + cs[|cs| - 1].patientCount
  }

  /** Correlations sized like the groups under `keys` count all of the groups' values. */
  lemma {:induction false} TotalOfSizes(cs: seq<MolecularCorrelation>, keys: seq<MarkerKey>, e: map<MarkerKey, seq<Patient>>)
    requires |cs| == |keys|
    requires forall j :: 0 <= j < |keys| ==> keys[j] in e && cs[j].patientCount == |e[keys[j]]|
    ensures TotalPatients(cs) == SizeOver(keys, e)
  {
    if cs != [] {
      var n := |cs| - 1;
      TotalOfSizes(cs[..n], keys[..n], e);
      assert keys == keys[..n] + [keys[n]];
      SizeOverAppend(keys[..n], e, keys[n]);
    }
  }

  /** Every joined row is counted in exactly one correlation. */
  lemma CorrelationCountsSumToRows(patients: seq<Patient>, pathologies: seq<Pathology>, treatments: seq<Treatment>,
                                   visits: seq<FollowUpVisit>, patientIds: seq<int>)
    ensures TotalPatients(MolecularCorrelationsOf(patients, pathologies, treatments, visits, patientIds))
      == |JoinRows(patients, pathologies, patientIds)|
  {
    var groups := MarkerGroups(patients, pathologies, patientIds);
    var cs := CorrelationsOf(groups, patients, treatments, visits);
    GroupByFacts(JoinRows(patients, pathologies, patientIds), RowKey, RowPatient);
    TotalOfSizes(cs, groups.keys, groups.entries);
  }

  /**
   * Each correlation stands for a marker combination that occurs in the join. Its
   * patient count is the size of its group, at least one row; its progression and
   * response rates are proportions, and the response rate is the group's overall
   * response rate, or 0 when no treatment of the group has a response.
   */
  lemma CorrelationFacts(patients: seq<Patient>, pathologies: seq<Pathology>, treatments: seq<Treatment>,
                         visits: seq<FollowUpVisit>, patientIds: seq<int>, i: nat)
    requires i < |MolecularCorrelationsOf(patients, pathologies, treatments, visits, patientIds)|
    ensures var c := MolecularCorrelationsOf(patients, pathologies, treatments, visits, patientIds)[i];
      var rows := JoinRows(patients, pathologies, patientIds);
      c.patientCount > 0
      && (exists row :: row in rows && MarkerKeyOf(row.1) == MarkerKey(c.idhStatus, c.mgmtStatus, c.whoGrade))
      && 0.0 <= c.progressionRate <= 1.0
      && 0.0 <= c.treatmentResponseRate <= 1.0
    ensures var c := MolecularCorrelationsOf(patients, pathologies, treatments, visits, patientIds)[i];
      var groups := MarkerGroups(patients, pathologies, patientIds);
      var group := groups.entries[groups.keys[i]];
      var responses := TreatmentResponsesOf(treatments, visits, IdsOf(group));
      && c.patientCount == |group|
      && (|responses| == 0 ==> c.treatmentResponseRate == 0.0)
      && (|responses| > 0 ==> c.treatmentResponseRate == ResponseStatisticsFrom(responses).overallResponseRate)
  {
    var rows := JoinRows(patients, pathologies, patientIds);
    var groups := MarkerGroups(patients, pathologies, patientIds);
    GroupByFacts(rows, RowKey, RowPatient);
    var key := groups.keys[i];
    GroupsNonEmpty(rows, RowKey, RowPatient, key);
    var j :| 0 <= j < |rows| && RowKey(rows[j]) == key;
    assert rows[j] in rows;
  }

  /** Distinct correlations stand for distinct marker combinations. */
  lemma CorrelationKeysDistinct(patients: seq<Patient>, pathologies: seq<Pathology>, treatments: seq<Treatment>,
                                visits: seq<FollowUpVisit>, patientIds: seq<int>, i: nat, j: nat)
    requires i < j < |MolecularCorrelationsOf(patients, pathologies, treatments, visits, patientIds)|
    ensures var cs := MolecularCorrelationsOf(patients, pathologies, treatments, visits, patientIds);
      (cs[i].idhStatus, cs[i].mgmtStatus, cs[i].whoGrade) != (cs[j].idhStatus, cs[j].mgmtStatus, cs[j].whoGrade)
  {
    var groups := MarkerGroups(patients, pathologies, patientIds);
    assert groups.keys[i] != groups.keys[j];
  }

  /** The `combination` label of a correlation. */
  function Combination(c: MolecularCorrelation): string
  {
    "IDH-" + c.idhStatus + "/MGMT-" + c.mgmtStatus + "/Grade-" + c.whoGrade
  }

  datatype CorrelationEntry = CorrelationEntry(
    combination: string,
    patientCount: nat,
    meanSurvivalDays: Option<real>,
    progressionRate: real,
    responseRate: real)

  function EntryOf(c: MolecularCorrelation): CorrelationEntry
  {
    CorrelationEntry(Combination(c), c.patientCount, c.meanSurvivalDays, c.progressionRate, c.treatmentResponseRate)
  }

  datatype MolecularSummary = MolecularSummary(
    totalPatientsWithMolecularData: nat,
    idhDistribution: Dict<string, nat>,
    mgmtDistribution: Dict<string, nat>,
    gradeDistribution: Dict<string, nat>,
    correlations: seq<CorrelationEntry>)

  function IdhOf(c: MolecularCorrelation): string { c.idhStatus }

  function MgmtOf(c: MolecularCorrelation): string { c.mgmtStatus }

  function GradeOf(c: MolecularCorrelation): string { c.whoGrade }

  /** Rows per value of one marker: the `defaultdict(int)` accumulation. */
  function Marginal(cs: seq<MolecularCorrelation>, marker: MolecularCorrelation -> string): Dict<string, nat>
  {
    if cs == [] then Empty()
    else
      var n := |cs| - 1;
      AddTo(Marginal(cs[..n], marker), marker(cs[n]), cs[n].patientCount)
  }

  /** A marginal is well formed and distributes exactly the rows of the correlations. */
  lemma {:induction false} MarginalFacts(cs: seq<MolecularCorrelation>, marker: MolecularCorrelation -> string)
    ensures Valid(Marginal(cs, marker))
    ensures SumValues(Marginal(cs, marker)) == TotalPatients(cs)
  {
    if cs != [] {
      var n := |cs| - 1;
      MarginalFacts(cs[..n], marker);
      AddToFacts(Marginal(cs[..n], marker), marker(cs[n]), cs[n].patientCount);
    }
  }

  function SummaryOf(cs: seq<MolecularCorrelation>): MolecularSummary
  {
    MolecularSummary(TotalPatients(cs), Marginal(cs, IdhOf), Marginal(cs, MgmtOf), Marginal(cs, GradeOf),
                     seq(|cs|, i requires 0 <= i < |cs| => EntryOf(cs[i])))
  }

  /** `get_molecular_summary` */
  method GetMolecularSummary(patients: seq<Patient>, pathologies: seq<Pathology>, treatments: seq<Treatment>,
                             visits: seq<FollowUpVisit>, patientIds: seq<int>)
    returns (s: MolecularSummary)
    ensures s == SummaryOf(MolecularCorrelationsOf(patients, pathologies, treatments, visits, patientIds))
  {
    var cs := AnalyzeMolecularCorrelations(patients, pathologies, treatments, visits, patientIds);
    s := SummarizeCorrelations(cs);
  }

  /** The marker distributions loop of `get_molecular_summary`. */
  method SummarizeCorrelations(cs: seq<MolecularCorrelation>) returns (s: MolecularSummary)
    ensures s == SummaryOf(cs)
  {
    var idh, mgmt, grade := Empty(), Empty(), Empty();
    for i := 0 to |cs|
      invariant idh == Marginal(cs[..i], IdhOf)
      invariant mgmt == Marginal(cs[..i], MgmtOf)
      invariant grade == Marginal(cs[..i], GradeOf)
    {
      assert cs[..i + 1][..i] == cs[..i];
      idh := AddTo(idh, cs[i].idhStatus, cs[i].patientCount);
      mgmt := AddTo(mgmt, cs[i].mgmtStatus, cs[i].patientCount);
      grade := AddTo(grade, cs[i].whoGrade, cs[i].patientCount);
    }
    assert cs[..|cs|] == cs;
    s := MolecularSummary(TotalPatients(cs), idh, mgmt, grade, seq(|cs|, i requires 0 <= i < |cs| => EntryOf(cs[i])));
  }

  /**
   * The summary's total is the number of joined rows, and each of the three
   * distributions splits exactly that total.
   */
  lemma SummaryDistributionsPartitionRows(patients: seq<Patient>, pathologies: seq<Pathology>, treatments: seq<Treatment>,
                                          visits: seq<FollowUpVisit>, patientIds: seq<int>)
    ensures var s := SummaryOf(MolecularCorrelationsOf(patients, pathologies, treatments, visits, patientIds));
      s.totalPatientsWithMolecularData == |JoinRows(patients, pathologies, patientIds)|
      && Valid(s.idhDistribution) && Valid(s.mgmtDistribution) && Valid(s.gradeDistribution)
      && SumValues(s.idhDistribution) == s.totalPatientsWithMolecularData
      && SumValues(s.mgmtDistribution) == s.totalPatientsWithMolecularData
      && SumValues(s.gradeDistribution) == s.totalPatientsWithMolecularData
  {
    var cs := MolecularCorrelationsOf(patients, pathologies, treatments, visits, patientIds);
    CorrelationCountsSumToRows(patients, pathologies, treatments, visits, patientIds);
    MarginalFacts(cs, IdhOf);
    MarginalFacts(cs, MgmtOf);
    MarginalFacts(cs, GradeOf);
  }
}
