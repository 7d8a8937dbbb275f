/**
 * Survival analysis: per-patient survival timelines derived from the diagnosis
 * date and the follow-up visits, and the cohort statistics over them
 * (`SurvivalAnalysisEngine` in app/analytics.py).
 *
 * Overall survival here is survival to the last observation: the data model
 * has no death date, so every patient is reported alive.
 */
module Survival {
  import opened ClinicalTypes
  import opened Statistics

  datatype SurvivalMetrics = SurvivalMetrics(
    patientId: int,
    medicalRecordNumber: string,
    diagnosisDate: Option<Day>,
    lastFollowUpDate: Option<Day>,
    progressionDate: Option<Day>,
    deathDate: Option<Day>,
    timeToProgressionDays: Option<int>,
    overallSurvivalDays: Option<int>,
    progressionFreeSurvivalDays: Option<int>,
    isAlive: bool,
    hasProgressed: bool)

  predicate IsProgression(v: FollowUpVisit)
  {
    v.imagingResponse == Some(ProgressiveDisease)
  }

  /** Date of the latest visit (`order_by(visit_date.desc()).first()`), absent without visits. */
  function LastFollowUpDate(visits: seq<FollowUpVisit>): (r: Option<Day>)
    ensures r.None? <==> visits == []
    ensures r.Some? ==> exists v :: v in visits && v.visitDate == r.value
    ensures forall v :: v in visits ==> r.Some? && v.visitDate <= r.value
  {
    if visits == [] then None
    else
      var rest := LastFollowUpDate(visits[1..]);
      assert forall v :: v in visits ==> v == visits[0] || v in visits[1..];
      if rest.None? || rest.value <= visits[0].visitDate then Some(visits[0].visitDate) else rest
  }

  /**
   * Date of the earliest progressive-disease visit (the PD filter with
   * `order_by(visit_date.asc()).first()`), absent when no visit shows progression.
   */
  function FirstProgressionDate(visits: seq<FollowUpVisit>): (r: Option<Day>)
    ensures r.None? <==> forall v :: v in visits ==> !IsProgression(v)
    ensures r.Some? ==> exists v :: v in visits && IsProgression(v) && v.visitDate == r.value
    ensures forall v :: v in visits && IsProgression(v) ==> r.Some? && r.value <= v.visitDate
  {
    if visits == [] then None
    else
      var rest := FirstProgressionDate(visits[1..]);
      assert forall v :: v in visits ==> v == visits[0] || v in visits[1..];
      if IsProgression(visits[0]) && (rest.None? || visits[0].visitDate <= rest.value)
      then Some(visits[0].visitDate)
      else rest
  }

  predicate HasProgressionVisit(visits: seq<FollowUpVisit>, patientId: int)
  {
    exists v :: v in visits && v.patientId == patientId && IsProgression(v)
  }

  /** A progression date exists iff a visit of the patient shows progression, and then a last visit exists. */
  lemma ProgressionSeenAtVisit(visits: seq<FollowUpVisit>, patientId: int)
    ensures FirstProgressionDate(VisitsOf(visits, patientId)).Some? <==> HasProgressionVisit(visits, patientId)
    ensures FirstProgressionDate(VisitsOf(visits, patientId)).Some? ==> LastFollowUpDate(VisitsOf(visits, patientId)).Some?
  {
    var mine := VisitsOf(visits, patientId);
    if HasProgressionVisit(visits, patientId) {
      var v :| v in visits && v.patientId == patientId && IsProgression(v);
      assert v in mine;
    }
  }

  /**
   * `_calculate_patient_survival`: the survival timeline of one patient, given the
   * whole follow-up visit table. Without a diagnosis date no day count is derived;
   * progression-free survival ends at the first progression, or at the last visit
   * for a patient who has not progressed.
   */
  function PatientSurvival(p: Patient, visits: seq<FollowUpVisit>): (m: SurvivalMetrics)
    ensures m.patientId == p.id && m.diagnosisDate == p.initialDiagnosisDate
    ensures m.lastFollowUpDate == LastFollowUpDate(VisitsOf(visits, p.id))
    ensures m.progressionDate == FirstProgressionDate(VisitsOf(visits, p.id))
    ensures m.isAlive && m.deathDate.None?
    ensures m.hasProgressed <==> HasProgressionVisit(visits, p.id)
    ensures m.hasProgressed <==> m.progressionDate.Some?
    ensures p.initialDiagnosisDate.None? ==>
      m.timeToProgressionDays.None? && m.overallSurvivalDays.None? && m.progressionFreeSurvivalDays.None?
    ensures m.timeToProgressionDays.Some? ==> m.hasProgressed
    ensures p.initialDiagnosisDate.Some? && m.progressionDate.Some? ==>
      m.timeToProgressionDays == Some(m.progressionDate.value - p.initialDiagnosisDate.value)
    ensures m.overallSurvivalDays.Some? <==> p.initialDiagnosisDate.Some? && m.lastFollowUpDate.Some?
    ensures m.overallSurvivalDays.Some? ==>
      m.overallSurvivalDays.value == m.lastFollowUpDate.value - p.initialDiagnosisDate.value
    ensures m.progressionFreeSurvivalDays.Some? <==> m.overallSurvivalDays.Some?
  {
    var mine := VisitsOf(visits, p.id);
    var diagnosis := p.initialDiagnosisDate;
    var last := LastFollowUpDate(mine);
    var progression := FirstProgressionDate(mine);
    var progressed := progression.Some?;
    ProgressionSeenAtVisit(visits, p.id);
    var ttp := if diagnosis.Some? && progression.Some? then Some(progression.value - diagnosis.value) else None;
    var os := if diagnosis.Some? && last.Some? then Some(last.value - diagnosis.value) else None;
    var pfs := if diagnosis.Some? && last.Some? && !progressed then os else ttp;
    SurvivalMetrics(p.id, p.medicalRecordNumber, diagnosis, last, progression, None,
                    ttp, os, pfs, true, progressed)
  }

  /** Without a diagnosis date no duration is derived, whatever the visits are. */
  lemma NoDiagnosisNoDurations(p: Patient, visits: seq<FollowUpVisit>)
    requires p.initialDiagnosisDate.None?
    ensures PatientSurvival(p, visits).timeToProgressionDays.None?
    ensures PatientSurvival(p, visits).overallSurvivalDays.None?
    ensures PatientSurvival(p, visits).progressionFreeSurvivalDays.None?
  {
  }

  /**
   * A progressed patient: with diagnosis `d` and earliest progression visit on
   * `progression`, time to progression and progression-free survival are both
   * `progression - d`, even when later follow-up visits exist.
   */
  lemma ProgressedPatient(p: Patient, visits: seq<FollowUpVisit>, progression: Day)
    requires p.initialDiagnosisDate.Some?
    requires exists v :: v in visits && v.patientId == p.id && IsProgression(v) && v.visitDate == progression
    requires forall v :: v in visits && v.patientId == p.id && IsProgression(v) ==> progression <= v.visitDate
    ensures PatientSurvival(p, visits).progressionDate == Some(progression)
    ensures PatientSurvival(p, visits).timeToProgressionDays == Some(progression - p.initialDiagnosisDate.value)
    ensures PatientSurvival(p, visits).progressionFreeSurvivalDays == Some(progression - p.initialDiagnosisDate.value)
  {
    var mine := VisitsOf(visits, p.id);
    var w :| w in visits && w.patientId == p.id && IsProgression(w) && w.visitDate == progression;
    assert w in mine;
    var first := FirstProgressionDate(mine);
    var v :| v in mine && IsProgression(v) && v.visitDate == first.value;
    assert progression <= first.value;
  }

  /**
   * A patient who has not progressed: with diagnosis `d` and latest visit on
   * `last`, overall survival and progression-free survival are both `last - d`.
   */
  lemma NotProgressedPatient(p: Patient, visits: seq<FollowUpVisit>, last: Day)
    requires p.initialDiagnosisDate.Some?
    requires !HasProgressionVisit(visits, p.id)
    requires exists v :: v in visits && v.patientId == p.id && v.visitDate == last
    requires forall v :: v in visits && v.patientId == p.id ==> v.visitDate <= last
    ensures !PatientSurvival(p, visits).hasProgressed
    ensures PatientSurvival(p, visits).overallSurvivalDays == Some(last - p.initialDiagnosisDate.value)
    ensures PatientSurvival(p, visits).progressionFreeSurvivalDays == Some(last - p.initialDiagnosisDate.value)
  {
    var mine := VisitsOf(visits, p.id);
    var w :| w in visits && w.patientId == p.id && w.visitDate == last;
    assert w in mine;
    var l := LastFollowUpDate(mine);
    var v :| v in mine && v.visitDate == l.value;
    assert l.value <= last;
  }

  /**
   * Overall survival runs from the diagnosis to the latest visit of the patient,
   * whether or not the patient has progressed.
   */
  lemma OverallSurvivalToLastVisit(p: Patient, visits: seq<FollowUpVisit>, last: Day)
    requires p.initialDiagnosisDate.Some?
    requires exists v :: v in visits && v.patientId == p.id && v.visitDate == last
    requires forall v :: v in visits && v.patientId == p.id ==> v.visitDate <= last
    ensures PatientSurvival(p, visits).lastFollowUpDate == Some(last)
    ensures PatientSurvival(p, visits).overallSurvivalDays == Some(last - p.initialDiagnosisDate.value)
  {
    var mine := VisitsOf(visits, p.id);
    var w :| w in visits && w.patientId == p.id && w.visitDate == last;
    assert w in mine;
    var l := LastFollowUpDate(mine);
    var v :| v in mine && v.visitDate == l.value;
    assert l.value <= last;
  }

  /** Progression is observed at a follow-up visit, so it never comes after the last one. */
  lemma ProgressionWithinFollowUp(p: Patient, visits: seq<FollowUpVisit>)
    requires PatientSurvival(p, visits).timeToProgressionDays.Some?
    ensures PatientSurvival(p, visits).overallSurvivalDays.Some?
    ensures PatientSurvival(p, visits).timeToProgressionDays.value
         <= PatientSurvival(p, visits).overallSurvivalDays.value
  {
    var mine := VisitsOf(visits, p.id);
    var first := FirstProgressionDate(mine);
    var v :| v in mine && IsProgression(v) && v.visitDate == first.value;
    assert v.visitDate <= LastFollowUpDate(mine).value;
  }

  /**
   * Diagnosed on 2024-01-01 (day 0), stable disease on 2024-03-01 (day 60) and
   * progressive disease on 2024-06-01 (day 152): progression after 152 days.
   */
  lemma ProgressionScenario()
    ensures var m := PatientSurvival(
              Patient(1, "MRN-1", None, Male, Some(0)),
              [FollowUpVisit(10, 1, 60, Some(StableDisease)), FollowUpVisit(11, 1, 152, Some(ProgressiveDisease))]);
      m.progressionDate == Some(152) && m.hasProgressed
      && m.timeToProgressionDays == Some(152) && m.progressionFreeSurvivalDays == Some(152)
      && m.overallSurvivalDays == Some(152)
  {
    var visits := [FollowUpVisit(10, 1, 60, Some(StableDisease)), FollowUpVisit(11, 1, 152, Some(ProgressiveDisease))];
    var p := Patient(1, "MRN-1", None, Male, Some(0));
    assert visits[1] in visits;
    ProgressedPatient(p, visits, 152);
    assert forall v :: v in visits && v.patientId == 1 ==> v.visitDate <= 152;
    var mine := VisitsOf(visits, 1);
    assert visits[1] in mine;
    assert LastFollowUpDate(mine) == Some(152);
  }

  /** `calculate_survival_metrics` as a value: one entry per selected patient, in table order. */
  function SurvivalMetricsOf(patients: seq<Patient>, visits: seq<FollowUpVisit>, patientIds: seq<int>): (ms: seq<SurvivalMetrics>)
    ensures |ms| == |SelectedPatients(patients, patientIds)|
    ensures forall i :: 0 <= i < |ms| ==> ms[i] == PatientSurvival(SelectedPatients(patients, patientIds)[i], visits)
  {
    var selected := SelectedPatients(patients, patientIds);
    seq(|selected|, i requires 0 <= i < |selected| => PatientSurvival(selected[i], visits))
  }

  /** `calculate_survival_metrics`: the loop that appends one entry per selected patient. */
  method CalculateSurvivalMetrics(patients: seq<Patient>, visits: seq<FollowUpVisit>, patientIds: seq<int>)
    returns (metrics: seq<SurvivalMetrics>)
    ensures metrics == SurvivalMetricsOf(patients, visits, patientIds)
  {
    var selected := SelectedPatients(patients, patientIds);
    metrics := [];
    for i := 0 to |selected|
      invariant |metrics| == i
      invariant forall j :: 0 <= j < i ==> metrics[j] == PatientSurvival(selected[j], visits)
    {
      metrics := metrics + [PatientSurvival(selected[i], visits)];
    }
  }

  /** Which of the three day counts a summary is about. */
  datatype Metric = TimeToProgression | OverallSurvival | ProgressionFreeSurvival

  function MetricValue(m: SurvivalMetrics, k: Metric): Option<int>
  {
    match k
    case TimeToProgression => m.timeToProgressionDays
    case OverallSurvival => m.overallSurvivalDays
    case ProgressionFreeSurvival => m.progressionFreeSurvivalDays
  }

  function Reported(k: Metric): SurvivalMetrics -> bool
  {
    m => MetricValue(m, k).Some?
  }

  function IsAlive(m: SurvivalMetrics): bool { m.isAlive }

  function Progressed(m: SurvivalMetrics): bool { m.hasProgressed }

  /** The metric of a patient is present and equals `x`. */
  function HasValue(k: Metric, x: int): SurvivalMetrics -> bool
  {
    m => MetricValue(m, k) == Some(x)
  }

  /**
   * The values that are present (`[m.x for m in metrics if m.x is not None]`):
   * each value occurs as often as there are patients with that value.
   */
  function PresentValues(ms: seq<SurvivalMetrics>, k: Metric): (r: seq<int>)
    ensures |r| == Count(ms, Reported(k))
    ensures forall x :: multiset(r)[x] == Count(ms, HasValue(k, x))
  {
    if ms == [] then []
    else
      var rest := PresentValues(ms[1..], k);
      HeadCounts(ms, k);
      match MetricValue(ms[0], k)
      case Some(x) =>
        assert multiset([x] + rest) == multiset{x} + multiset(rest);
        [x] + rest
      case None => rest
  }

  /** Every kept value is the metric of some patient in the list. */
  lemma PresentValueIsReported(ms: seq<SurvivalMetrics>, k: Metric, i: nat)
    requires i < |PresentValues(ms, k)|
    ensures exists m :: m in ms && MetricValue(m, k) == Some(PresentValues(ms, k)[i])
  {
    var x := PresentValues(ms, k)[i];
    assert x in multiset(PresentValues(ms, k));
    CountPositive(ms, HasValue(k, x));
  }

  /** A positive count has a witness. */
  lemma {:induction false} CountPositive<T>(s: seq<T>, p: T -> bool)
    requires Count(s, p) > 0
    ensures exists t :: t in s && p(t)
  {
    if !p(s[0]) {
      CountPositive(s[1..], p);
      var t :| t in s[1..] && p(t);
      assert t in s;
    }
  }

  /** How the first metrics record contributes to the counts of each value. */
  lemma HeadCounts(ms: seq<SurvivalMetrics>, k: Metric)
    requires |ms| > 0
    ensures forall x :: (Count(ms, HasValue(k, x))
      == (if MetricValue(ms[0], k) == Some(x) then 1 else 0) + Count(ms[1..], HasValue(k, x)))
  {
  }

  datatype MetricSummary = MetricSummary(meanDays: Option<real>, medianDays: Option<real>, count: nat)

  /** Mean, median and count of the present values; mean and median are absent for no values. */
  function Summarize(values: seq<int>): (r: MetricSummary)
    ensures r.count == |values|
    ensures r.meanDays.None? <==> |values| == 0
    ensures r.medianDays.None? <==> |values| == 0
    ensures |values| > 0 ==> r.meanDays == Some(Mean(values)) && r.medianDays == Some(Median(values))
    ensures |values| > 0 ==> IsMeanOf(r.meanDays.value, values)
    ensures |values| > 0 ==> Min(values) as real <= r.meanDays.value <= Max(values) as real
    ensures |values| > 0 ==> Min(values) as real <= r.medianDays.value <= Max(values) as real
  {
    if |values| == 0 then MetricSummary(None, None, 0)
    else MetricSummary(Some(Mean(values)), Some(Median(values)), |values|)
  }

  datatype SurvivalStatistics = SurvivalStatistics(
    totalPatients: nat,
    alivePatients: nat,
    progressedPatients: nat,
    progressionRate: real,
    timeToProgression: MetricSummary,
    overallSurvival: MetricSummary,
    progressionFreeSurvival: MetricSummary)

  /**
   * The aggregate of `get_survival_statistics` over already derived metrics. The
   * progression rate is guarded: 0 for an empty cohort, otherwise
   * progressed / total, and always within [0, 1].
   */
  function SurvivalStatisticsFrom(ms: seq<SurvivalMetrics>): (s: SurvivalStatistics)
    ensures s.totalPatients == |ms|
    ensures s.alivePatients == Count(ms, IsAlive)
    ensures s.progressedPatients == Count(ms, Progressed)
    ensures 0.0 <= s.progressionRate <= 1.0
    ensures |ms| == 0 ==> s.progressionRate == 0.0
    ensures s.progressionRate == Rate(s.progressedPatients, s.totalPatients)
    ensures s.timeToProgression.count == Count(ms, Reported(TimeToProgression)) <= |ms|
    ensures s.overallSurvival.count == Count(ms, Reported(OverallSurvival)) <= |ms|
    ensures s.progressionFreeSurvival.count == Count(ms, Reported(ProgressionFreeSurvival)) <= |ms|
    ensures s.timeToProgression == Summarize(PresentValues(ms, TimeToProgression))
    ensures s.overallSurvival == Summarize(PresentValues(ms, OverallSurvival))
    ensures s.progressionFreeSurvival == Summarize(PresentValues(ms, ProgressionFreeSurvival))
  {
    var progressed := Count(ms, Progressed);
    var rate := Rate(progressed, |ms|);
    SurvivalStatistics(
      |ms|,
      Count(ms, IsAlive),
      progressed,
      rate,
      Summarize(PresentValues(ms, TimeToProgression)),
      Summarize(PresentValues(ms, OverallSurvival)),
      Summarize(PresentValues(ms, ProgressionFreeSurvival)))
  }

  /** `get_survival_statistics(patient_ids)`. */
  function GetSurvivalStatistics(patients: seq<Patient>, visits: seq<FollowUpVisit>, patientIds: seq<int>): SurvivalStatistics
  {
    SurvivalStatisticsFrom(SurvivalMetricsOf(patients, visits, patientIds))
  }

  /** A count over a sequence whose elements all satisfy `q` whenever they satisfy `p` is no larger. */
  lemma {:induction false} CountMonotone<T>(s: seq<T>, p: T -> bool, q: T -> bool)
    requires forall i :: 0 <= i < |s| && p(s[i]) ==> q(s[i])
    ensures Count(s, p) <= Count(s, q)
  {
    if s != [] {
      CountMonotone(s[1..], p, q);
    }
  }

  lemma {:induction false} CountSame<T>(s: seq<T>, p: T -> bool, q: T -> bool)
    requires forall i :: 0 <= i < |s| ==> (p(s[i]) <==> q(s[i]))
    ensures Count(s, p) == Count(s, q)
  {
    if s != [] {
      CountSame(s[1..], p, q);
    }
  }

  /**
   * Cohort-level consequences of the per-patient rules: everyone is reported
   * alive, progression-free survival is reported exactly for the patients with an
   * overall survival, and a time to progression only for progressed patients.
   */
  lemma CohortSurvivalInvariants(patients: seq<Patient>, visits: seq<FollowUpVisit>, patientIds: seq<int>)
    ensures var s := GetSurvivalStatistics(patients, visits, patientIds);
      && s.totalPatients == |SelectedPatients(patients, patientIds)|
      && s.alivePatients == s.totalPatients
      && s.progressionFreeSurvival.count == s.overallSurvival.count
      && s.timeToProgression.count <= s.progressedPatients
  {
    var ms := SurvivalMetricsOf(patients, visits, patientIds);
    CountSame(ms, IsAlive, _ => true);
    CountAllTrue(ms);
    CountSame(ms, Reported(ProgressionFreeSurvival), Reported(OverallSurvival));
    CountMonotone(ms, Reported(TimeToProgression), Progressed);
  }

  lemma {:induction false} CountAllTrue<T>(s: seq<T>)
    ensures Count(s, _ => true) == |s|
  {
    if s != [] {
      CountAllTrue(s[1..]);
    }
  }

  /** An empty cohort has a progression rate of 0 and no means or medians. */
  lemma EmptyCohortStatistics(visits: seq<FollowUpVisit>, patientIds: seq<int>)
    ensures var s := GetSurvivalStatistics([], visits, patientIds);
      && s.totalPatients == 0 && s.progressionRate == 0.0
      && s.overallSurvival.meanDays.None? && s.overallSurvival.medianDays.None?
  {
  }
}
