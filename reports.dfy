/**
 * The cohort table and summary statistics of the reports page (`get_reports`)
 * once its query has produced the cohort's patients: one row per patient with
 * the age, the markers of the most recent pathology report and the date of
 * the most recent surgery, then counters over the rows and age statistics.
 * Today's date is a parameter.
 */
module Reports {
  import opened ClinicalTypes
  import opened Statistics
  import Timeline

  /** `(a.month, a.day) < (b.month, b.day)`: `a` falls earlier in the year than `b`. */
  predicate EarlierInYear(a: CalendarDate, b: CalendarDate)
  {
    a.month < b.month || (a.month == b.month && a.day < b.day)
  }

  /** `today.year - dob.year - ((today.month, today.day) < (dob.month, dob.day))` */
  function Age(today: CalendarDate, dob: CalendarDate): int
  {
    today.year - dob.year - (if EarlierInYear(today, dob) then 1 else 0)
  }

  /** Dates in calendar order: by year, then month, then day. */
  predicate DateBefore(a: CalendarDate, b: CalendarDate)
  {
    a.year < b.year || (a.year == b.year && EarlierInYear(a, b))
  }

  /** The `n`-th birthday. */
  function Birthday(dob: CalendarDate, n: int): CalendarDate
  {
    CalendarDate(dob.year + n, dob.month, dob.day)
  }

  /**
   * The age is the number of completed years: the birthday of that age has
   * been reached by today and the next one has not, and no other number has
   * this property.
   */
  lemma AgeIsCompletedYears(today: CalendarDate, dob: CalendarDate, n: int)
    ensures !DateBefore(today, Birthday(dob, Age(today, dob)))
    ensures DateBefore(today, Birthday(dob, Age(today, dob) + 1))
    ensures !DateBefore(today, Birthday(dob, n)) && DateBefore(today, Birthday(dob, n + 1)) ==> n == Age(today, dob)
  {
  }

  /** A patient born on or before today has a non-negative age. */
  lemma AgeOfBornPatient(today: CalendarDate, dob: CalendarDate)
    requires !DateBefore(today, dob)
    ensures Age(today, dob) >= 0
  {
  }

  /** `age = None` unless the patient has a date of birth. */
  function AgeOf(today: CalendarDate, p: Patient): (a: Option<int>)
    ensures a.None? <==> p.dateOfBirth.None?
    ensures a.Some? ==> a.value == Age(today, p.dateOfBirth.value)
  {
    if p.dateOfBirth.Some? then Some(Age(today, p.dateOfBirth.value)) else None
  }

  /**
   * `filter(patient_id == id).order_by(specimen_date.desc()).first()`: a report
   * of the patient with the latest specimen date (the first such in table
   * order).
   */
  function MostRecentPathology(pathologies: seq<Pathology>, patientId: int): (r: Option<Pathology>)
    ensures r.None? <==> forall q :: q in pathologies ==> q.patientId != patientId
    ensures r.Some? ==> r.value in pathologies && r.value.patientId == patientId
    ensures r.Some? ==> forall q :: q in pathologies && q.patientId == patientId ==> q.specimenDate <= r.value.specimenDate
  {
    if pathologies == [] then None
    else
      var rest := MostRecentPathology(pathologies[1..], patientId);
      assert forall q :: q in pathologies <==> q == pathologies[0] || q in pathologies[1..];
      if pathologies[0].patientId != patientId then rest
      else if rest.None? || pathologies[0].specimenDate >= rest.value.specimenDate then Some(pathologies[0])
      else rest
  }

  /**
   * `surgery.surgery_date` of `filter(patient_id == id).order_by(surgery_date.desc()).first()`:
   * the latest surgery date of the patient, none without a dated surgery.
   */
  function LatestSurgeryDate(surgeries: seq<Timeline.DatedRecord>, patientId: int): (r: Option<Day>)
    ensures r.None? <==> forall s :: s in surgeries && s.patientId == patientId ==> s.date.None?
    ensures r.Some? ==> exists s :: s in surgeries && s.patientId == patientId && s.date == r
    ensures r.Some? ==> forall s :: s in surgeries && s.patientId == patientId && s.date.Some? ==> s.date.value <= r.value
  {
    if surgeries == [] then None
    else
      var rest := LatestSurgeryDate(surgeries[1..], patientId);
      var s := surgeries[0];
      assert forall q :: q in surgeries <==> q == s || q in surgeries[1..];
      if s.patientId != patientId || s.date.None? then rest
      else if rest.None? || s.date.value >= rest.value then s.date
      else rest
  }

  /** One entry of `cohort_data`, without the display-only columns. */
  datatype CohortRow = CohortRow(
    id: int,
    mrn: string,
    age: Option<int>,
    gender: string,
    diagnosisDate: Option<Day>,
    idhStatus: string,
    mgmtStatus: string,
    whoGrade: string,
    surgeryDate: Option<Day>)

  /** `pathology.idh_status.value if pathology and pathology.idh_status else "Unknown"` */
  function IdhLabel(pathology: Option<Pathology>): string
  {
    if pathology.Some? && pathology.value.idhStatus.Some? then IdhValue(pathology.value.idhStatus.value) else "Unknown"
  }

  function MgmtLabel(pathology: Option<Pathology>): string
  {
    if pathology.Some? && pathology.value.mgmtStatus.Some? then MgmtValue(pathology.value.mgmtStatus.value) else "Unknown"
  }

  /** `f"Grade {pathology.who_grade.value}"` or `"Unknown"`. */
  function GradeLabel(pathology: Option<Pathology>): string
  {
    if pathology.Some? && pathology.value.whoGrade.Some? then "Grade " + WhoGradeValue(pathology.value.whoGrade.value) else "Unknown"
  }

  function CohortRowOf(today: CalendarDate, p: Patient, pathologies: seq<Pathology>,
                       surgeries: seq<Timeline.DatedRecord>): CohortRow
  {
    var pathology := MostRecentPathology(pathologies, p.id);
    CohortRow(p.id, p.medicalRecordNumber, AgeOf(today, p), GenderValue(p.gender), p.initialDiagnosisDate,
              IdhLabel(pathology), MgmtLabel(pathology), GradeLabel(pathology),
              LatestSurgeryDate(surgeries, p.id))
  }

  /** `cohort_data`: one row per patient of the cohort, in order. */
  function CohortOf(today: CalendarDate, patients: seq<Patient>, pathologies: seq<Pathology>,
                    surgeries: seq<Timeline.DatedRecord>): seq<CohortRow>
  {
    seq(|patients|, i requires 0 <= i < |patients| => CohortRowOf(today, patients[i], pathologies, surgeries))
  }

  /** The loop that builds `cohort_data`. */
  method BuildCohort(today: CalendarDate, patients: seq<Patient>, pathologies: seq<Pathology>,
                     surgeries: seq<Timeline.DatedRecord>) returns (rows: seq<CohortRow>)
    ensures rows == CohortOf(today, patients, pathologies, surgeries)
  {
    rows := [];
    for i := 0 to |patients|
      invariant rows == CohortOf(today, patients[..i], pathologies, surgeries)
    {
      rows := rows + [CohortRowOf(today, patients[i], pathologies, surgeries)];
    }
    assert patients[..|patients|] == patients;
  }

  /** A row's IDH column holds one of the stored values or `"Unknown"`. */
  lemma RowLabels(row: CohortRow, today: CalendarDate, p: Patient, pathologies: seq<Pathology>,
                  surgeries: seq<Timeline.DatedRecord>)
    requires row == CohortRowOf(today, p, pathologies, surgeries)
    ensures row.idhStatus in {"wildtype", "mutant", "unknown", "Unknown"}
    ensures row.mgmtStatus in {"methylated", "unmethylated", "unknown", "Unknown"}
    ensures row.idhStatus == "Unknown" <==>
      (MostRecentPathology(pathologies, p.id).None? || MostRecentPathology(pathologies, p.id).value.idhStatus.None?)
  {
  }

  function HasIdh(text: string): CohortRow -> bool
  {
    (r: CohortRow) => r.idhStatus == text
  }

  function HasMgmt(text: string): CohortRow -> bool
  {
    (r: CohortRow) => r.mgmtStatus == text
  }

  function HasGender(text: string): CohortRow -> bool
  {
    (r: CohortRow) => r.gender == text
  }

  datatype IdhDistribution = IdhDistribution(wildType: nat, mutated: nat, unknown: nat)

  datatype MgmtDistribution = MgmtDistribution(methylated: nat, unmethylated: nat, unknown: nat)

  datatype AgeStats = AgeStats(mean: Option<real>, median: Option<int>, min: Option<int>, max: Option<int>)

  datatype SummaryStats = SummaryStats(
    totalPatients: nat,
    idhDistribution: IdhDistribution,
    mgmtDistribution: MgmtDistribution,
    ageStats: AgeStats,
    maleCount: nat,
    femaleCount: nat)

  /** The row's age is known and equals `a`. */
  function AgeIs(a: int): CohortRow -> bool
  {
    (r: CohortRow) => r.age == Some(a)
  }

  /**
   * `[p["age"] for p in cohort_data if p["age"] is not None]`: every known age,
   * as often as there are rows with that age.
   */
  function Ages(rows: seq<CohortRow>): (ages: seq<int>)
    ensures |ages| <= |rows|
    ensures forall a :: a in ages <==> exists r :: r in rows && r.age == Some(a)
    ensures forall a :: multiset(ages)[a] == Count(rows, AgeIs(a))
  {
    if rows == [] then []
    else
      assert forall r :: r in rows <==> r == rows[0] || r in rows[1..];
      var head := if rows[0].age.Some? then [rows[0].age.value] else [];
      assert multiset(head + Ages(rows[1..])) == multiset(head) + multiset(Ages(rows[1..]));
      head + Ages(rows[1..])
  }

  /**
   * `age_stats`: all four are none without ages; otherwise the minimum and the
   * maximum are ages that bound all others, the mean is the sum over the number
   * of ages and lies between them, and the median is the element at index
   * `len // 2` of the sorted ages, with at most half of the ages below it and
   * fewer than half above.
   */
  function AgeStatsOf(ages: seq<int>): (s: AgeStats)
    ensures |ages| == 0 <==> s.mean.None?
    ensures |ages| == 0 <==> s.median.None?
    ensures |ages| == 0 <==> s.min.None?
    ensures |ages| == 0 <==> s.max.None?
    ensures s.min.Some? ==> s.min.value in ages && forall a :: a in ages ==> s.min.value <= a
    ensures s.max.Some? ==> s.max.value in ages && forall a :: a in ages ==> a <= s.max.value
    ensures s.mean.Some? ==> IsMeanOf(s.mean.value, ages)
    ensures s.mean.Some? && s.min.Some? && s.max.Some? ==> s.min.value as real <= s.mean.value <= s.max.value as real
    ensures s.median.Some? ==> forall t :: Sorted(t) && multiset(t) == multiset(ages) ==> |t| == |ages| && s.median.value == t[|ages| / 2]
    ensures s.median.Some? ==> (s.median.value in ages
      && Count(ages, Below(s.median.value as real)) <= |ages| / 2
      && Count(ages, Above(s.median.value as real)) <= |ages| - 1 - |ages| / 2)
  {
    if |ages| == 0 then AgeStats(None, None, None, None)
    else AgeStats(Some(Mean(ages)), Some(UpperMiddle(ages)), Some(Min(ages)), Some(Max(ages)))
  }

  /** `summary_stats` as the handler computes it. */
  function SummaryOf(rows: seq<CohortRow>): SummaryStats
  {
    SummaryStats(
      |rows|,
      IdhDistribution(Count(rows, HasIdh("wild_type")), Count(rows, HasIdh("mutated")), Count(rows, HasIdh("Unknown"))),
      MgmtDistribution(Count(rows, HasMgmt("methylated")), Count(rows, HasMgmt("unmethylated")),
                       Count(rows, HasMgmt("Unknown"))),
      AgeStatsOf(Ages(rows)),
      Count(rows, HasGender("male")),
      Count(rows, HasGender("female")))
  }

  /**
   * The reports page after its query: the cohort rows and the summary over
   * them.
   */
  method GetReports(today: CalendarDate, patients: seq<Patient>, pathologies: seq<Pathology>,
                    surgeries: seq<Timeline.DatedRecord>)
    returns (rows: seq<CohortRow>, summary: SummaryStats)
    ensures rows == CohortOf(today, patients, pathologies, surgeries)
    ensures summary == SummaryOf(rows)
  {
    rows := BuildCohort(today, patients, pathologies, surgeries);
    summary := SummaryOf(rows);
  }

  /** Three conditions no element meets two of are counted at most once each. */
  lemma {:induction false} CountDisjoint<T>(s: seq<T>, p: T -> bool, q: T -> bool, r: T -> bool)
    requires forall x :: x in s ==> !(p(x) && q(x)) && !(p(x) && r(x)) && !(q(x) && r(x))
    ensures Count(s, p) + Count(s, q) + Count(s, r) <= |s|
  {
    if s != [] {
      assert forall x :: x in s[1..] ==> x in s;
      CountDisjoint(s[1..], p, q, r);
    }
  }

  /** Three conditions every element meets exactly one of are counted exactly once. */
  lemma {:induction false} CountPartition<T>(s: seq<T>, p: T -> bool, q: T -> bool, r: T -> bool)
    requires forall x :: x in s ==> (p(x) || q(x) || r(x))
    requires forall x :: x in s ==> !(p(x) && q(x)) && !(p(x) && r(x)) && !(q(x) && r(x))
    ensures Count(s, p) + Count(s, q) + Count(s, r) == |s|
  {
    if s != [] {
      assert forall x :: x in s[1..] ==> x in s;
      CountPartition(s[1..], p, q, r);
    }
  }

  /**
   * The counters compare with distinct literals, so no distribution counts a
   * patient twice, and male and female together do not exceed the cohort.
   */
  lemma SummaryCountersBounded(rows: seq<CohortRow>)
    ensures var s := SummaryOf(rows);
      && s.idhDistribution.wildType + s.idhDistribution.mutated + s.idhDistribution.unknown <= s.totalPatients
      && s.mgmtDistribution.methylated + s.mgmtDistribution.unmethylated + s.mgmtDistribution.unknown <= s.totalPatients
      && s.maleCount + s.femaleCount <= s.totalPatients
  {
    CountDisjoint(rows, HasIdh("wild_type"), HasIdh("mutated"), HasIdh("Unknown"));
    CountDisjoint(rows, HasMgmt("methylated"), HasMgmt("unmethylated"), HasMgmt("Unknown"));
    CountDisjoint(rows, HasGender("male"), HasGender("female"), HasGender("other"));
  }

  /**
   * As written, the IDH counters compare with `"wild_type"` and `"mutated"`,
   * which no row holds (the stored values are `"wildtype"` and `"mutant"`), so
   * both are always 0.
   */
  lemma IdhLiteralCountersAlwaysZero(today: CalendarDate, patients: seq<Patient>, pathologies: seq<Pathology>,
                                     surgeries: seq<Timeline.DatedRecord>)
    ensures var s := SummaryOf(CohortOf(today, patients, pathologies, surgeries));
      s.idhDistribution.wildType == 0 && s.idhDistribution.mutated == 0
  {
    var rows := CohortOf(today, patients, pathologies, surgeries);
    forall i | 0 <= i < |rows| ensures rows[i].idhStatus != "wild_type" && rows[i].idhStatus != "mutated" {
      RowLabels(rows[i], today, patients[i], pathologies, surgeries);
    }
    CountNone(rows, HasIdh("wild_type"));
    CountNone(rows, HasIdh("mutated"));
  }

  /**
   * One IDH-wildtype patient whose MGMT status is recorded as unknown: the
   * cohort has one patient, yet as written every IDH counter and every MGMT
   * counter is 0 (a stored `"unknown"` is not the literal `"Unknown"`).
   */
  lemma MarkerCountersScenario()
    ensures var today := CalendarDate(2024, 6, 1);
      var p := Patient(1, "MRN1", Some(CalendarDate(1960, 7, 15)), Male, Some(100));
      var path := Pathology(10, 1, 90, Some(GradeIV), Some(Wildtype), Some(MgmtUnknown));
      var s := SummaryOf(CohortOf(today, [p], [path], []));
      && s.totalPatients == 1
      && s.idhDistribution == IdhDistribution(0, 0, 0)
      && s.mgmtDistribution == MgmtDistribution(0, 0, 0)
      && s.ageStats.median == Some(63)
  {
    var today := CalendarDate(2024, 6, 1);
    var p := Patient(1, "MRN1", Some(CalendarDate(1960, 7, 15)), Male, Some(100));
    var path := Pathology(10, 1, 90, Some(GradeIV), Some(Wildtype), Some(MgmtUnknown));
    var rows := CohortOf(today, [p], [path], []);
    assert MostRecentPathology([path], 1) == Some(path) by {
      assert [path][1..] == [];
    }
    assert AgeOf(today, p) == Some(63);
    assert GradeLabel(Some(path)) == "Grade IV";
    assert |rows| == 1 && rows[0] == CohortRowOf(today, p, [path], []);
    assert rows == [CohortRow(1, "MRN1", Some(63), "male", Some(100), "wildtype", "unknown", "Grade IV", None)];
    assert rows[1..] == [];
    assert Ages(rows) == [63];
  }

  /** The distributions counted by the stored values, a missing or unknown marker as unknown. */
  predicate IdhUnknownLabel(r: CohortRow) { r.idhStatus == "unknown" || r.idhStatus == "Unknown" }

  predicate MgmtUnknownLabel(r: CohortRow) { r.mgmtStatus == "unknown" || r.mgmtStatus == "Unknown" }

  function CorrectedIdhDistribution(rows: seq<CohortRow>): IdhDistribution
  {
    IdhDistribution(Count(rows, HasIdh("wildtype")), Count(rows, HasIdh("mutant")), Count(rows, IdhUnknownLabel))
  }

  function CorrectedMgmtDistribution(rows: seq<CohortRow>): MgmtDistribution
  {
    MgmtDistribution(Count(rows, HasMgmt("methylated")), Count(rows, HasMgmt("unmethylated")), Count(rows, MgmtUnknownLabel))
  }

  /** `summary_stats` with the distributions counted by the stored values. */
  function CorrectedSummaryOf(rows: seq<CohortRow>): SummaryStats
  {
    SummaryOf(rows).(idhDistribution := CorrectedIdhDistribution(rows), mgmtDistribution := CorrectedMgmtDistribution(rows))
  }

  /**
   * Counted by the stored values, each distribution splits the whole cohort:
   * every patient is counted exactly once, and a wildtype or mutant patient is
   * counted as such.
   */
  lemma CorrectedDistributionsPartitionCohort(today: CalendarDate, patients: seq<Patient>, pathologies: seq<Pathology>,
                                              surgeries: seq<Timeline.DatedRecord>)
    ensures var s := CorrectedSummaryOf(CohortOf(today, patients, pathologies, surgeries));
      && s.idhDistribution.wildType + s.idhDistribution.mutated + s.idhDistribution.unknown == s.totalPatients
      && s.mgmtDistribution.methylated + s.mgmtDistribution.unmethylated + s.mgmtDistribution.unknown == s.totalPatients
  {
    var rows := CohortOf(today, patients, pathologies, surgeries);
    forall r | r in rows
      ensures r.idhStatus in {"wildtype", "mutant", "unknown", "Unknown"}
      ensures r.mgmtStatus in {"methylated", "unmethylated", "unknown", "Unknown"}
    {
      var i :| 0 <= i < |rows| && rows[i] == r;
      RowLabels(r, today, patients[i], pathologies, surgeries);
    }
    CountPartition(rows, HasIdh("wildtype"), HasIdh("mutant"), IdhUnknownLabel);
    CountPartition(rows, HasMgmt("methylated"), HasMgmt("unmethylated"), MgmtUnknownLabel);
  }

  /** The corrected IDH counter counts exactly the patients whose latest report says wildtype. */
  lemma CorrectedWildtypeCount(today: CalendarDate, patients: seq<Patient>, pathologies: seq<Pathology>,
                               surgeries: seq<Timeline.DatedRecord>)
    ensures CorrectedSummaryOf(CohortOf(today, patients, pathologies, surgeries)).idhDistribution.wildType
      == Count(patients, LatestIdhIs(pathologies, Wildtype))
  {
    var rows := CohortOf(today, patients, pathologies, surgeries);
    CountAlong(rows, patients, HasIdh("wildtype"), LatestIdhIs(pathologies, Wildtype), today, pathologies, surgeries);
  }

  /** The patient's most recent report records IDH status `s`. */
  function LatestIdhIs(pathologies: seq<Pathology>, s: IdhStatus): Patient -> bool
  {
    (p: Patient) =>
      var latest := MostRecentPathology(pathologies, p.id);
      latest.Some? && latest.value.idhStatus == Some(s)
  }

  lemma {:induction false} CountAlong(rows: seq<CohortRow>, patients: seq<Patient>, p: CohortRow -> bool, q: Patient -> bool,
                                      today: CalendarDate, pathologies: seq<Pathology>, surgeries: seq<Timeline.DatedRecord>)
    requires |rows| == |patients|
    requires forall i :: 0 <= i < |rows| ==> rows[i] == CohortRowOf(today, patients[i], pathologies, surgeries)
    requires forall i :: 0 <= i < |rows| ==> (p(rows[i]) <==> q(patients[i]))
    ensures Count(rows, p) == Count(patients, q)
  {
    if rows != [] {
      CountAlong(rows[1..], patients[1..], p, q, today, pathologies, surgeries);
    }
  }
}
