/**
 * The clinical records the analytics reads, and the enumerations of the
 * data model. Only the columns the analytics and the web handlers compute with
 * are kept. A calendar date is represented by its day ordinal (`Day`), so the
 * Python expression `(a - b).days` is the integer `a - b`; the age computation,
 * which needs year, month and day, uses `CalendarDate`.
 */
module ClinicalTypes {

  datatype Option<+T> = None | Some(value: T)

  /** A calendar date as a day ordinal. */
  type Day = int

  datatype CalendarDate = CalendarDate(year: int, month: int, day: int)

  datatype Gender = Male | Female | OtherGender | UnknownGender

  datatype WhoGrade = GradeI | GradeII | GradeIII | GradeIV

  datatype IdhStatus = Wildtype | Mutant | IdhUnknown

  datatype MgmtStatus = Methylated | Unmethylated | MgmtUnknown

  datatype TreatmentType = Radiation | Chemotherapy | Immunotherapy | TargetedTherapy | Combination

  datatype ImagingResponse = CompleteResponse | PartialResponse | StableDisease | ProgressiveDisease

  /** The stored string value of each enumeration member (`Enum.value`). */
  function WhoGradeValue(g: WhoGrade): string
  {
    match g
    case GradeI => "I"
    case GradeII => "II"
    case GradeIII => "III"
    case GradeIV => "IV"
  }

  function IdhValue(s: IdhStatus): string
  {
    match s
    case Wildtype => "wildtype"
    case Mutant => "mutant"
    case IdhUnknown => "unknown"
  }

  function MgmtValue(s: MgmtStatus): string
  {
    match s
    case Methylated => "methylated"
    case Unmethylated => "unmethylated"
    case MgmtUnknown => "unknown"
  }

  function GenderValue(g: Gender): string
  {
    match g
    case Male => "male"
    case Female => "female"
    case OtherGender => "other"
    case UnknownGender => "unknown"
  }

  datatype Patient = Patient(
    id: int,
    medicalRecordNumber: string,
    dateOfBirth: Option<CalendarDate>,
    gender: Gender,
    initialDiagnosisDate: Option<Day>)

  datatype FollowUpVisit = FollowUpVisit(
    id: int,
    patientId: int,
    visitDate: Day,
    imagingResponse: Option<ImagingResponse>)

  datatype Treatment = Treatment(
    id: int,
    patientId: int,
    treatmentType: TreatmentType,
    startDate: Day,
    endDate: Option<Day>)

  datatype Pathology = Pathology(
    id: int,
    patientId: int,
    specimenDate: Day,
    whoGrade: Option<WhoGrade>,
    idhStatus: Option<IdhStatus>,
    mgmtStatus: Option<MgmtStatus>)

  /** The follow-up visits recorded for one patient (`filter(patient_id == id)`). */
  function VisitsOf(visits: seq<FollowUpVisit>, patientId: int): (r: seq<FollowUpVisit>)
    ensures forall v :: v in r <==> v in visits && v.patientId == patientId
  {
    if visits == [] then []
    else
      assert forall v :: v in visits <==> v == visits[0] || v in visits[1..];
      (if visits[0].patientId == patientId then [visits[0]] else []) + VisitsOf(visits[1..], patientId)
  }

  /**
   * `Patient.id.in_(patient_ids)` guarded by `if patient_ids:` — an empty id
   * list selects every patient, not none.
   */
  predicate InCohort(id: int, patientIds: seq<int>)
  {
    |patientIds| == 0 || id in patientIds
  }

  function SelectedPatients(patients: seq<Patient>, patientIds: seq<int>): (r: seq<Patient>)
    ensures forall p :: p in r <==> p in patients && InCohort(p.id, patientIds)
    ensures |r| <= |patients|
  {
    if patients == [] then []
    else
      assert forall p :: p in patients <==> p == patients[0] || p in patients[1..];
      (if InCohort(patients[0].id, patientIds) then [patients[0]] else [])
        + SelectedPatients(patients[1..], patientIds)
  }

  /** An empty id list is the whole table, in table order. */
  lemma {:induction false} EmptyIdsSelectEveryone(patients: seq<Patient>)
    ensures SelectedPatients(patients, []) == patients
  {
    if patients != [] {
      EmptyIdsSelectEveryone(patients[1..]);
      assert patients == [patients[0]] + patients[1..];
    }
  }
}
