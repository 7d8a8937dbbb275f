/**
 * The patient timeline of the web handlers `get_patient_timeline`,
 * `get_patient_timeline_interactive` and `api_get_patient_timeline`: one
 * event per dated surgery, pathology report, treatment and follow-up visit of
 * the patient, plus a diagnosis event when the patient has a diagnosis date,
 * then sorted by date (newest first for the page and the API, oldest first
 * for the interactive view). An event keeps what decides its place and its
 * identity: the date, the kind and the id of the record it comes from. Titles,
 * descriptions, details and links are rendering.
 */
module Timeline {
  import opened ClinicalTypes
  import opened Statistics

  datatype EventKind = SurgeryEvent | PathologyEvent | TreatmentEvent | FollowUpEvent | DiagnosisEvent

  /** The `"type"` of an event. */
  function KindValue(k: EventKind): string
  {
    match k
    case SurgeryEvent => "surgery"
    case PathologyEvent => "pathology"
    case TreatmentEvent => "treatment"
    case FollowUpEvent => "follow_up"
    case DiagnosisEvent => "diagnosis"
  }

  /**
   * A surgery, pathology, treatment or follow-up row as the timeline sees it:
   * its id, its patient and its date (`surgery_date`, `specimen_date`,
   * `start_date` or `visit_date`), which the handlers test before use.
   */
  datatype DatedRecord = DatedRecord(id: int, patientId: int, date: Option<Day>)

  /** The diagnosis event carries no record id. */
  datatype TimelineEvent = TimelineEvent(date: Day, kind: EventKind, referenceId: Option<int>)

  /** The five tables the handlers query. */
  datatype Tables = Tables(
    patients: seq<Patient>,
    surgeries: seq<DatedRecord>,
    pathologies: seq<DatedRecord>,
    treatments: seq<DatedRecord>,
    visits: seq<DatedRecord>)

  predicate IsDated(r: DatedRecord) { r.date.Some? }

  function OfKind(k: EventKind): TimelineEvent -> bool
  {
    (e: TimelineEvent) => e.kind == k
  }

  /** `db.query(Patient).filter(Patient.id == patient_id).first()` */
  function FindPatient(patients: seq<Patient>, patientId: int): (r: Option<Patient>)
    ensures r.None? <==> forall p :: p in patients ==> p.id != patientId
    ensures r.Some? ==> r.value in patients && r.value.id == patientId
  {
    if patients == [] then None
    else if patients[0].id == patientId then Some(patients[0])
    else FindPatient(patients[1..], patientId)
  }

  /** `.filter(X.patient_id == patient_id).all()`, in table order. */
  function RecordsOf(records: seq<DatedRecord>, patientId: int): (r: seq<DatedRecord>)
    ensures forall x :: x in r <==> x in records && x.patientId == patientId
  {
    if records == [] then []
    else
      var n := |records| - 1;
      assert forall x :: x in records <==> x in records[..n] || x == records[n] by {
        assert records == records[..n] + [records[n]];
      }
      RecordsOf(records[..n], patientId) + (if records[n].patientId == patientId then [records[n]] else [])
  }

  /** The event of one record, if it has a date. */
  function EventOf(r: DatedRecord, kind: EventKind): seq<TimelineEvent>
  {
    if r.date.Some? then [TimelineEvent(r.date.value, kind, Some(r.id))] else []
  }

  /** The events one of the four record loops appends, in record order. */
  function EventsOf(records: seq<DatedRecord>, kind: EventKind): seq<TimelineEvent>
  {
    if records == [] then []
    else
      var n := |records| - 1;
      EventsOf(records[..n], kind) + EventOf(records[n], kind)
  }

  /** The diagnosis event, present exactly when there is a diagnosis date. */
  function DiagnosisEvents(p: Patient): seq<TimelineEvent>
  {
    if p.initialDiagnosisDate.Some? then [TimelineEvent(p.initialDiagnosisDate.value, DiagnosisEvent, None)] else []
  }

  /** The unsorted `timeline_events` of patient `p`. */
  function TimelineOf(t: Tables, p: Patient): seq<TimelineEvent>
  {
    EventsOf(RecordsOf(t.surgeries, p.id), SurgeryEvent)
      + EventsOf(RecordsOf(t.pathologies, p.id), PathologyEvent)
      + EventsOf(RecordsOf(t.treatments, p.id), TreatmentEvent)
      + EventsOf(RecordsOf(t.visits, p.id), FollowUpEvent)
      + DiagnosisEvents(p)
  }

  /**
   * What a record loop contributes: one event of its kind per dated record and
   * none for an undated one; each event is the date and id of such a record.
   */
  lemma {:induction false} EventsOfFacts(records: seq<DatedRecord>, kind: EventKind)
    ensures |EventsOf(records, kind)| == Count(records, IsDated)
    ensures Count(EventsOf(records, kind), OfKind(kind)) == |EventsOf(records, kind)|
    ensures forall e :: e in EventsOf(records, kind) <==>
      exists r :: r in records && r.date == Some(e.date) && e == TimelineEvent(e.date, kind, Some(r.id))
  {
    if records != [] {
      var n := |records| - 1;
      var pre := records[..n];
      EventsOfFacts(pre, kind);
      assert records == pre + [records[n]];
      CountAppend(pre, [records[n]], IsDated);
      CountAppend(EventsOf(pre, kind), EventOf(records[n], kind), OfKind(kind));
      assert forall r :: r in records <==> r in pre || r == records[n];
    }
  }

  /** Every event of a record loop is of that loop's kind. */
  lemma {:induction false} EventsOfOtherKind(records: seq<DatedRecord>, kind: EventKind, k: EventKind)
    requires k != kind
    ensures Count(EventsOf(records, kind), OfKind(k)) == 0
  {
    if records != [] {
      var n := |records| - 1;
      EventsOfOtherKind(records[..n], kind, k);
      CountAppend(EventsOf(records[..n], kind), EventOf(records[n], kind), OfKind(k));
    }
  }

  /** The number of dated records of the patient in one table. */
  function DatedCount(records: seq<DatedRecord>, patientId: int): nat
  {
    Count(RecordsOf(records, patientId), IsDated)
  }

  /** The table whose records give events of kind `k`. */
  function TableOf(t: Tables, k: EventKind): seq<DatedRecord>
  {
    match k
    case SurgeryEvent => t.surgeries
    case PathologyEvent => t.pathologies
    case TreatmentEvent => t.treatments
    case FollowUpEvent => t.visits
    case DiagnosisEvent => []
  }

  /**
   * The timeline has one event per dated record of the patient in the table of
   * that kind, and exactly one diagnosis event when the patient has a
   * diagnosis date and none otherwise.
   */
  lemma TimelineKindCounts(t: Tables, p: Patient, k: EventKind)
    ensures k != DiagnosisEvent ==> Count(TimelineOf(t, p), OfKind(k)) == DatedCount(TableOf(t, k), p.id)
    ensures k == DiagnosisEvent ==>
      Count(TimelineOf(t, p), OfKind(k)) == (if p.initialDiagnosisDate.Some? then 1 else 0)
  {
    var s := EventsOf(RecordsOf(t.surgeries, p.id), SurgeryEvent);
    var g := EventsOf(RecordsOf(t.pathologies, p.id), PathologyEvent);
    var r := EventsOf(RecordsOf(t.treatments, p.id), TreatmentEvent);
    var v := EventsOf(RecordsOf(t.visits, p.id), FollowUpEvent);
    var d := DiagnosisEvents(p);
    CountAppend(s, g, OfKind(k));
    CountAppend(s + g, r, OfKind(k));
    CountAppend(s + g + r, v, OfKind(k));
    CountAppend(s + g + r + v, d, OfKind(k));
    KindCount(RecordsOf(t.surgeries, p.id), SurgeryEvent, k);
    KindCount(RecordsOf(t.pathologies, p.id), PathologyEvent, k);
    KindCount(RecordsOf(t.treatments, p.id), TreatmentEvent, k);
    KindCount(RecordsOf(t.visits, p.id), FollowUpEvent, k);
    DiagnosisCount(p, k);
  }

  lemma DiagnosisCount(p: Patient, k: EventKind)
    ensures Count(DiagnosisEvents(p), OfKind(k))
      == if k == DiagnosisEvent && p.initialDiagnosisDate.Some? then 1 else 0
  {
    var d := DiagnosisEvents(p);
    if p.initialDiagnosisDate.Some? {
      assert d[1..] == [];
    }
  }

  lemma KindCount(records: seq<DatedRecord>, kind: EventKind, k: EventKind)
    ensures Count(EventsOf(records, kind), OfKind(k)) == if k == kind then Count(records, IsDated) else 0
  {
    if k == kind {
      EventsOfFacts(records, kind);
    } else {
      EventsOfOtherKind(records, kind, k);
    }
  }

  /** The length of the timeline: every dated record plus the diagnosis event. */
  lemma TimelineLength(t: Tables, p: Patient)
    ensures |TimelineOf(t, p)| == DatedCount(t.surgeries, p.id) + DatedCount(t.pathologies, p.id)
      + DatedCount(t.treatments, p.id) + DatedCount(t.visits, p.id)
      + (if p.initialDiagnosisDate.Some? then 1 else 0)
  {
    EventsOfFacts(RecordsOf(t.surgeries, p.id), SurgeryEvent);
    EventsOfFacts(RecordsOf(t.pathologies, p.id), PathologyEvent);
    EventsOfFacts(RecordsOf(t.treatments, p.id), TreatmentEvent);
    EventsOfFacts(RecordsOf(t.visits, p.id), FollowUpEvent);
  }

  /** A record without a date contributes no event. */
  lemma UndatedRecordGivesNoEvent(records: seq<DatedRecord>, kind: EventKind, r: DatedRecord)
    requires r in records && r.date.None?
    requires forall x :: x in records && x.id == r.id ==> x == r
    ensures forall e :: e in EventsOf(records, kind) ==> e.referenceId != Some(r.id)
  {
    EventsOfFacts(records, kind);
  }

  /** One record loop: `timeline_events.append(...)` for every dated record. */
  method AppendEvents(events: seq<TimelineEvent>, records: seq<DatedRecord>, kind: EventKind)
    returns (r: seq<TimelineEvent>)
    ensures r == events + EventsOf(records, kind)
  {
    r := events;
    for i := 0 to |records|
      invariant r == events + EventsOf(records[..i], kind)
    {
      assert records[..i + 1][..i] == records[..i];
      if records[i].date.Some? {
        r := r + [TimelineEvent(records[i].date.value, kind, Some(records[i].id))];
      }
    }
    assert records[..|records|] == records;
  }

  /** The four record loops and the diagnosis event of every timeline handler. */
  method CollectEvents(t: Tables, p: Patient) returns (events: seq<TimelineEvent>)
    ensures events == TimelineOf(t, p)
  {
    events := AppendEvents([], RecordsOf(t.surgeries, p.id), SurgeryEvent);
    assert events == EventsOf(RecordsOf(t.surgeries, p.id), SurgeryEvent);
    events := AppendEvents(events, RecordsOf(t.pathologies, p.id), PathologyEvent);
    events := AppendEvents(events, RecordsOf(t.treatments, p.id), TreatmentEvent);
    events := AppendEvents(events, RecordsOf(t.visits, p.id), FollowUpEvent);
    if p.initialDiagnosisDate.Some? {
      events := events + [TimelineEvent(p.initialDiagnosisDate.value, DiagnosisEvent, None)];
    }
  }

  /**
   * `e` may stand before `f`: a later or equal date when newest first
   * (`reverse=True`), an earlier or equal one otherwise. The ISO date strings
   * the handlers sort on compare as the dates do.
   */
  predicate Precedes(e: TimelineEvent, f: TimelineEvent, newestFirst: bool)
  {
    Rank(e, newestFirst) <= Rank(f, newestFirst)
  }

  /** The sort key, negated for `reverse=True`. */
  function Rank(e: TimelineEvent, newestFirst: bool): int
  {
    if newestFirst then -e.date else e.date
  }

  predicate InDateOrder(s: seq<TimelineEvent>, newestFirst: bool)
  {
    forall i, j :: 0 <= i < j < |s| ==> Precedes(s[i], s[j], newestFirst)
  }

  /** `timeline_events.sort(key=safe_date_key, reverse=newestFirst)`, in place. */
  method SortEvents(a: array<TimelineEvent>, newestFirst: bool)
    modifies a
    ensures InDateOrder(a[..], newestFirst)
    ensures multiset(a[..]) == multiset(old(a[..]))
  {
    var i := 0;
    while i < a.Length
      invariant 0 <= i <= a.Length
      invariant InDateOrder(a[..i], newestFirst)
      invariant multiset(a[..]) == multiset(old(a[..]))
    {
      InsertInOrder(a, i, newestFirst);
      i := i + 1;
    }
    assert a[..a.Length] == a[..];
  }

  /** Moves `a[i]` down into the ordered prefix `a[..i]` by swaps with its neighbours. */
  method InsertInOrder(a: array<TimelineEvent>, i: int, newestFirst: bool)
    modifies a
    requires 0 <= i < a.Length
    requires InDateOrder(a[..i], newestFirst)
    ensures InDateOrder(a[..i + 1], newestFirst)
    ensures multiset(a[..]) == multiset(old(a[..]))
    ensures a[i + 1..] == old(a[i + 1..])
  {
    assert forall x, y :: 0 <= x < y < i ==> Rank(a[x], newestFirst) <= Rank(a[y], newestFirst) by {
      forall x, y | 0 <= x < y < i ensures Rank(a[x], newestFirst) <= Rank(a[y], newestFirst) {
        assert a[..i][x] == a[x] && a[..i][y] == a[y];
      }
    }
    var j := i;
    while j > 0 && Rank(a[j], newestFirst) < Rank(a[j - 1], newestFirst)
      invariant 0 <= j <= i
      invariant multiset(a[..]) == multiset(old(a[..]))
      invariant a[i + 1..] == old(a[i + 1..])
      invariant forall x, y :: 0 <= x < y <= i && x != j && y != j ==> Rank(a[x], newestFirst) <= Rank(a[y], newestFirst)
      invariant forall y :: j < y <= i ==> Rank(a[j], newestFirst) < Rank(a[y], newestFirst)
    {
      Swap(a, j - 1, j);
      j := j - 1;
    }
    forall x, y | 0 <= x < y <= i ensures Rank(a[x], newestFirst) <= Rank(a[y], newestFirst) {
      if y == j && x < j - 1 {
        assert Rank(a[x], newestFirst) <= Rank(a[j - 1], newestFirst);
      }
    }
    assert forall x :: 0 <= x <= i ==> a[..i + 1][x] == a[x];
  }

  /** Exchanges two neighbouring events; the events themselves stay the same. */
  method Swap(a: array<TimelineEvent>, i: int, j: int)
    modifies a
    requires 0 <= i < j < a.Length
    ensures a[..] == old(a[..])[i := old(a[j])][j := old(a[i])]
    ensures multiset(a[..]) == multiset(old(a[..]))
  {
    ghost var before := a[..];
    a[i], a[j] := a[j], a[i];
    assert a[..] == before[i := before[j]][j := before[i]];
  }

  /** Sorting a list of events into date order, through an array. */
  method SortedTimeline(events: seq<TimelineEvent>, newestFirst: bool) returns (r: seq<TimelineEvent>)
    ensures InDateOrder(r, newestFirst)
    ensures multiset(r) == multiset(events)
  {
    var a := new TimelineEvent[|events|](i requires 0 <= i < |events| => events[i]);
    assert a[..] == events;
    SortEvents(a, newestFirst);
    r := a[..];
  }

  /** A handler result: `HTTPException(404)` or a value. */
  datatype Outcome<T> = NotFound | Found(value: T)

  /** `get_patient_timeline`: the page's events, newest first. */
  method GetPatientTimeline(t: Tables, patientId: int) returns (r: Outcome<seq<TimelineEvent>>)
    ensures r.NotFound? <==> FindPatient(t.patients, patientId).None?
    ensures r.Found? ==> (InDateOrder(r.value, true)
      && multiset(r.value) == multiset(TimelineOf(t, FindPatient(t.patients, patientId).value)))
  {
    var patient := FindPatient(t.patients, patientId);
    if patient.None? {
      return NotFound;
    }
    var events := CollectEvents(t, patient.value);
    var sorted := SortedTimeline(events, true);
    r := Found(sorted);
  }

  /** `get_patient_timeline_interactive`: the same events, oldest first. */
  method GetPatientTimelineInteractive(t: Tables, patientId: int) returns (r: Outcome<seq<TimelineEvent>>)
    ensures r.NotFound? <==> FindPatient(t.patients, patientId).None?
    ensures r.Found? ==> (InDateOrder(r.value, false)
      && multiset(r.value) == multiset(TimelineOf(t, FindPatient(t.patients, patientId).value)))
  {
    var patient := FindPatient(t.patients, patientId);
    if patient.None? {
      return NotFound;
    }
    var events := CollectEvents(t, patient.value);
    var sorted := SortedTimeline(events, false);
    r := Found(sorted);
  }

  datatype ApiTimeline = ApiTimeline(
    patientId: int,
    patientMrn: string,
    timelineEvents: seq<TimelineEvent>,
    totalEvents: nat)

  /**
   * `api_get_patient_timeline`: the events newest first, with `total_events`
   * counting every dated record of the patient and the diagnosis event.
   */
  method ApiGetPatientTimeline(t: Tables, patientId: int) returns (r: Outcome<ApiTimeline>)
    ensures r.NotFound? <==> FindPatient(t.patients, patientId).None?
    ensures r.Found? ==>
      var p := FindPatient(t.patients, patientId).value;
      && r.value.patientId == patientId
      && r.value.patientMrn == p.medicalRecordNumber
      && InDateOrder(r.value.timelineEvents, true)
      && multiset(r.value.timelineEvents) == multiset(TimelineOf(t, p))
      && r.value.totalEvents == |r.value.timelineEvents|
      && r.value.totalEvents == DatedCount(t.surgeries, p.id) + DatedCount(t.pathologies, p.id)
         + DatedCount(t.treatments, p.id) + DatedCount(t.visits, p.id)
         + (if p.initialDiagnosisDate.Some? then 1 else 0)
  {
    var patient := FindPatient(t.patients, patientId);
    if patient.None? {
      return NotFound;
    }
    var p := patient.value;
    var events := CollectEvents(t, p);
    var sorted := SortedTimeline(events, true);
    assert |sorted| == |multiset(sorted)| == |multiset(events)| == |events|;
    TimelineLength(t, p);
    r := Found(ApiTimeline(patientId, p.medicalRecordNumber, sorted, |sorted|));
  }

  /**
   * Sorting drops no event: any reordering of the timeline still holds one
   * event per dated record of each kind and one diagnosis event exactly when
   * there is a diagnosis date.
   */
  lemma SortingKeepsEveryEvent(t: Tables, p: Patient, sorted: seq<TimelineEvent>, k: EventKind)
    requires multiset(sorted) == multiset(TimelineOf(t, p))
    ensures |sorted| == |TimelineOf(t, p)|
    ensures k != DiagnosisEvent ==> Count(sorted, OfKind(k)) == DatedCount(TableOf(t, k), p.id)
    ensures k == DiagnosisEvent ==>
      Count(sorted, OfKind(k)) == (if p.initialDiagnosisDate.Some? then 1 else 0)
  {
    assert |sorted| == |multiset(sorted)| == |multiset(TimelineOf(t, p))| == |TimelineOf(t, p)|;
    CountPermutation(sorted, TimelineOf(t, p), OfKind(k));
    TimelineKindCounts(t, p, k);
  }
}
