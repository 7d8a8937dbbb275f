/**
 * `api_get_patient_navigation`: from the current patient to the patient with
 * the next larger id or the next smaller id, for stepping between timelines.
 */
module Navigation {
  import opened ClinicalTypes

  /** 404 for an unknown current patient, 400 for an unknown direction, else the neighbour's id or none. */
  datatype NavigationResult = PatientNotFound | BadDirection | Neighbour(patientId: Option<int>)

  predicate HasPatient(patients: seq<Patient>, id: int)
  {
    exists p :: p in patients && p.id == id
  }

  /** `filter(Patient.id > current).order_by(Patient.id.asc()).first()`: the smallest larger id. */
  function NextId(patients: seq<Patient>, current: int): (r: Option<int>)
    ensures r.None? <==> forall p :: p in patients ==> p.id <= current
    ensures r.Some? ==> r.value > current && HasPatient(patients, r.value)
    ensures r.Some? ==> forall p :: p in patients && p.id > current ==> r.value <= p.id
  {
    if patients == [] then None
    else
      var rest := NextId(patients[1..], current);
      assert forall p :: p in patients <==> p == patients[0] || p in patients[1..];
      if patients[0].id > current && (rest.None? || patients[0].id < rest.value) then Some(patients[0].id)
      else rest
  }

  /** `filter(Patient.id < current).order_by(Patient.id.desc()).first()`: the largest smaller id. */
  function PreviousId(patients: seq<Patient>, current: int): (r: Option<int>)
    ensures r.None? <==> forall p :: p in patients ==> p.id >= current
    ensures r.Some? ==> r.value < current && HasPatient(patients, r.value)
    ensures r.Some? ==> forall p :: p in patients && p.id < current ==> r.value >= p.id
  {
    if patients == [] then None
    else
      var rest := PreviousId(patients[1..], current);
      assert forall p :: p in patients <==> p == patients[0] || p in patients[1..];
      if patients[0].id < current && (rest.None? || patients[0].id > rest.value) then Some(patients[0].id)
      else rest
  }

  /**
   * `api_get_patient_navigation(patient_id, direction)`. An unknown patient is
   * refused before the direction is looked at, any direction other than the
   * two names is refused, and otherwise the answer names a patient that exists
   * on the requested side, or none when no patient lies on that side.
   */
  function Navigate(patients: seq<Patient>, patientId: int, direction: string): (r: NavigationResult)
    ensures r.PatientNotFound? <==> !HasPatient(patients, patientId)
    ensures r.BadDirection? <==> HasPatient(patients, patientId) && direction != "next" && direction != "previous"
    ensures r.Neighbour? && r.patientId.Some? ==> HasPatient(patients, r.patientId.value)
    ensures r.Neighbour? && direction == "next" ==>
      (r.patientId.None? <==> forall p :: p in patients ==> p.id <= patientId)
    ensures r.Neighbour? && direction == "next" && r.patientId.Some? ==>
      r.patientId.value > patientId && forall p :: p in patients && p.id > patientId ==> r.patientId.value <= p.id
    ensures r.Neighbour? && direction == "previous" ==>
      (r.patientId.None? <==> forall p :: p in patients ==> p.id >= patientId)
    ensures r.Neighbour? && direction == "previous" && r.patientId.Some? ==>
      r.patientId.value < patientId && forall p :: p in patients && p.id < patientId ==> r.patientId.value >= p.id
  {
    if !HasPatient(patients, patientId) then PatientNotFound
    else if direction == "next" then Neighbour(NextId(patients, patientId))
    else if direction == "previous" then Neighbour(PreviousId(patients, patientId))
    else BadDirection
  }

  /**
   * Stepping forward then back returns to the starting patient, and stepping
   * back then forward does too.
   */
  lemma {:induction false} NextThenPrevious(patients: seq<Patient>, current: int)
    requires HasPatient(patients, current)
    requires NextId(patients, current).Some?
    ensures PreviousId(patients, NextId(patients, current).value) == Some(current)
  {
    var n := NextId(patients, current).value;
    var back := PreviousId(patients, n);
    var c :| c in patients && c.id == current;
    assert back.Some?;
    var b :| b in patients && b.id == back.value;
    assert b.id >= current;
  }

  lemma {:induction false} PreviousThenNext(patients: seq<Patient>, current: int)
    requires HasPatient(patients, current)
    requires PreviousId(patients, current).Some?
    ensures NextId(patients, PreviousId(patients, current).value) == Some(current)
  {
    var v := PreviousId(patients, current).value;
    var fwd := NextId(patients, v);
    var c :| c in patients && c.id == current;
    assert fwd.Some?;
    var f :| f in patients && f.id == fwd.value;
    assert f.id <= current;
  }
}
