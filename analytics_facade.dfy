/**
 * `AdvancedAnalyticsEngine.generate_comprehensive_analytics`: the three
 * analyses over one cohort, and the cohort size, which is the length of the
 * requested id list when one is given and the size of the patient table
 * otherwise.
 */
module AnalyticsFacade {
  import opened ClinicalTypes
  import Survival
  import TreatmentResponse
  import Molecular

  datatype ComprehensiveAnalytics = ComprehensiveAnalytics(
    survivalAnalysis: Survival.SurvivalStatistics,
    treatmentResponse: TreatmentResponse.ResponseStatistics,
    molecularCorrelations: Molecular.MolecularSummary,
    patientCohortSize: nat)

  /**
   * `len(patient_ids) if patient_ids else count(patients)`. A requested id is
   * counted whether or not a patient carries it, and a repeated id twice.
   */
  function CohortSize(patients: seq<Patient>, patientIds: seq<int>): nat
  {
    if |patientIds| > 0 then |patientIds| else |patients|
  }

  /** `generate_comprehensive_analytics(patient_ids)` */
  method GenerateComprehensiveAnalytics(patients: seq<Patient>, pathologies: seq<Pathology>, treatments: seq<Treatment>,
                                        visits: seq<FollowUpVisit>, patientIds: seq<int>)
    returns (a: ComprehensiveAnalytics)
    ensures a.survivalAnalysis == Survival.GetSurvivalStatistics(patients, visits, patientIds)
    ensures a.treatmentResponse == TreatmentResponse.ResponseStatisticsFrom(
      TreatmentResponse.TreatmentResponsesOf(treatments, visits, patientIds))
    ensures a.molecularCorrelations == Molecular.SummaryOf(
      Molecular.MolecularCorrelationsOf(patients, pathologies, treatments, visits, patientIds))
    ensures a.patientCohortSize == CohortSize(patients, patientIds)
  {
    var survival := Survival.GetSurvivalStatistics(patients, visits, patientIds);
    var response := TreatmentResponse.GetResponseStatistics(treatments, visits, patientIds);
    var molecular := Molecular.GetMolecularSummary(patients, pathologies, treatments, visits, patientIds);
    var size := if |patientIds| > 0 then |patientIds| else |patients|;
    a := ComprehensiveAnalytics(survival, response, molecular, size);
  }

  /** The ids carried by the patients. */
  function PatientIds(patients: seq<Patient>): set<int>
  {
    set p | p in patients :: p.id
  }

  predicate DistinctIds(patients: seq<Patient>)
  {
    forall i, j :: 0 <= i < j < |patients| ==> patients[i].id != patients[j].id
  }

  /**
   * The reported cohort size is never smaller than the number of patients the
   * survival analysis covers, when patient ids are unique; for an empty id list
   * the two agree.
   */
  lemma CohortSizeCoversSurvivalCohort(patients: seq<Patient>, visits: seq<FollowUpVisit>, patientIds: seq<int>)
    requires DistinctIds(patients)
    ensures Survival.GetSurvivalStatistics(patients, visits, patientIds).totalPatients
      <= CohortSize(patients, patientIds)
    ensures |patientIds| == 0 ==>
      Survival.GetSurvivalStatistics(patients, visits, patientIds).totalPatients == CohortSize(patients, patientIds)
  {
    Survival.CohortSurvivalInvariants(patients, visits, patientIds);
    if |patientIds| == 0 {
      EmptyIdsSelectEveryone(patients);
    } else {
      var selected := SelectedPatients(patients, patientIds);
      var hits := set x | x in patientIds && x in PatientIds(patients);
      var requested := set x | x in patientIds;
      SelectedAtMostRequested(patients, patientIds);
      SetOfSeqAtMost(patientIds);
      SubsetAtMost(hits, requested);
      assert |selected| <= |hits| <= |requested| <= |patientIds|;
    }
  }

  /** With unique patient ids, each selected patient uses up a distinct requested id. */
  lemma {:induction false} SelectedAtMostRequested(patients: seq<Patient>, patientIds: seq<int>)
    requires DistinctIds(patients)
    requires |patientIds| > 0
    ensures |SelectedPatients(patients, patientIds)| <= |set x | x in patientIds && x in PatientIds(patients)|
  {
    if patients != [] {
      var rest := patients[1..];
      FirstIdUnique(patients);
      SelectedAtMostRequested(rest, patientIds);
      var hits := set x | x in patientIds && x in PatientIds(patients);
      var restHits := set x | x in patientIds && x in PatientIds(rest);
      if patients[0].id in patientIds {
        assert hits == restHits + {patients[0].id};
        assert |SelectedPatients(patients, patientIds)| == 1 + |SelectedPatients(rest, patientIds)|;
      } else {
        assert hits == restHits;
        assert SelectedPatients(patients, patientIds) == SelectedPatients(rest, patientIds);
      }
    }
  }

  /** Splitting off the first patient of a list with unique ids. */
  lemma FirstIdUnique(patients: seq<Patient>)
    requires DistinctIds(patients) && patients != []
    ensures DistinctIds(patients[1..])
    ensures patients[0].id !in PatientIds(patients[1..])
    ensures PatientIds(patients) == PatientIds(patients[1..]) + {patients[0].id}
  {
    var rest := patients[1..];
    forall i, j | 0 <= i < j < |rest| ensures rest[i].id != rest[j].id {
      assert rest[i] == patients[i + 1] && rest[j] == patients[j + 1];
    }
    assert patients == [patients[0]] + rest;
  }

  lemma SubsetAtMost(a: set<int>, b: set<int>)
    requires a <= b
    ensures |a| <= |b|
  {
    assert b == a + (b - a);
  }

  /** A list has at least as many entries as distinct values. */
  lemma {:induction false} SetOfSeqAtMost(s: seq<int>)
    ensures |set x | x in s| <= |s|
  {
    if s != [] {
      SetOfSeqAtMost(s[1..]);
      assert (set x | x in s) == (set x | x in s[1..]) + {s[0]};
    }
  }
}
