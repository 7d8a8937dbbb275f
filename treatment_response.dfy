/**
 * Treatment response analysis (`TreatmentResponseAnalyzer` in app/analytics.py):
 * the best imaging response recorded while a treatment ran, the time to the first
 * objective-or-stable response, how long that response lasted, and the cohort
 * response rates.
 *
 * The source walks the visits in ascending date order and takes the first match;
 * only the matching visit's date is used, so "first" is the earliest date, and the
 * model is stated on dates rather than on the order of the visit table.
 */
module TreatmentResponse {
  import opened ClinicalTypes
  import opened Statistics
  import opened OrderedDict
  import Survival

  datatype TreatmentResponse = TreatmentResponse(
    patientId: int,
    treatmentId: int,
    treatmentType: TreatmentType,
    startDate: Day,
    endDate: Option<Day>,
    responseCategory: ImagingResponse,
    timeToResponseDays: Option<int>,
    durationOfResponseDays: Option<int>,
    bestResponse: ImagingResponse)

  /**
   * A visit of the treated patient on or after the start date and, when the
   * treatment has ended, on or before its end date.
   */
  predicate InWindow(t: Treatment, v: FollowUpVisit)
  {
    v.patientId == t.patientId && t.startDate <= v.visitDate
    && (t.endDate.Some? ==> v.visitDate <= t.endDate.value)
  }

  function WindowedVisits(t: Treatment, visits: seq<FollowUpVisit>): (r: seq<FollowUpVisit>)
    ensures forall v :: v in r <==> v in visits && InWindow(t, v)
  {
    if visits == [] then []
    else
      assert forall v :: v in visits <==> v == visits[0] || v in visits[1..];
      (if InWindow(t, visits[0]) then [visits[0]] else []) + WindowedVisits(t, visits[1..])
  }

  /** Ranking of responses: complete > partial > stable > progressive. */
  function Priority(r: ImagingResponse): nat
  {
    match r
    case CompleteResponse => 4
    case PartialResponse => 3
    case StableDisease => 2
    case ProgressiveDisease => 1
  }

  /** The responses recorded at `visits`; visits without an assessment are skipped. */
  function RecordedResponses(visits: seq<FollowUpVisit>): (r: seq<ImagingResponse>)
    ensures forall x :: x in r <==> exists v :: v in visits && v.imagingResponse == Some(x)
  {
    if visits == [] then []
    else
      assert forall v :: v in visits <==> v == visits[0] || v in visits[1..];
      (if visits[0].imagingResponse.Some? then [visits[0].imagingResponse.value] else [])
        + RecordedResponses(visits[1..])
  }

  /** `max(responses, key=priority)`: a response of the highest rank. */
  function BestResponse(rs: seq<ImagingResponse>): (b: ImagingResponse)
    requires |rs| > 0
    ensures b in rs
    ensures forall x :: x in rs ==> Priority(x) <= Priority(b)
  {
    if |rs| == 1 then rs[0]
    else
      var rest := BestResponse(rs[1..]);
      assert forall x :: x in rs ==> x == rs[0] || x in rs[1..];
      if Priority(rest) > Priority(rs[0]) then rest else rs[0]
  }

  /** The ranking is strict, so the best response is determined by what was recorded. */
  lemma BestResponseDetermined(rs: seq<ImagingResponse>, b: ImagingResponse)
    requires b in rs
    requires forall x :: x in rs ==> Priority(x) <= Priority(b)
    ensures BestResponse(rs) == b
  {
    var c := BestResponse(rs);
    assert Priority(c) <= Priority(b) && Priority(b) <= Priority(c);
  }

  /** A visit assessed as complete response, partial response or stable disease. */
  predicate IsResponseVisit(v: FollowUpVisit)
  {
    v.imagingResponse.Some? && v.imagingResponse.value != ProgressiveDisease
  }

  /** A progressive-disease visit strictly after day `d`. */
  function ProgressionAfter(d: Day): FollowUpVisit -> bool
  {
    (v: FollowUpVisit) => Survival.IsProgression(v) && d < v.visitDate
  }

  /** The earliest date of a visit satisfying `p` (the first match in date order). */
  function EarliestDate(visits: seq<FollowUpVisit>, p: FollowUpVisit -> bool): (r: Option<Day>)
    ensures r.None? <==> forall v :: v in visits ==> !p(v)
    ensures r.Some? ==> exists v :: v in visits && p(v) && v.visitDate == r.value
    ensures forall v :: v in visits && p(v) ==> r.Some? && r.value <= v.visitDate
  {
    if visits == [] then None
    else
      var rest := EarliestDate(visits[1..], p);
      assert forall v :: v in visits ==> v == visits[0] || v in visits[1..];
      if p(visits[0]) && (rest.None? || visits[0].visitDate <= rest.value)
      then Some(visits[0].visitDate)
      else rest
  }

  /** Visit lists with the same members have the same earliest matching date. */
  lemma EarliestDateDetermined(a: seq<FollowUpVisit>, b: seq<FollowUpVisit>, p: FollowUpVisit -> bool)
    requires forall v :: v in a <==> v in b
    ensures EarliestDate(a, p) == EarliestDate(b, p)
  {
    var ra, rb := EarliestDate(a, p), EarliestDate(b, p);
    if ra.Some? {
      var v :| v in a && p(v) && v.visitDate == ra.value;
      var w :| w in b && p(w) && w.visitDate == rb.value;
      assert rb.value <= v.visitDate && ra.value <= w.visitDate;
    }
  }

  /** Date of the earliest complete, partial or stable response in the treatment window. */
  function FirstResponseDate(t: Treatment, visits: seq<FollowUpVisit>): Option<Day>
  {
    EarliestDate(WindowedVisits(t, visits), IsResponseVisit)
  }

  /** Days from the start of treatment to the first response. */
  function TimeToResponse(t: Treatment, visits: seq<FollowUpVisit>): Option<int>
  {
    var first := FirstResponseDate(t, visits);
    if first.Some? then Some(first.value - t.startDate) else None
  }

  /**
   * Days from a response on day `first` to the next progression among `windowed`,
   * or to day `end` when none follows.
   */
  function DurationFrom(windowed: seq<FollowUpVisit>, first: Day, end: Day): int
  {
    var progression := EarliestDate(windowed, ProgressionAfter(first));
    var responseEnd := if progression.Some? then progression.value else end;
    responseEnd - first
  }

  /** Present for a finished treatment with a response. */
  function DurationOfResponse(t: Treatment, visits: seq<FollowUpVisit>): Option<int>
  {
    var first := FirstResponseDate(t, visits);
    if first.Some? && t.endDate.Some? then
      Some(DurationFrom(WindowedVisits(t, visits), first.value, t.endDate.value))
    else None
  }

  /**
   * `_analyze_treatment_response`: nothing without an assessed visit in the
   * treatment window; otherwise the best response, the time to response and the
   * duration of response. What each field means is stated by the lemmas below.
   */
  function AnalyzeTreatmentResponse(t: Treatment, visits: seq<FollowUpVisit>): (r: Option<TreatmentResponse>)
    ensures r.None? <==> forall v :: v in visits && InWindow(t, v) ==> v.imagingResponse.None?
    ensures r.Some? ==>
      r.value.patientId == t.patientId && r.value.treatmentId == t.id
      && r.value.treatmentType == t.treatmentType && r.value.startDate == t.startDate
      && r.value.endDate == t.endDate && r.value.responseCategory == r.value.bestResponse
    ensures r.Some? ==>
      r.value.timeToResponseDays == TimeToResponse(t, visits)
      && r.value.durationOfResponseDays == DurationOfResponse(t, visits)
  {
    var rs := RecordedResponses(WindowedVisits(t, visits));
    if |rs| == 0 then
      None
    else
      assert rs[0] in rs;
      var best := BestResponse(rs);
      Some(TreatmentResponse(t.patientId, t.id, t.treatmentType, t.startDate, t.endDate,
                             best, TimeToResponse(t, visits), DurationOfResponse(t, visits), best))
  }

  /** The best response was recorded in the window and no recorded response ranks higher. */
  lemma BestResponseIsHighestRanked(t: Treatment, visits: seq<FollowUpVisit>)
    requires AnalyzeTreatmentResponse(t, visits).Some?
    ensures exists v :: (v in visits && InWindow(t, v)
      && v.imagingResponse == Some(AnalyzeTreatmentResponse(t, visits).value.bestResponse))
    ensures forall v :: v in visits && InWindow(t, v) && v.imagingResponse.Some? ==>
      Priority(v.imagingResponse.value) <= Priority(AnalyzeTreatmentResponse(t, visits).value.bestResponse)
  {
    var ws := WindowedVisits(t, visits);
    var rs := RecordedResponses(ws);
    assert rs[0] in rs;
    var best := BestResponse(rs);
    assert exists v :: v in ws && v.imagingResponse == Some(best);
  }

  /**
   * The time to response is present exactly when a non-progressive response was
   * recorded in the window, and is then the number of days to the earliest one.
   */
  lemma TimeToResponseIsToFirstResponse(t: Treatment, visits: seq<FollowUpVisit>)
    ensures var ttr := TimeToResponse(t, visits);
      (ttr.Some? <==> exists v :: v in visits && InWindow(t, v) && IsResponseVisit(v))
      && (ttr.Some? ==>
            0 <= ttr.value
            && (exists v :: v in visits && InWindow(t, v) && IsResponseVisit(v) && v.visitDate == t.startDate + ttr.value)
            && (forall v :: v in visits && InWindow(t, v) && IsResponseVisit(v) ==> t.startDate + ttr.value <= v.visitDate))
  {
    var ws := WindowedVisits(t, visits);
    var first := EarliestDate(ws, IsResponseVisit);
    if first.Some? {
      var v :| v in ws && IsResponseVisit(v) && v.visitDate == first.value;
    }
  }

  /**
   * The duration of response is present exactly when a response was timed and the
   * treatment has an end date; it is never negative and ends by the end of treatment.
   */
  lemma DurationWithinTreatment(t: Treatment, visits: seq<FollowUpVisit>)
    ensures var dor := DurationOfResponse(t, visits);
      (dor.Some? <==> TimeToResponse(t, visits).Some? && t.endDate.Some?)
      && (dor.Some? ==>
            0 <= dor.value
            && t.startDate + TimeToResponse(t, visits).value + dor.value <= t.endDate.value)
  {
    var ws := WindowedVisits(t, visits);
    var first := EarliestDate(ws, IsResponseVisit);
    if first.Some? && t.endDate.Some? {
      var v :| v in ws && IsResponseVisit(v) && v.visitDate == first.value;
      var progression := EarliestDate(ws, ProgressionAfter(first.value));
      if progression.Some? {
        var w :| w in ws && ProgressionAfter(first.value)(w) && w.visitDate == progression.value;
      }
    }
  }

  /** The time and duration of response depend on which visits exist, not on their order. */
  lemma TimingIndependentOfVisitOrder(t: Treatment, a: seq<FollowUpVisit>, b: seq<FollowUpVisit>)
    requires forall v :: v in a <==> v in b
    ensures TimeToResponse(t, a) == TimeToResponse(t, b)
    ensures DurationOfResponse(t, a) == DurationOfResponse(t, b)
  {
    var wa, wb := WindowedVisits(t, a), WindowedVisits(t, b);
    assert forall v :: v in wa <==> v in wb;
    EarliestDateDetermined(wa, wb, IsResponseVisit);
    var first := EarliestDate(wa, IsResponseVisit);
    assert FirstResponseDate(t, a) == first == FirstResponseDate(t, b);
    if first.Some? && t.endDate.Some? {
      EarliestDateDetermined(wa, wb, ProgressionAfter(first.value));
      assert DurationFrom(wa, first.value, t.endDate.value) == DurationFrom(wb, first.value, t.endDate.value);
    }
  }

  /** The analysis depends on which visits exist, not on the order of the visit table. */
  lemma ResponseIndependentOfVisitOrder(t: Treatment, a: seq<FollowUpVisit>, b: seq<FollowUpVisit>)
    requires forall v :: v in a <==> v in b
    ensures AnalyzeTreatmentResponse(t, a) == AnalyzeTreatmentResponse(t, b)
  {
    TimingIndependentOfVisitOrder(t, a, b);
    var wa, wb := WindowedVisits(t, a), WindowedVisits(t, b);
    var ra, rb := RecordedResponses(wa), RecordedResponses(wb);
    assert forall v :: v in wa <==> v in wb;
    assert forall x :: x in ra <==> x in rb;
    if |ra| > 0 {
      assert ra[0] in rb;
      BestResponseDetermined(rb, BestResponse(ra));
    }
  }

  /** A response that is followed by progression lasts until the first such progression. */
  lemma DurationEndsAtProgression(t: Treatment, visits: seq<FollowUpVisit>, first: Day, progression: FollowUpVisit)
    requires t.endDate.Some?
    requires exists v :: v in visits && InWindow(t, v) && IsResponseVisit(v) && v.visitDate == first
    requires forall v :: v in visits && InWindow(t, v) && IsResponseVisit(v) ==> first <= v.visitDate
    requires progression in visits && InWindow(t, progression)
    requires Survival.IsProgression(progression) && first < progression.visitDate
    requires forall v :: v in visits && InWindow(t, v) && Survival.IsProgression(v) && first < v.visitDate ==>
      progression.visitDate <= v.visitDate
    ensures TimeToResponse(t, visits) == Some(first - t.startDate)
    ensures DurationOfResponse(t, visits) == Some(progression.visitDate - first)
  {
    var ws := WindowedVisits(t, visits);
    var f := EarliestDate(ws, IsResponseVisit);
    var w :| w in ws && IsResponseVisit(w) && w.visitDate == f.value;
    assert f.value == first;
    var e := EarliestDate(ws, ProgressionAfter(first));
    assert ProgressionAfter(first)(progression);
    var u :| u in ws && ProgressionAfter(first)(u) && u.visitDate == e.value;
    assert e.value == progression.visitDate;
  }

  /** A response never followed by progression lasts until the treatment ended. */
  lemma DurationRunsToTreatmentEnd(t: Treatment, visits: seq<FollowUpVisit>, first: Day)
    requires t.endDate.Some?
    requires exists v :: v in visits && InWindow(t, v) && IsResponseVisit(v) && v.visitDate == first
    requires forall v :: v in visits && InWindow(t, v) && IsResponseVisit(v) ==> first <= v.visitDate
    requires forall v :: v in visits && InWindow(t, v) && first < v.visitDate ==> !Survival.IsProgression(v)
    ensures DurationOfResponse(t, visits) == Some(t.endDate.value - first)
  {
    var ws := WindowedVisits(t, visits);
    var f := EarliestDate(ws, IsResponseVisit);
    var w :| w in ws && IsResponseVisit(w) && w.visitDate == f.value;
    assert f.value == first;
    assert EarliestDate(ws, ProgressionAfter(first)).None?;
  }

  /** Only progressions in the window: the best response is progression and no response is timed. */
  lemma ProgressionOnlyTreatment(t: Treatment, visits: seq<FollowUpVisit>, pd: FollowUpVisit)
    requires pd in visits && InWindow(t, pd) && Survival.IsProgression(pd)
    requires forall v :: v in visits && InWindow(t, v) ==> !IsResponseVisit(v)
    ensures AnalyzeTreatmentResponse(t, visits).Some?
    ensures AnalyzeTreatmentResponse(t, visits).value.bestResponse == ProgressiveDisease
    ensures AnalyzeTreatmentResponse(t, visits).value.timeToResponseDays.None?
    ensures AnalyzeTreatmentResponse(t, visits).value.durationOfResponseDays.None?
  {
    BestResponseIsHighestRanked(t, visits);
    var best := AnalyzeTreatmentResponse(t, visits).value.bestResponse;
    assert Priority(ProgressiveDisease) <= Priority(best);
    var v :| v in visits && InWindow(t, v) && v.imagingResponse == Some(best);
    assert !IsResponseVisit(v);
  }

  /**
   * A treatment from day 0 to day 365 with a partial response on day 31 and
   * progression on day 213: best response partial, response after 31 days,
   * lasting 182 days.
   */
  lemma ResponseScenario()
    ensures
      var t := Treatment(7, 1, Chemotherapy, 0, Some(365));
      var visits := [FollowUpVisit(1, 1, 31, Some(PartialResponse)), FollowUpVisit(2, 1, 213, Some(ProgressiveDisease))];
      var r := AnalyzeTreatmentResponse(t, visits);
      r.Some? && r.value.bestResponse == PartialResponse
      && r.value.timeToResponseDays == Some(31) && r.value.durationOfResponseDays == Some(182)
  {
    var t := Treatment(7, 1, Chemotherapy, 0, Some(365));
    var v1, v2 := FollowUpVisit(1, 1, 31, Some(PartialResponse)), FollowUpVisit(2, 1, 213, Some(ProgressiveDisease));
    var visits := [v1, v2];
    BestResponseDetermined(RecordedResponses(WindowedVisits(t, visits)), PartialResponse);
    DurationEndsAtProgression(t, visits, 31, v2);
  }

  /** `analyze_treatment_responses`: the responses of the cohort's treatments that have one. */
  function TreatmentResponsesOf(treatments: seq<Treatment>, visits: seq<FollowUpVisit>, patientIds: seq<int>): (rs: seq<TreatmentResponse>)
    ensures |rs| <= |treatments|
  {
    if treatments == [] then []
    else
      var n := |treatments| - 1;
      var t := treatments[n];
      var r := AnalyzeTreatmentResponse(t, visits);
      TreatmentResponsesOf(treatments[..n], visits, patientIds)
        + (if InCohort(t.patientId, patientIds) && r.Some? then [r.value] else [])
  }

  /**
   * The cohort's responses are exactly the responses of the treatments of cohort
   * patients that have one.
   */
  lemma {:induction false} TreatmentResponsesMembership(treatments: seq<Treatment>, visits: seq<FollowUpVisit>, patientIds: seq<int>)
    ensures forall r :: r in TreatmentResponsesOf(treatments, visits, patientIds) ==>
      (exists t :: t in treatments && InCohort(t.patientId, patientIds) && AnalyzeTreatmentResponse(t, visits) == Some(r))
    ensures forall t :: (t in treatments && InCohort(t.patientId, patientIds) && AnalyzeTreatmentResponse(t, visits).Some?) ==>
      AnalyzeTreatmentResponse(t, visits).value in TreatmentResponsesOf(treatments, visits, patientIds)
  {
    if treatments != [] {
      var n := |treatments| - 1;
      TreatmentResponsesMembership(treatments[..n], visits, patientIds);
      assert forall x :: x in treatments <==> x in treatments[..n] || x == treatments[n];
    }
  }

  method AnalyzeTreatmentResponses(treatments: seq<Treatment>, visits: seq<FollowUpVisit>, patientIds: seq<int>)
    returns (responses: seq<TreatmentResponse>)
    ensures responses == TreatmentResponsesOf(treatments, visits, patientIds)
  {
    responses := [];
    for i := 0 to |treatments|
      invariant responses == TreatmentResponsesOf(treatments[..i], visits, patientIds)
    {
      assert treatments[..i + 1][..i] == treatments[..i];
      if InCohort(treatments[i].patientId, patientIds) {
        var response := AnalyzeTreatmentResponse(treatments[i], visits);
        if response.Some? {
          responses := responses + [response.value];
        }
      }
    }
    assert treatments[..|treatments|] == treatments;
  }

  function HasBest(c: ImagingResponse): TreatmentResponse -> bool
  {
    (r: TreatmentResponse) => r.bestResponse == c
  }

  /** Complete or partial response. */
  function IsObjectiveResponse(r: TreatmentResponse): bool
  {
    r.bestResponse == CompleteResponse || r.bestResponse == PartialResponse
  }

  function TypeOf(r: TreatmentResponse): TreatmentType { r.treatmentType }

  function SameResponse(r: TreatmentResponse): TreatmentResponse { r }

  function OfType(k: TreatmentType): TreatmentResponse -> bool
  {
    (r: TreatmentResponse) => r.treatmentType == k
  }

  datatype TypeStatistics = TypeStatistics(count: nat, responseRate: real)

  /** `{"total_treatments": 0}` when no treatment has a response. */
  datatype ResponseStatistics =
    | NoTreatments
    | ResponseStatistics(
        totalTreatments: nat,
        overallResponseRate: real,
        diseaseControlRate: real,
        completeResponse: nat,
        partialResponse: nat,
        stableDisease: nat,
        progressiveDisease: nat,
        byTreatmentType: Dict<TreatmentType, TypeStatistics>)

  function TypeStatisticsOf(group: seq<TreatmentResponse>): (s: TypeStatistics)
    ensures s.count == |group|
    ensures 0.0 <= s.responseRate <= 1.0
    ensures s.responseRate == Rate(Count(group, IsObjectiveResponse), |group|)
  {
    TypeStatistics(|group|, Rate(Count(group, IsObjectiveResponse), |group|))
  }

  /** Every response has exactly one of the four best-response values. */
  lemma {:induction false} ResponseCategoriesPartition(rs: seq<TreatmentResponse>)
    ensures Count(rs, HasBest(CompleteResponse)) + Count(rs, HasBest(PartialResponse))
      + Count(rs, HasBest(StableDisease)) + Count(rs, HasBest(ProgressiveDisease)) == |rs|
  {
    if rs != [] {
      ResponseCategoriesPartition(rs[1..]);
    }
  }

  /** Objective responses are the complete and the partial ones. */
  lemma {:induction false} ObjectiveResponseCount(rs: seq<TreatmentResponse>)
    ensures Count(rs, IsObjectiveResponse) == Count(rs, HasBest(CompleteResponse)) + Count(rs, HasBest(PartialResponse))
  {
    if rs != [] {
      ObjectiveResponseCount(rs[1..]);
    }
  }

  /**
   * The `by_treatment_type` table: one entry per treatment type that occurs, in
   * order of first occurrence, with the count and response rate of its group.
   */
  function ByTreatmentType(responses: seq<TreatmentResponse>): (d: Dict<TreatmentType, TypeStatistics>)
    ensures Valid(d)
    ensures forall k :: k in d.entries <==> exists i :: 0 <= i < |responses| && responses[i].treatmentType == k
    ensures forall k :: k in d.entries ==>
      d.entries[k] == TypeStatisticsOf(ValuesWithKey(responses, TypeOf, SameResponse, k))
  {
    GroupByFacts(responses, TypeOf, SameResponse);
    TypeTable(GroupBy(responses, TypeOf, SameResponse))
  }

  /** The statistics of each group, under the same keys in the same order. */
  function TypeTable(groups: Dict<TreatmentType, seq<TreatmentResponse>>): Dict<TreatmentType, TypeStatistics>
  {
    Dict(groups.keys, map k | k in groups.entries :: TypeStatisticsOf(groups.entries[k]))
  }

  /** `get_response_statistics` on a list of responses. */
  function ResponseStatisticsFrom(responses: seq<TreatmentResponse>): (s: ResponseStatistics)
    ensures s.NoTreatments? <==> |responses| == 0
    ensures s.ResponseStatistics? ==>
      s.totalTreatments == |responses|
      && s.completeResponse == Count(responses, HasBest(CompleteResponse))
      && s.partialResponse == Count(responses, HasBest(PartialResponse))
      && s.stableDisease == Count(responses, HasBest(StableDisease))
      && s.progressiveDisease == Count(responses, HasBest(ProgressiveDisease))
      && s.completeResponse + s.partialResponse + s.stableDisease + s.progressiveDisease == s.totalTreatments
    ensures s.ResponseStatistics? ==>
      s.overallResponseRate == Rate(s.completeResponse + s.partialResponse, s.totalTreatments)
      && s.diseaseControlRate == Rate(s.completeResponse + s.partialResponse + s.stableDisease, s.totalTreatments)
      && 0.0 <= s.overallResponseRate <= s.diseaseControlRate <= 1.0
    ensures s.ResponseStatistics? ==> s.byTreatmentType == ByTreatmentType(responses)
  {
    if |responses| == 0 then NoTreatments
    else
      var s := Tally(responses, ByTreatmentType(responses));
      RateMonotone(s.completeResponse + s.partialResponse,
                   s.completeResponse + s.partialResponse + s.stableDisease, s.totalTreatments);
      s
  }

  /** The counts and rates of a non-empty list of responses, with its per-type table. */
  function Tally(responses: seq<TreatmentResponse>, byType: Dict<TreatmentType, TypeStatistics>): (s: ResponseStatistics)
    requires |responses| > 0
    ensures s.ResponseStatistics? && s.totalTreatments == |responses|
    ensures s.completeResponse + s.partialResponse + s.stableDisease + s.progressiveDisease == s.totalTreatments
  {
    var total := |responses|;
    var cr := Count(responses, HasBest(CompleteResponse));
    var pr := Count(responses, HasBest(PartialResponse));
    var sd := Count(responses, HasBest(StableDisease));
    var pd := Count(responses, HasBest(ProgressiveDisease));
    ResponseCategoriesPartition(responses);
    ResponseStatistics(total, Rate(cr + pr, total), Rate(cr + pr + sd, total), cr, pr, sd, pd, byType)
  }

  /** The loop of `get_response_statistics` that groups the responses by treatment type. */
  method GroupByTreatmentType(responses: seq<TreatmentResponse>) returns (groups: Dict<TreatmentType, seq<TreatmentResponse>>)
    ensures groups == GroupBy(responses, TypeOf, SameResponse)
  {
    groups := Empty();
    for i := 0 to |responses|
      invariant groups == GroupBy(responses[..i], TypeOf, SameResponse)
    {
      assert responses[..i + 1][..i] == responses[..i];
      groups := AppendTo(groups, responses[i].treatmentType, responses[i]);
    }
    assert responses[..|responses|] == responses;
  }

  method GetResponseStatistics(treatments: seq<Treatment>, visits: seq<FollowUpVisit>, patientIds: seq<int>)
    returns (s: ResponseStatistics)
    ensures s == ResponseStatisticsFrom(TreatmentResponsesOf(treatments, visits, patientIds))
  {
    var responses := AnalyzeTreatmentResponses(treatments, visits, patientIds);
    if |responses| == 0 {
      return NoTreatments;
    }
    var groups := GroupByTreatmentType(responses);
    var byType := TypeTable(groups);
    assert byType == ByTreatmentType(responses);
    s := Tally(responses, byType);
  }

  /** The group of a treatment type holds exactly the responses of that type. */
  lemma {:induction false} GroupSizeIsTypeCount(rs: seq<TreatmentResponse>, k: TreatmentType)
    ensures |ValuesWithKey(rs, TypeOf, SameResponse, k)| == Count(rs, OfType(k))
  {
    if rs != [] {
      var n := |rs| - 1;
      GroupSizeIsTypeCount(rs[..n], k);
      assert rs == rs[..n] + [rs[n]];
      CountAppend(rs[..n], [rs[n]], OfType(k));
    }
  }

  /** The per-type counts add up to the number of responses. */
  lemma ByTypeCountsSumToTotal(responses: seq<TreatmentResponse>)
    ensures
      var d := ByTreatmentType(responses);
      SumOver(d.keys, map k | k in d.entries :: d.entries[k].count) == |responses|
  {
    var d := ByTreatmentType(responses);
    var groups := GroupBy(responses, TypeOf, SameResponse);
    GroupByFacts(responses, TypeOf, SameResponse);
    var counts := map k | k in d.entries :: d.entries[k].count;
    SumOfSizes(groups.keys, groups.entries, counts);
  }

  /** Every type that occurs is listed, with its number of responses as count and a proportion as rate. */
  lemma ByTypeStatistics(responses: seq<TreatmentResponse>, k: TreatmentType)
    requires exists r :: r in responses && r.treatmentType == k
    ensures k in ByTreatmentType(responses).entries
    ensures ByTreatmentType(responses).entries[k].count == Count(responses, OfType(k)) > 0
    ensures 0.0 <= ByTreatmentType(responses).entries[k].responseRate <= 1.0
  {
    GroupSizeIsTypeCount(responses, k);
    GroupByFacts(responses, TypeOf, SameResponse);
    GroupsNonEmpty(responses, TypeOf, SameResponse, k);
  }
}
