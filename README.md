# GBM tracker clinical analytics, modelled in Dafny

This project models the outcome analytics of a glioblastoma patient tracker.
The analytics take patients, pathology reports, treatments and follow-up
visits, and produce:

- per-patient survival timelines: time to progression, overall survival and
  progression-free survival;
- cohort survival statistics;
- per-course treatment response: best response, time to response and duration
  of response;
- cohort response statistics: distribution, overall response rate, disease
  control rate, and per-type rates;
- groupings of patients by molecular markers (IDH, MGMT, WHO grade), with
  survival and response per group and marker distributions;
- the facade that returns all three analyses and the cohort size.

It also models the computations inside the web handlers:

- the patient timeline (event assembly and date ordering);
- next/previous patient navigation;
- the cohort table and summary statistics of the reports page, including ages;
- the "update only the sent fields" step of the PUT handlers.

The database queries are replaced by input sequences of records. Dates are
day numbers, so a difference of two dates is a subtraction; ages use
calendar dates (year, month, day). Rates and means are exact `real`s. Python
dictionaries, whose insertion order the output keeps, are an ordered
dictionary of keys plus a map (`OrderedDict`).

Modules, one per file:

- `ClinicalTypes`: the records and enumerations, and the cohort selection rule.
  An empty id list selects every patient.
- `Statistics`: counting, sums, min/max, mean, median, the upper middle element,
  and guarded rates.
- `OrderedDict`: `defaultdict(list)`/`defaultdict(int)` updates and grouping.
- `Survival`, `TreatmentResponse`, `Molecular`, `AnalyticsFacade`: app/analytics.py.
- `Timeline`, `Navigation`, `Reports`, `PartialUpdate`: the handler computations in app/main.py.

The loops of the source are methods with loop invariants. Each is proved equal
to a specification function, and the promised properties are proved about
that function:

- the result lists;
- the grouping dictionaries;
- the marginal sums;
- the timeline's event lists;
- the cohort table.

The timeline sort is an in-place insertion sort on an array, proved to produce
date order and a permutation. The partial update is a method of a record
object that changes its field map.

## Model

| member | source | states |
|---|---|---|
| ClinicalTypes.SelectedPatients | app/analytics.py:59-62 | a patient is selected iff it is in the table and its id is requested, or no ids were given |
| ClinicalTypes.EmptyIdsSelectEveryone | app/analytics.py:59-62 | an empty id list selects the whole table in table order (the `if patient_ids:` rule) |
| ClinicalTypes.VisitsOf | app/analytics.py:73-76 | a visit is kept iff it belongs to the patient |
| Statistics.Count | app/analytics.py:134-135 | a `sum(1 for ...)` count never exceeds the length of the list |
| Statistics.CountPermutation | app/analytics.py:144 | counts are the same before and after sorting (any reordering), which the median relies on |
| Statistics.Mean | app/analytics.py:143 | `statistics.mean`: the mean times the number of values is their sum, and it lies between the minimum and the maximum |
| Statistics.Median | app/analytics.py:144 | `statistics.median`: equal to the middle element of the sorted values, or the mean of the two middle elements for an even count, whichever sorted permutation is taken; between the minimum and the maximum, with at most half of the values strictly below it and at most half strictly above |
| Statistics.UpperMiddle | app/main.py:1552 | `sorted(ages)[len(ages)//2]`: the element at index len/2 of the sorted values; one of the ages, with at most half of them below it and at most len - 1 - len/2 above |
| Statistics.SortedPermutationUnique | app/main.py:1552 | two sorted lists with the same elements are equal, so `sorted` has one result |
| Statistics.Rate | app/analytics.py:262-263 | `part / whole if whole else 0` (also the progression rate at line 141) is in [0,1], 0 for an empty whole, and otherwise times the whole gives the part |
| Statistics.RateMonotone | app/analytics.py:262-263 | a larger part of the same whole gives a larger rate, so ORR <= DCR |
| TreatmentResponse.EarliestDateDetermined | app/analytics.py:211-228 | the earliest matching date depends only on which visits exist, not on their order |
| Survival.LastFollowUpDate | app/analytics.py:73-76 | absent iff there is no visit; otherwise the date of a visit, and no visit is later |
| Survival.FirstProgressionDate | app/analytics.py:78-82 | absent iff no visit shows progressive disease; otherwise the date of a PD visit, and no PD visit is earlier |
| Survival.PatientSurvival | app/analytics.py:71-124 | the patient is always alive with no death date; the last follow-up and progression dates are the latest visit and the earliest PD visit of the patient; progressed iff some visit of the patient is PD; TTP = progression - diagnosis; OS present iff a diagnosis date and a visit exist, and then OS = last visit - diagnosis; no durations without a diagnosis date; PFS present iff OS present |
| Survival.ProgressionSeenAtVisit | app/analytics.py:83-96 | a progression date exists iff a visit of the patient shows PD, and then a last visit exists |
| Survival.OverallSurvivalToLastVisit | app/analytics.py:102-108 | with diagnosis D and latest visit L, OS = L - D whether or not the patient progressed |
| Survival.NoDiagnosisNoDurations | app/analytics.py:98-110 | without a diagnosis date TTP, OS and PFS are all absent, whatever the visits are |
| Survival.ProgressedPatient | app/analytics.py:83-110 | with diagnosis D and earliest PD visit P, TTP = PFS = P - D, even when later visits exist |
| Survival.NotProgressedPatient | app/analytics.py:75-110 | with no PD visit, diagnosis D and latest visit L, OS = PFS = L - D |
| Survival.ProgressionWithinFollowUp | app/analytics.py:75-104 | when TTP exists, OS exists and TTP <= OS |
| Survival.ProgressionScenario | app/analytics.py:71-124 | SD on day 60 then PD on day 152 after diagnosis on day 0: progressed, TTP = PFS = OS = 152 |
| Survival.SurvivalMetricsOf | app/analytics.py:57-69 | one metrics record per selected patient, in order, each the patient's survival derivation |
| Survival.CalculateSurvivalMetrics | app/analytics.py:63-69 | the append loop yields exactly the per-patient derivations of the selected patients |
| Survival.PresentValues | app/analytics.py:129-132 | the kept values occur exactly as often as patients report that value (multiset), so their number is the count of reporting patients |
| Survival.PresentValueIsReported | app/analytics.py:130-132 | every kept value is the metric of some patient in the list |
| Survival.Summarize | app/analytics.py:137-156 | count = number of present values; mean and median absent iff the count is 0; otherwise the mean times the count is the sum of the values, the median is `statistics.median` of the values, and both lie between the minimum and the maximum |
| Survival.SurvivalStatisticsFrom | app/analytics.py:126-157 | total = number of metrics; alive and progressed counts; rate = progressed/total in [0,1], 0 for an empty cohort; each metric count = number of non-None values <= total; each of the TTP, OS and PFS summaries is the mean, median and count of that metric's present values |
| Survival.CohortSurvivalInvariants | app/analytics.py:126-157 | alive = total (every patient is alive); PFS count = OS count; TTP count <= progressed count |
| Survival.EmptyCohortStatistics | app/analytics.py:126-157 | an empty cohort has progression rate 0 and no mean or median |
| TreatmentResponse.WindowedVisits | app/analytics.py:181-191 | a visit is kept iff it belongs to the patient, is on or after the start, and is on or before the end when one exists |
| TreatmentResponse.RecordedResponses | app/analytics.py:196 | exactly the imaging responses that were recorded |
| TreatmentResponse.BestResponse | app/analytics.py:200-208 | the best response is one of the recorded ones and no recorded response ranks higher under CR 4 > PR 3 > SD 2 > PD 1 |
| TreatmentResponse.BestResponseDetermined | app/analytics.py:200-208 | the best response is the unique highest-ranked one, so it does not depend on which maximum is taken |
| TreatmentResponse.EarliestDate | app/analytics.py:211-228 | the first matching visit in date order is the minimum date of the matching visits |
| TreatmentResponse.AnalyzeTreatmentResponse | app/analytics.py:179-243 | no result iff no visit in the window has an imaging response; otherwise the course's fields, with response category = best response, and the timing below |
| TreatmentResponse.BestResponseIsHighestRanked | app/analytics.py:196-208 | the best response was recorded in the window and no windowed response ranks higher |
| TreatmentResponse.TimeToResponseIsToFirstResponse | app/analytics.py:211-218 | TTR present iff a non-PD response is in the window; then it is >= 0 and is the days from the start to the earliest such visit |
| TreatmentResponse.DurationWithinTreatment | app/analytics.py:220-231 | DOR present iff TTR present and the course has an end date; then it is >= 0 and start + TTR + DOR <= end |
| TreatmentResponse.DurationEndsAtProgression | app/analytics.py:222-231 | with a PD visit after the first response, DOR runs to the first such PD visit |
| TreatmentResponse.DurationRunsToTreatmentEnd | app/analytics.py:222-231 | with no PD visit after the first response, DOR runs to the end date |
| TreatmentResponse.ProgressionOnlyTreatment | app/analytics.py:193-231 | when only PD is recorded, the best response is PD and neither TTR nor DOR exists |
| TreatmentResponse.TimingIndependentOfVisitOrder | app/analytics.py:211-231 | TTR and DOR depend only on which visits exist, not on their order |
| TreatmentResponse.ResponseIndependentOfVisitOrder | app/analytics.py:179-243 | the whole analysis does not depend on the order of the visits |
| TreatmentResponse.ResponseScenario | app/analytics.py:179-243 | course from day 0 to 365, PR on day 31, PD on day 213: best response PR, TTR 31, DOR 182 |
| TreatmentResponse.TreatmentResponsesOf | app/analytics.py:164-177 | at most one response per treatment |
| TreatmentResponse.TreatmentResponsesMembership | app/analytics.py:164-177 | a response is listed iff it is the analysis of a cohort treatment that yields one |
| TreatmentResponse.AnalyzeTreatmentResponses | app/analytics.py:170-177 | the append loop yields exactly the responses of the cohort's treatments |
| TreatmentResponse.TypeStatisticsOf | app/analytics.py:276-281 | per-type count = group size; response rate = share of CR or PR, in [0,1] |
| TreatmentResponse.ResponseCategoriesPartition | app/analytics.py:256-261 | CR + PR + SD + PD counts equal the number of responses |
| TreatmentResponse.ObjectiveResponseCount | app/analytics.py:262 | the objective responses are the CR and the PR responses |
| TreatmentResponse.ByTreatmentType | app/analytics.py:251-281 | keys are exactly the types that occur, each mapped to the statistics of the responses of that type |
| TreatmentResponse.ResponseStatisticsFrom | app/analytics.py:245-283 | empty shape iff there are no responses; otherwise counts per category summing to the total, 0 <= ORR <= DCR <= 1, and the per-type table |
| TreatmentResponse.Tally | app/analytics.py:256-272 | the category counts sum to the total number of responses |
| TreatmentResponse.GroupByTreatmentType | app/analytics.py:251-254 | the `defaultdict(list)` loop yields the grouping of the responses by type |
| TreatmentResponse.GetResponseStatistics | app/analytics.py:245-283 | the method computes the statistics of the cohort's responses |
| TreatmentResponse.GroupSizeIsTypeCount | app/analytics.py:251-254 | a type's group holds exactly the responses of that type |
| TreatmentResponse.ByTypeCountsSumToTotal | app/analytics.py:274-281 | the per-type counts sum to the total |
| TreatmentResponse.ByTypeStatistics | app/analytics.py:274-281 | every treatment type that occurs is listed, with a positive count equal to its responses and a rate in [0,1] |
| Molecular.MarkerKeyMergesAbsentWithUnknown | app/analytics.py:303-306 | an absent marker gets the same group key as a recorded "unknown"; different recorded statuses get different keys |
| Molecular.PathologiesOf | app/analytics.py:292-293 | the reports of one patient |
| Molecular.PairWith | app/analytics.py:292-293 | one joined row per report of the patient |
| Molecular.JoinRows | app/analytics.py:292-298 | a row is produced iff the patient is in the cohort and the report is one of theirs; several reports give several rows |
| Molecular.GroupByMarkers | app/analytics.py:301-308 | the grouping loop yields the grouping of the rows by marker triple |
| Molecular.IdsOf | app/analytics.py:315 | the ids of the group's patients, in order |
| Molecular.CorrelationsOf | app/analytics.py:314-333 | one correlation per group |
| Molecular.MarkerGroups | app/analytics.py:301-308 | the grouping is a well-formed dictionary |
| Molecular.AnalyzeMolecularCorrelations | app/analytics.py:290-335 | the method yields the correlations of the marker groups |
| Molecular.CorrelateGroups | app/analytics.py:314-333 | the loop over the groups appends each group's correlation in group order |
| Molecular.ComputeGroupCorrelation | app/analytics.py:315-333 | one group's correlation from the survival and response statistics of its patients |
| Molecular.TotalOfSizes | app/analytics.py:340 | the patient counts of the correlations sum to the grouped rows |
| Molecular.CorrelationCountsSumToRows | app/analytics.py:301-340 | the patient counts sum to the number of joined (patient, pathology) rows |
| Molecular.CorrelationFacts | app/analytics.py:314-333 | each correlation's key occurs in the rows; its patient count is the size of its group and positive; its rates are in [0,1]; its response rate is the overall response rate of the group's responses, and 0 when the group has no responses |
| Molecular.CorrelationKeysDistinct | app/analytics.py:301-314 | no marker triple is reported twice |
| Molecular.MarginalFacts | app/analytics.py:343-350 | each marginal dictionary is well formed and sums to the total patient count |
| Molecular.GetMolecularSummary | app/analytics.py:337-367 | the summary of the correlations of the cohort |
| Molecular.SummarizeCorrelations | app/analytics.py:340-367 | the three `defaultdict(int)` sums are the marginals of the correlations |
| Molecular.SummaryDistributionsPartitionRows | app/analytics.py:337-367 | total = number of joined rows, and each of the IDH, MGMT and grade distributions sums to it |
| AnalyticsFacade.GenerateComprehensiveAnalytics | app/analytics.py:377-383 | the three analyses of the same cohort, and cohort size = number of requested ids, or the size of the patient table when none were given |
| AnalyticsFacade.CohortSizeCoversSurvivalCohort | app/analytics.py:379-382 | with unique patient ids, cohort size >= patients in the survival analysis, and equal when no ids were given |
| Timeline.FindPatient | app/main.py:285-287 | absent iff no patient has the id (the 404); otherwise a patient with that id |
| Timeline.RecordsOf | app/main.py:289-299 | a record is kept iff it belongs to the patient |
| Timeline.EventsOfFacts | app/main.py:304-392 | a record loop gives one event per dated record and none per undated one; each event carries the date and id of such a record |
| Timeline.UndatedRecordGivesNoEvent | app/main.py:305-306 | a record without a date contributes no event |
| Timeline.TimelineKindCounts | app/main.py:304-407 | events of each kind = dated records of that kind; exactly one diagnosis event iff a diagnosis date exists |
| Timeline.TimelineLength | app/main.py:304-407 | the number of events is the dated records plus one for a diagnosis date |
| Timeline.AppendEvents | app/main.py:305-321 | the append loop adds the events of the dated records in order |
| Timeline.CollectEvents | app/main.py:302-407 | the four record loops and the diagnosis event build the timeline |
| Timeline.SortEvents | app/main.py:409-421 | the in-place sort (also at lines 566-579 and 720-732) leaves the array in date order (newest first when reversed) and a permutation of its contents |
| Timeline.InsertInOrder | app/main.py:421 | one insertion step extends the ordered prefix by one, keeps the contents and leaves the elements after it untouched |
| Timeline.SortedTimeline | app/main.py:421 | the result (also at lines 579 and 732) is in date order and a permutation of the events |
| Timeline.GetPatientTimeline | app/main.py:283-438 | 404 iff the patient is missing; otherwise the patient's events, newest first, none lost or added |
| Timeline.GetPatientTimelineInteractive | app/main.py:440-594 | 404 iff the patient is missing; otherwise the patient's events, oldest first, none lost or added |
| Timeline.ApiGetPatientTimeline | app/main.py:596-740 | 404 iff the patient is missing; otherwise the events newest first, with total_events = number of events = dated records + diagnosis event |
| Timeline.SortingKeepsEveryEvent | app/main.py:723-739 | any reordering of the timeline keeps its length, the per-kind counts and the single diagnosis event |
| Navigation.NextId | app/main.py:749-751 | absent iff no id is larger; otherwise a patient's id, larger than the current one, and no larger id is smaller |
| Navigation.PreviousId | app/main.py:752-754 | absent iff no id is smaller; otherwise a patient's id, smaller than the current one, and no smaller id is larger |
| Navigation.Navigate | app/main.py:742-756 | 404 iff the current patient is missing; 400 iff the patient exists and the direction is neither "next" nor "previous"; otherwise the nearest patient on that side, or none |
| Navigation.NextThenPrevious | app/main.py:749-754 | stepping to the next patient and back returns to the current one |
| Navigation.PreviousThenNext | app/main.py:749-754 | stepping to the previous patient and forward returns to the current one |
| Reports.AgeIsCompletedYears | app/main.py:1512-1516 | the age (same formula at line 1665) is the number of completed years: that birthday has been reached and the next has not, and no other number has this property |
| Reports.AgeOfBornPatient | app/main.py:1516 | a patient born on or before today has a non-negative age |
| Reports.AgeOf | app/main.py:1512-1516 | age absent iff the date of birth is absent |
| Reports.MostRecentPathology | app/main.py:1506 | absent iff the patient has no report; otherwise a report of the patient with the latest specimen date |
| Reports.LatestSurgeryDate | app/main.py:1509-1530 | absent iff the patient has no dated surgery; otherwise the latest surgery date |
| Reports.BuildCohort | app/main.py:1503-1533 | the loop builds one row per cohort patient, in order |
| Reports.RowLabels | app/main.py:1526-1527 | a row's IDH column is a stored IDH value or "Unknown", "Unknown" iff there is no report or no IDH status; likewise for MGMT |
| Reports.Ages | app/main.py:1549 | the ages are exactly those of the rows that have one, each occurring as often as there are rows with that age |
| Reports.AgeStatsOf | app/main.py:1550-1555 | all four statistics absent iff no ages; min and max are ages bounding all others; the mean times the number of ages is their sum, and it lies between min and max; the median is the element at index len/2 of the sorted ages, with at most half the ages below it |
| Reports.GetReports | app/main.py:1503-1578 | the cohort table of the patients and the summary over it |
| Reports.SummaryCountersBounded | app/main.py:1536-1559 | wild_type + mutated + unknown <= total, likewise for MGMT, and male + female <= total |
| Reports.IdhLiteralCountersAlwaysZero | app/main.py:1539-1540 | as written, the wild_type and mutated IDH counters are 0 for every cohort |
| Reports.MarkerCountersScenario | app/main.py:1536-1546 | one IDH-wildtype patient with MGMT "unknown": as written, every IDH and MGMT counter is 0 while the total is 1 |
| Reports.CorrectedDistributionsPartitionCohort | app/main.py:1536-1546 | counted by the stored values, the IDH counters and the MGMT counters each sum to the cohort size |
| Reports.CorrectedWildtypeCount | app/main.py:1539 | the corrected wildtype counter counts exactly the patients whose latest report says wildtype |
| PartialUpdate.AsMap | app/main.py:899 | a field is in the update dictionary iff it was sent |
| PartialUpdate.OverlayIsMerge | app/main.py:899-901 | writing the sent fields one by one is the dictionary merge of the record with the update |
| PartialUpdate.SentFieldsTakeSentValues | app/main.py:1081-1083 | every sent field holds its sent value afterwards, an explicit null included |
| PartialUpdate.UnsentFieldsUnchanged | app/main.py:1251-1252 | a field that was not sent keeps its value and its presence |
| PartialUpdate.UpdateIdempotent | app/main.py:1410-1411 | sending the same fields twice has the effect of sending them once |
| PartialUpdate.Record.ApplyUpdate | app/main.py:900-901 | the setattr loop (the same at lines 1082-1083, 1251-1252 and 1410-1411) leaves the fields equal to the old fields overlaid with the sent ones |
| PartialUpdate.FindRecord | app/main.py:894-896 | absent iff no record has the id (the 404) |
| PartialUpdate.UpdateRecord | app/main.py:892-901 | 404 iff the record is missing, and then nothing changes; otherwise only that record changes, to the overlay of the sent fields |

## Left out

- Database access, sessions, commit/refresh, HTTP, templates, JSON, CSV and
  PDF output, and seed data. Queries become input sequences.
- AgeStatsOf: the mean age is exact; the source rounds it with `round(..., 1)`,
  a floating-point operation the model leaves out.
- Float formatting. Rates and means are exact rationals.
- Reports filter construction: the IDH, MGMT, WHO grade, age and surgery-date
  filters and `distinct()`. The reports model starts from the cohort's
  patients.
- Timeline titles, descriptions, details and links: rendering only. An event
  keeps its date, kind and record id.
- Only the id, patient id and date of surgery, pathology, treatment and
  visit rows are kept for the timeline. The dates are nullable there so that
  the handlers' date tests are modelled.
- Timeline.SortEvents: stability of Python's sort for events on the same
  date is not modelled. The order among equal dates is left open.
- The interactive timeline's `try/except` around the sort: sorting dates
  cannot fail, so the fallback is not modelled.
- Patient names (`first_name`, `last_name`) are not in the patient record.
  The API timeline's `patient_name` and the cohort rows' names are left out.
- `date.today()` is a parameter `today` of the age and report computations.
- A patient's gender is always present in the model. The source's missing
  gender (`None`) is not modelled; such a row would count as neither male
  nor female.
- Cohort row columns `primary_location`, `ki67_index` and
  `extent_of_resection` are left out. They only pass through.
- Reports.MostRecentPathology: among reports sharing the latest specimen
  date, the database's choice is unspecified. The model takes the first in
  table order.
- Reports.LatestSurgeryDate: a surgery without a date never wins. The
  database column is non-null, so its ordering of nulls is not modelled.
- The export handler (app/main.py:1597-1725) is left out beyond its age
  formula, which is the same as the reports page's (modelled by `Reports.Age`).
- The `response_category` field of a treatment response duplicates
  `best_response`. Both are kept and proved equal.
- `patient_count` of a marker group counts joined rows. A patient with two
  reports of the same markers counts twice, as in the source.
- PartialUpdate: which names may be sent is fixed by the request schemas.
  Validation of values and database constraints are not modelled.

## Findings

| source | as written | input that shows it | evidently intended | confidence | as-written member | corrected member |
|---|---|---|---|---|---|---|
| app/main.py:1539-1540 | the IDH counters compare the row's status with "wild_type" and "mutated", but the stored values are "wildtype" and "mutant" | any cohort, e.g. one patient whose latest report is IDH-wildtype: idh wild_type = 0, mutated = 0 | count wildtype and mutant patients by their stored values | high (proved; not executed) | Reports.IdhLiteralCountersAlwaysZero | Reports.CorrectedWildtypeCount |
| app/main.py:1541, 1546 | the unknown counters compare with "Unknown", which only a missing report or status yields; a recorded status "unknown" is counted nowhere | one patient whose latest report records IDH wildtype and MGMT "unknown": all three MGMT counters are 0 while total_patients is 1 | every patient counted in exactly one bucket of each distribution | high (proved; not executed) | Reports.MarkerCountersScenario | Reports.CorrectedDistributionsPartitionCohort |
