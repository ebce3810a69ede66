# NexusLearn exam engine and admin pages, modelled in Dafny

This project models the exam engine of the NexusLearn school-management application:
- how the scores a school enters are turned into report cards, merit lists, class broadsheets, class analyses and term-on-term changes;
- the administration pages that feed the engine and act on its results.

It proves properties of that model.

**The engine** (`utils/examLogic.ts` and the grading table of `constants.ts`):
- A score in 0..100 is resolved to a grade, points and a remark through the unified twelve-band table.
- The per-session scores of one subject combine into a term score: a plain or weight-weighted mean of the real scores, rounded half up. The sentinels -1 (Absent) and -2 (Malpractice) pass through when no real score exists.
- The engine computes this combination in three copies: the term summary, the report card and the mark sheet. Each copy is proved equal to one reference definition, `SubjectScore.Combine`.
- The report card adds:
  - teacher initials;
  - totals and means over the reported subjects;
  - the comment band;
  - the rank within the class and stream, computed from the lighter term summaries;
  - the class teacher and the principal.
- The merit list, the broadsheet, the performance changes, the performance history and the class analysis are built on top of those.

**The pages**:
- the marks entry form: loading, typing, showing and submitting marks, and teacher locking;
- the term and exam-session editor: deleting terms and sessions, the year and weight inputs, and the checks before saving;
- the printable mark sheet;
- the application-level handlers: storing a submitted batch of marks, deleting a student, moving every account to a new school domain, and deleting a staff account;
- the submission reminders and their SMS text;
- the merit list page: the improved and dropped lists, and the comparison terms;
- the student form: subject selection and submission checks;
- the staff page: the list, the class-and-subject assignment grid, and submission checks.

**How the model is written**:
- Scores are `Option<int>`, where `None` is the source's `null`.
- Averages are `real`, and `Math.round` is `Round` (floor of x + 1/2).
- `parseInt`, `trim`, `split`, `toUpperCase`/`toLowerCase` and `join` are written out in `Text`.
- `Array.prototype.sort` is a stable insertion sort, `Sorting.SortBy`, driven by a strict "comes before" order.
- Maps keyed by id (JavaScript objects) are Dafny `map`s, except the assignment grid. Its key order is observable, so it is a sequence of entries.
- The confirmation dialogs become a `confirmed` flag.
- Alerts and `localStorage` writes are left out.
- The reference definitions (`Combine`, `Better`, `CompetitionRanks`) sit in their own modules. Every copy the source makes is tied to them by an all-inputs lemma.
- The two account forms take their domain check as a parameter. `AsWritten` is the check as the forms make it, and `CaseBlind` is its case-blind repair (see Findings).

## Model

| member | source | states |
|---|---|---|
| Grading.ScaleShape | constants.ts:18-31 | The grading table has twelve rows with strictly falling minimums in 0..100, ending at 0. Points run from 12 down to 1, and the twelve grade labels are all different. |
| Grading.RowShape | constants.ts:18-31 | Row k of the table starts at 80 - 5k (the last row at 0) and earns 12 - k points. |
| Grading.FirstReached | utils/examLogic.ts:28-38 | The "first match wins" scan returns the first row whose minimum the score reaches. Every row before it has a minimum above the score. `None` means no row is reached. |
| Grading.Remark | utils/examLogic.ts:30-35 | Each points value gets exactly one remark: Excellent from 10, Very Good for 8-9, Good for 7, Fair for 5-6, Needs Improvement below 5. |
| Grading.GradeOf | utils/examLogic.ts:13-42 | -1 gives X/0/Absent and -2 gives Y/0/Malpractice. A missing score, another negative value or a value above 100 gives "-"/0/N/A. A score in 0..100 gets the grade, points and remark of the first band whose minimum it reaches. |
| Grading.FirstRowFormula | utils/examLogic.ts:28-38 | Every score in 0..100 reaches some row, and that row's points equal the closed form (12 from 80, 1 below 30, one more point per five marks in between). |
| Grading.PointsMatchFormula | utils/examLogic.ts:40-41 | The scan always matches a row for 0..100, so the fallback "E / Significant Improvement Needed" is unreachable. Points lie in 1..12 and agree with the closed form. |
| Grading.PointsMonotone | utils/examLogic.ts:13-42 | More marks never earn fewer points. |
| Grading.TopAndBottomBands | constants.ts:18-31 | Grade A is given exactly from 80 upwards, and 1 point exactly below 30. |
| Grading.PointsRange | utils/examLogic.ts:13-42 | Points are always in 0..12. They are 0 exactly for sentinels, out-of-range values and missing scores. |
| Types.FindMark | utils/examLogic.ts:75 | The `marks.find` lookup returns the first mark for the student, subject and session. `None` means no mark matches. |
| Types.ScoreOf | utils/examLogic.ts:75-76 | The score read for a student, subject and session is the score of the first matching stored mark. It is `None` when no mark matches. |
| Types.ScoreOfValid | components/MarksInput.tsx:59-79 | Scores read from marks the entry form could store are themselves storable (a sentinel or 0..100). |
| Types.TermSessions | utils/examLogic.ts:64 | The term's sessions are exactly the stored sessions with that term id, in stored order. |
| SubjectScore.Components | utils/examLogic.ts:74-76 | There is one component per term session, in session order. Each holds that session's stored score and weight. |
| SubjectScore.ValidCount | utils/examLogic.ts:84 | The number of scores of at least 0 is zero exactly when no component counts. |
| SubjectScore.Combine | utils/examLogic.ts:79-103 | The unrounded term score: <br>- `None` exactly when nothing is entered, or when weighted mode has only zero weights on real scores; <br>- Malpractice or Absent when only sentinels are entered (Malpractice wins); <br>- otherwise non-negative. |
| SubjectScore.CombineWithin | utils/examLogic.ts:84-100 | A numeric term score lies between the smallest and the largest real score, in both modes. |
| SubjectScore.RoundNearest | utils/examLogic.ts:105 | `Round` (Math.round) returns the integer nearest to x, with halves rounded up. |
| SubjectScore.RoundRatio | utils/examLogic.ts:105 | Rounding a non-negative ratio n/d of whole numbers equals the integer formula (2n + d) div 2d. |
| SubjectScore.FinalScore | utils/examLogic.ts:105 | A non-negative mean is reported within 1/2 of its value. A negative (sentinel) value passes through, and no score stays no score. |
| SubjectScore.TermScore | utils/examLogic.ts:79-107 | The reported score is absent exactly when the unrounded one is. It is the sentinel itself when only sentinels were entered. |
| SubjectScore.TermScoreWithin | utils/examLogic.ts:84-105 | With real scores in lo..hi, the rounded term score stays in lo..hi. |
| SubjectScore.TermScoreValid | utils/examLogic.ts:79-107 | When every entered score is storable, so is the reported term score. |
| SubjectScore.SimpleIsEqualWeights | utils/examLogic.ts:85-100 | Simple mode gives the same score as weighted mode with every weight equal and positive. |
| SubjectScore.EqualWeightSums | utils/examLogic.ts:88-97 | With all weights w, the weighted sums are the plain count and sum times w. |
| SubjectScore.WorkedExamples | constants.ts:177-190 | On the shipped 30/70 sessions: <br>- a missing CAT leaves the end-term score alone (80); <br>- 55 and 61 give 59 weighted and 58 simple; <br>- Absent plus Malpractice gives Malpractice; <br>- Absent alone gives Absent; <br>- a lone zero-weight score gives no score. |
| SubjectScore.Present | utils/examLogic.ts:77 | The `filter(s !== null)` list holds exactly the entered values, in order. |
| SubjectScore.EnteredFacts | utils/examLogic.ts:79-82 | The list of entered scores: <br>- is empty exactly when nothing is entered; <br>- has a value of at least 0 exactly when some component counts; <br>- contains -2 exactly when Malpractice was entered. |
| SubjectScore.NonNegativeScores | utils/examLogic.ts:84-86 | The non-negative entered scores number `ValidCount` and sum to `ValidSum`. |
| TermSummary.SummarySubjects | utils/examLogic.ts:67-69 | A student with a subject list covers exactly the listed subjects among all subjects, active or not. An empty list covers every active subject. |
| TermSummary.SessionScores | utils/examLogic.ts:74-76 | The summary's per-session lookup gives the scores of the reference components. |
| TermSummary.SummarySumsAgree | utils/examLogic.ts:87-97 | The summary's weighted pass over the sessions computes the reference weighted sum and weight sum. |
| TermSummary.SummaryUnroundedAgrees | utils/examLogic.ts:72-103 | The summary's copy of the unrounded subject score equals `Combine` for every input. |
| TermSummary.SummaryScoreAgrees | utils/examLogic.ts:72-107 | The summary's copy of the reported subject score equals `TermScore` for every input. |
| TermSummary.SummaryLines | utils/examLogic.ts:71-114 | There is one line per covered subject, in order. Each holds the reference term score and that score's points. |
| TermSummary.LineFor | utils/examLogic.ts:105-113 | A line carries the reference term score and the points the grading table gives it. |
| TermSummary.ScoreMap | utils/examLogic.ts:106 | The `subjectScores` object is keyed by exactly the lines' subject ids. Each value is the score of some line with that id. |
| TermSummary.Taken | utils/examLogic.ts:116 | The subjects taken are exactly the lines with an entered score, sentinels included. |
| TermSummary.Summarize | utils/examLogic.ts:56-129 | The summary: <br>- has no mean points exactly when no covered subject has a reference score, and a mean score exactly when it has mean points; <br>- has means that are averages over the subjects taken: mean points times their number is their total points, and the mean percentage times their number is their total marks; <br>- maps exactly the covered subjects to their reference scores; <br>- is graded by the rounded mean; <br>- with storable marks, keeps the total, the mean score and the mean points in range. |
| TermSummary.SummaryMeansValues | utils/examLogic.ts:116-125 | The means are over the subjects taken: they exist exactly when a subject is taken. Mean points times the count is the total points, and the mean percentage times the count is the total marks. |
| TermSummary.LinesMeans | utils/examLogic.ts:116-125 | The same holds for a summary built from any lines. |
| TermSummary.MeansFromValues | utils/examLogic.ts:118-125 | A percentage of total over 100 per subject, times the number of subjects, gives the total back. The same holds for a mean of points. |
| TermSummary.ComputedInRange | utils/examLogic.ts:118-125 | With storable marks: <br>- the total is at most 100 per subject taken; <br>- the mean percentage lies in 0..100; <br>- the mean points lie in 0..12. |
| TermSummary.SummaryMeansFacts | utils/examLogic.ts:120-125 | Mean points and mean score are absent together, and exactly when no covered subject has a score. |
| TermSummary.ScoreMapFacts | utils/examLogic.ts:106 | The summary's score map has exactly the covered subject ids as keys. Each value is the reference term score of that subject. |
| TermSummary.ScoreMapKeys | utils/examLogic.ts:106 | The keys of the score map are the ids of the covered subjects. |
| TermSummary.ScoreMapValues | utils/examLogic.ts:106 | Each score-map value is the reference term score of its subject. |
| TermSummary.TakenTotal | utils/examLogic.ts:116-118 | Summing over the subjects taken gives the same total as summing over all lines. |
| TermSummary.TakenEmpty | utils/examLogic.ts:116-125 | No subject is taken exactly when no line has a score. |
| TermSummary.LinesNone | utils/examLogic.ts:116-125 | No line has a score exactly when no covered subject has a reference score. |
| TermSummary.TakenBounds | utils/examLogic.ts:118-124 | Over valid lines, the total marks lie in 0..100 per subject taken and the points in 0..12 per subject taken. |
| TermSummary.SummaryBoundsFacts | utils/examLogic.ts:118-125 | With storable marks, the total, the mean percentage and the mean points of the taken subjects stay within 0..100·n, 0..100 and 0..12. |
| TermSummary.LinesValid | utils/examLogic.ts:105-113 | With storable marks, every summary line holds a storable score or none, and points in 0..12. |
| TermSummary.ComponentsValid | utils/examLogic.ts:74-76 | With storable marks, every component score read is storable. |
| StudentReport.Initials | utils/examLogic.ts:5-11 | Initials: <br>- are at most two upper-case characters with no white space; <br>- are empty exactly when the name has no word. |
| StudentReport.InitialLetters | utils/examLogic.ts:8-10 | For words split on white space: no word gives nothing, one word gives its first two letters, several give the first letters of the first and last words. |
| StudentReport.SubjectTeacherInitials | utils/examLogic.ts:158-165 | The result is "-" when no teacher teaches the subject in the class. Otherwise it is the initials of the first user (in user order) who does. |
| StudentReport.ClassTeacherName | utils/examLogic.ts:282-285 | The class teacher is the first teacher with any assignment in the class. `None` means there is none. |
| StudentReport.PrincipalName | utils/examLogic.ts:287 | The principal is the first administrator whose name contains "principal" in any case. `None` means there is none. |
| StudentReport.ReportSubjects | utils/examLogic.ts:149-151 | A student with a subject list gets exactly the listed subjects that are active. An empty list gets every active subject. Every reported subject is active. |
| StudentReport.ComponentLines | utils/examLogic.ts:167-177 | There is one component per term session, in order. Each carries the session id, the first stored score and that score's grade. |
| StudentReport.SessionWeight | utils/examLogic.ts:197 | The weight lookup by session id returns the session's own weight when ids are distinct. |
| StudentReport.ReportSumsAgree | utils/examLogic.ts:193-201 | The report's weighted pass, which looks up weights by id, gives the reference sums when each lookup finds the component's own weight. |
| StudentReport.ReportUnroundedAgrees | utils/examLogic.ts:179-208 | With distinct session ids, the report's copy of the unrounded subject score equals `Combine`. |
| StudentReport.UnroundedByCases | utils/examLogic.ts:182-207 | The report's case analysis (sentinels, simple, weighted) matches the reference whenever its score list and sums do. |
| StudentReport.ResultFor | utils/examLogic.ts:155-223 | A subject result carries the subject's id, one component per term session, and the grade of its own score. With distinct session ids, the score is the reference term score. |
| StudentReport.Results | utils/examLogic.ts:155-223 | There is one result per reported subject, in order, each active and graded by its own score. With distinct session ids, each score is the reference term score. |
| StudentReport.ResultMarksAsSum | utils/examLogic.ts:251-252 | The report total counts every real score once, with sentinels and missing scores as 0. |
| StudentReport.ReportTotals | utils/examLogic.ts:225-258 | The maximum is 100 per reported subject. The total counts each score, with sentinels as 0. The mean score is the total as a percentage of the maximum. Mean points share the points over all reported subjects. Both means are absent exactly when no subject is reported. The grade is that of the rounded mean. |
| StudentReport.Percent | utils/examLogic.ts:254 | The percentage is absent exactly when there is no maximum. Otherwise, times the maximum, it gives 100 times the total. |
| StudentReport.Mean | utils/examLogic.ts:257 | The mean is absent exactly when there are no items. Otherwise, times the count, it gives the sum. |
| StudentReport.TotalsBounds | utils/examLogic.ts:251-257 | For valid results: <br>- the total lies between 0 and the maximum; <br>- the mean score lies in 0..100; <br>- the mean points lie in 0..12. |
| StudentReport.Band | utils/examLogic.ts:263-280 | The comment band is chosen by mean points: 10 and above, 7 to 10, 5 to 7, above 0 to 5, 0 or below, or no points. The bands are exclusive and cover every case. |
| StudentReport.BandMonotone | utils/examLogic.ts:263-280 | More mean points never select a worse comment band. |
| StudentReport.FirstName | utils/examLogic.ts:261 | The first name is a prefix of the name and holds no space. |
| StudentReport.CommentNamesStudent | utils/examLogic.ts:261-279 | Every class-teacher comment addresses the student by first name. |
| StudentReport.RankedSummaries | utils/examLogic.ts:227-228 | The ranked classmates are those of the same class and stream with mean points, each with mean points. |
| StudentReport.RankWithin | utils/examLogic.ts:237-249 | The rank is absent exactly when the student is not among the ranked. Otherwise it is between 1 and the number ranked. |
| StudentReport.RankInClass | utils/examLogic.ts:227-249 | "Out of" counts the assessed classmates. The rank is absent exactly when the student is not assessed. Otherwise it lies between 1 and "out of". |
| StudentReport.RankCountsBetter | utils/examLogic.ts:230-249 | The in-report rank is competition ranking: one more than the number of classmates with more mean points, or the same points and a larger total. |
| StudentReport.SortedRankCounts | utils/examLogic.ts:237-249 | The running counter's rank of the student's entry in sorted order equals one plus the count of strictly better standings. |
| StudentReport.SortedStandings | utils/examLogic.ts:230-235 | Sorting the summaries orders their standings by `Better`, keeps every total present, and rearranges the input. |
| StudentReport.ClassOf | utils/examLogic.ts:145 | The class lookup finds a class with the student's class id. It returns `None` exactly when none is recorded. |
| StudentReport.GenerateReport | utils/examLogic.ts:132-312 | The report is `None` exactly when the student's class is not on record. Otherwise it is about that student, term and class, and: <br>- its results are the reported subjects' results and its totals are those of these results; <br>- its means are absent exactly when it lists no subject; <br>- it lists only active subjects; <br>- with distinct session ids, it shows reference term scores; <br>- it has a maximum of 100 per subject; <br>- it ranks the student within its count of assessed classmates, with no rank exactly when the student is not among the ranked; <br>- it addresses the student by first name. |
| StudentReport.ReportBounds | utils/examLogic.ts:251-257 | With storable marks and distinct session ids, a report's total lies within its maximum, its mean score in 0..100 and its mean points in 0..12. |
| StudentReport.ReportResultsValid | utils/examLogic.ts:210-219 | With storable marks and distinct session ids, every subject line holds a storable score or none, and points in 0..12. |
| StudentReport.ResultForValid | utils/examLogic.ts:210-219 | The same holds for one subject's result. |
| Ranking.BetterOrder | utils/examLogic.ts:371-380 | "Better standing" (more points, then a present and larger total) is a strict order. Two standings are incomparable only when equal. |
| Ranking.NameCompare | utils/examLogic.ts:381 | The name comparison is negative, zero or positive exactly when the first name is before, equal to or after the second. |
| Ranking.CompareMeansAhead | utils/examLogic.ts:371-382 | The merit comparator is negative exactly when `a` is ahead (better, or equal standing and earlier name). It is zero only for identical candidates, and antisymmetric. |
| Ranking.AheadOrder | utils/examLogic.ts:371-382 | "Ahead" is a strict order, so the comparator is a consistent sort order. |
| Ranking.CompetitionRanks | utils/examLogic.ts:384-404 | The tie-sharing rank loop gives each row a rank between 1 and its position. |
| Ranking.CompetitionRanksCount | utils/examLogic.ts:389-403 | On rows sorted by standing, the loop's rank is one more than the number of strictly better rows. |
| Ranking.TiesShareRanks | utils/examLogic.ts:394-401 | On sorted rows, two rows share a rank exactly when their standings are equal. |
| Ranking.BetterCountsMore | utils/examLogic.ts:389-403 | A strictly worse standing has strictly more rows above it. |
| Ranking.RunningRanks | utils/examLogic.ts:237-249 | The running-counter loop gives each row a rank between 1 and its position. |
| Ranking.RunningIsCompetition | utils/examLogic.ts:237-249 | On sorted rows whose totals are all present or all absent, the running counter gives exactly the competition ranks. |
| Ranking.DropIffDiffer | utils/examLogic.ts:241 | Between a sorted row and its predecessor, the counter's "drops below" test holds exactly when the standings differ. |
| Ranking.RankOfFirst | utils/examLogic.ts:238-248 | The rank found is that of some row carrying the key. `None` means no row carries it. |
| Cohort.Processed | utils/examLogic.ts:362-365 | A non-empty class filter keeps exactly the students of that class. No filter keeps every student. |
| Cohort.ReportsInKeepStudent | utils/examLogic.ts:132-312 | A term's report generator returns reports about the student asked for. |
| Cohort.AssessedReports | utils/examLogic.ts:367-369 | There is one report per student whose report has mean points, each such a report of one of the students. |
| Cohort.Rank | utils/examLogic.ts:371-404 | The ranked list keeps every report, with ranks between 1 and the position. |
| Cohort.RankOrdered | utils/examLogic.ts:371-382 | Ranked entries are in the merit comparator's order. |
| Cohort.RankMembers | utils/examLogic.ts:371-404 | Ranking keeps exactly the reports it is given. |
| Cohort.RankCounts | utils/examLogic.ts:384-404 | Each merit rank is one more than the number of entries with strictly better mean points and total, so equal standings share a rank. |
| Cohort.SortedByStanding | utils/examLogic.ts:371-382 | Reports in merit order have standings sorted by `Better`. |
| Cohort.MeritList | utils/examLogic.ts:351-405 | One entry per processed student with mean points, every entry with mean points, ranks between 1 and the position. |
| Cohort.MeritListMembers | utils/examLogic.ts:362-369 | Every entry is the report of a processed student, and every processed student's report with mean points is listed. |
| Cohort.AssessedContains | utils/examLogic.ts:367-369 | A listed student's assessed report is among the assessed reports. |
| Cohort.ResultScore | utils/examLogic.ts:425-426 | A subject score on a broadsheet row is the score of a result for that subject on the student's report. |
| Cohort.ActiveScores | utils/examLogic.ts:423-427 | The row's score map has exactly the active subject ids as keys, each with the report's score for it. |
| Cohort.RowOf | utils/examLogic.ts:421-441 | The row is the student's, with mean points exactly when the report has them. Its total is the report's, and it has no total or grade without a report. |
| Cohort.Broadsheet | utils/examLogic.ts:407-473 | One row per student of the class with mean points, every row of that class and with mean points. |
| Cohort.RankRowsFacts | utils/examLogic.ts:421-471 | The ranked rows number the students with mean points, and each row has mean points and the students' class. |
| Cohort.RankRowsLength | utils/examLogic.ts:421-442 | The ranked rows number the students whose report has mean points. |
| Cohort.RankRowsMembers | utils/examLogic.ts:421-442 | Every ranked row has mean points and the class of the students. |
| Cohort.RankedRowsKept | utils/examLogic.ts:445-471 | Ranking keeps only rows built for the students that have mean points. |
| Cohort.RowsFromStudents | utils/examLogic.ts:421-442 | Every kept row has mean points and the students' class. |
| Cohort.RowsCount | utils/examLogic.ts:421-442 | Filtering rows by mean points keeps as many rows as students with assessed reports. |
| Cohort.RowsOfReports | utils/examLogic.ts:421-442 | The rows kept are the rows of the assessed reports, in the same order. |
| Cohort.SortedRows | utils/examLogic.ts:445-456 | Sorting the rows gives the rows of the sorted reports: both comparators order the same way. |
| Cohort.RowStandings | utils/examLogic.ts:445-456 | A report's row carries the report's standing. |
| Cohort.RankRowsIsRank | utils/examLogic.ts:445-471 | The broadsheet's ranked rows are the rows of the merit ranking of the same reports. |
| Cohort.BroadsheetIsMeritList | utils/examLogic.ts:351-473 | A class's broadsheet is the merit list filtered to that class, row for row: same students, same order, same ranks. |
| Cohort.ChangesOf | utils/examLogic.ts:615-637 | One change per student assessed in both terms, each holding both reports and the difference of their mean points. |
| Cohort.PerformanceChanges | utils/examLogic.ts:603-638 | Changes are listed exactly for processed students assessed in both terms. Each change is the current mean points minus the previous ones. |
| Cohort.Points | utils/examLogic.ts:331-343 | One history point per term whose report has mean points, each naming that term. |
| Cohort.PerformanceHistory | utils/examLogic.ts:315-349 | The history of an unknown student is empty. For the first student with the id, it holds exactly that student's points (one per term with an assessed report), rearranged so that years ascend, then readable term numbers. |
| ClassAnalysis.InitialDistribution | utils/examLogic.ts:509-512 | The initial distribution counts zero for every grade of the table and has no other key. |
| ClassAnalysis.Tally | utils/examLogic.ts:514-520 | The distribution has every table grade as a key and no other. Each count is the number of grades equal to it, and grades outside the table are not counted. |
| ClassAnalysis.MeanReal | utils/examLogic.ts:503 | The mean times the count gives the total. |
| ClassAnalysis.EntryOf | utils/examLogic.ts:525-532 | A subject entry carries the summary's student id and the given score. |
| ClassAnalysis.Entries | utils/examLogic.ts:524-534 | One entry per summary with a score in the subject, each that summary's score. |
| ClassAnalysis.RankEntries | utils/examLogic.ts:565-576 | One ranked entry per subject entry. |
| ClassAnalysis.RankEntriesOrdered | utils/examLogic.ts:565-576 | The ranked list rearranges the entries, highest score first, each with its score's grade. |
| ClassAnalysis.RankEntriesRanks | utils/examLogic.ts:567-575 | A subject rank is one more than the number of entries with a strictly higher score. |
| ClassAnalysis.RankCount | utils/examLogic.ts:567-575 | For sorted entries, the count of better standings equals the count of strictly higher scores among the entries. |
| ClassAnalysis.SortedStandings | utils/examLogic.ts:565 | Entries sorted by score have standings sorted by `Better`. |
| ClassAnalysis.AnalyzeSubject | utils/examLogic.ts:523-586 | The subject's student count is the number of entered scores. The mean is absent exactly when no score is at least 0, and otherwise it is the mean of those scores. The distribution tallies every entry's grade, with sentinels as X/Y. The ranked list ranks every entry. A subject without real scores has the empty distribution and no ranking. |
| ClassAnalysis.MeanScoreBounds | utils/examLogic.ts:553-554 | With scores at most 100, the sum of the real scores lies in 0..100 per score. |
| ClassAnalysis.MeanWithin | utils/examLogic.ts:503-506 | A mean of values within lo..hi lies within lo..hi. |
| ClassAnalysis.OverallOf | utils/examLogic.ts:501-507 | The group's mean points are the mean of the summaries' points, and lie in 0..12 when theirs do. The grade is that of the rounded mean of the mean scores, a missing one counting 0. |
| ClassAnalysis.PointsSumWithin | utils/examLogic.ts:502 | Points in 0..12 per summary sum to at most 12 per summary. |
| ClassAnalysis.AnalyzeWith | utils/examLogic.ts:486-600 | The analysis: <br>- is `None` exactly when no student of the group has mean points; <br>- otherwise counts the assessed summaries, takes their mean points, and tallies their grades ("N/A" for none); <br>- keeps exactly the subjects some student took, each with a positive count; <br>- names the class, or "all". |
| ClassAnalysis.Analyze | utils/examLogic.ts:475-601 | With the term summary: no analysis exactly when nobody in the group is assessed. Otherwise the analysis is for the term, with students and only subjects actually taken. |
| ClassAnalysis.AnalyzeBounds | utils/examLogic.ts:501-503 | With storable marks, the group's mean points lie in 0..12. |
| ClassAnalysis.AnalyzeWithBounds | utils/examLogic.ts:501-503 | When every assessed summary has mean points in 0..12, so has the group. |
| ClassAnalysis.SummariesWithin | utils/examLogic.ts:495-497 | With storable marks, every assessed summary has mean points in 0..12. |
| MarksEntry.LoadEntries | components/MarksInput.tsx:36-53 | Until class, subject and session are all chosen, the form holds nothing. Then it holds exactly the class's students, each with the first stored score, or empty. |
| MarksEntry.LoadAll | components/MarksInput.tsx:41-48 | Every listed student has a cell holding the first stored score. |
| MarksEntry.ParseEntry | components/MarksInput.tsx:59-79 | Typed text: <br>- "x"/"y" in any case, with surrounding blanks, record Absent/Malpractice; <br>- blank text clears the cell; <br>- a leading integer in 0..100 is stored; <br>- anything else changes nothing. <br>A stored value is always storable. |
| MarksEntry.ChangeMark | components/MarksInput.tsx:59-79 | Typing into a cell changes only that cell, to the parsed value. Unparsable text changes nothing. |
| MarksEntry.DisplayValue | components/MarksInput.tsx:85-90 | A cell shows "" exactly for no score, "X" exactly for Absent and "Y" exactly for Malpractice. |
| MarksEntry.ShownNumber | components/MarksInput.tsx:89 | A number's text is made of digits and a minus sign and starts with one of them. |
| MarksEntry.NumberTextStable | components/MarksInput.tsx:60 | Number text is unchanged by trimming and upper-casing. |
| MarksEntry.DisplayRoundTrip | components/MarksInput.tsx:59-90 | Showing a storable score (or an empty cell) and typing the text back gives the same score. |
| MarksEntry.LetterStable | components/MarksInput.tsx:60-68 | "X" and "Y" survive trimming and upper-casing. |
| MarksEntry.NumberRoundTrip | components/MarksInput.tsx:75-89 | A score in 0..100, shown and typed back, is stored unchanged. |
| MarksEntry.SubmitMarks | components/MarksInput.tsx:92-112 | Submission is refused exactly when the subject or session is missing. Otherwise it sends one mark per student of the chosen class with a filled cell, tagged with the subject and session and carrying the cell's score. |
| MarksEntry.MarksOf | components/MarksInput.tsx:97-108 | One mark per listed student with a filled cell, carrying that cell's score. |
| MarksEntry.LockedIffLoaded | components/MarksInput.tsx:194-200 | For a teacher, a cell is locked exactly when the form loaded it with a score. |
| ExamConfig.DeleteTerm | components/admin/AdminExamConfigPage.tsx:33-38 | Deleting a term removes exactly that term and every session of it. |
| ExamConfig.DeleteTermKeepsSessionsBelonging | components/admin/AdminExamConfigPage.tsx:33-38 | After deleting a term, every session still belongs to a remaining term. |
| ExamConfig.DeleteSession | components/admin/AdminExamConfigPage.tsx:63-67 | Deleting a session removes exactly the sessions with that id. |
| ExamConfig.YearInput | components/admin/AdminExamConfigPage.tsx:43-45 | The year is the typed text's leading integer, or 0 when there is none. |
| ExamConfig.WeightInput | components/admin/AdminExamConfigPage.tsx:72-74 | The weight is the typed integer clamped to 0..100, or 0 when there is none. |
| ExamConfig.ChangeWeight | components/admin/AdminExamConfigPage.tsx:69-80 | Typing a weight changes only the weight of the sessions with that id, and keeps every weight in 0..100. |
| ExamConfig.CheckTerm | components/admin/AdminExamConfigPage.tsx:84-109 | A term has no problem exactly when it is acceptable: a non-blank name, a year in 2000..2100, weights summing to 100 when weighted and with sessions, and named sessions. |
| ExamConfig.Validate | components/admin/AdminExamConfigPage.tsx:83-113 | Saving succeeds exactly when every term is acceptable. A refusal reports the first problem of the first offending term, every earlier term being acceptable. |
| ExamConfig.ValidateAccepts | components/admin/AdminExamConfigPage.tsx:83-111 | The first-error search succeeds exactly when every term is acceptable. |
| ExamConfig.ValidateNamesFirst | components/admin/AdminExamConfigPage.tsx:84-110 | A refusal names the problem of the first offending term. |
| ExamConfig.NoProblemAcceptable | components/admin/AdminExamConfigPage.tsx:84-110 | No term with a problem means every term is acceptable. |
| ExamConfig.FirstProblem | components/admin/AdminExamConfigPage.tsx:84-110 | The term found is unacceptable, and every term before it is acceptable. |
| ExamConfig.MockConfigAccepted | constants.ts:171-184 | The shipped terms and sessions pass the editor's checks. Every session belongs to a term, and session ids are distinct. |
| ExamConfig.MockTermsAcceptable | constants.ts:171-184 | Each shipped term passes the checks. |
| ExamConfig.MockSessionsBelong | constants.ts:177-184 | Every shipped session names a shipped term. |
| ExamConfig.MockIdsDistinct | constants.ts:177-184 | Shipped session ids are distinct. |
| ExamConfig.MockTermAcceptable | constants.ts:171-184 | Each shipped term has its two sessions weighing 30 and 70, so it is acceptable. |
| ExamConfig.AcceptableFromPair | components/admin/AdminExamConfigPage.tsx:94-109 | A term whose sessions are one pair with weights summing to 100 passes when its name, year and session names do. |
| ExamConfig.MockOwnership | constants.ts:177-184 | Shipped session j belongs to term j/2 and to no other. |
| ExamConfig.OwnSessions | constants.ts:177-184 | Each shipped term's sessions are its CAT and its end-term exam, in that order. |
| MarkSheets.ScoreDisplay | components/admin/MarkSheetsPage.tsx:53-58 | A cell is "" exactly for no score, "X"/"Y" exactly for the sentinels, and otherwise text that parses back to the rounded value. |
| MarkSheets.CellMatchesEntryForm | components/admin/MarkSheetsPage.tsx:53-58 | A stored score is printed exactly as the marks entry form shows it. |
| MarkSheets.CellReadsBack | components/admin/MarkSheetsPage.tsx:185-189 | A printed cell, typed back into the entry form, gives the stored score. |
| MarkSheets.SheetTotal | components/admin/MarkSheetsPage.tsx:154-179 | The sheet's own copy of the subject total equals the reference `Combine` for every input. |
| MarkSheets.FilteredSums | components/admin/MarkSheetsPage.tsx:167-173 | Summing over the filtered real-score components gives the reference count and sums. |
| MarkSheets.TotalMatchesReports | components/admin/MarkSheetsPage.tsx:190-192 | The printed total shows the reported term score the report cards use. |
| MarkSheets.FinalDisplay | components/admin/MarkSheetsPage.tsx:57 | Rounding before display and rounding during display agree. |
| MarkSheets.ByAdmissionOrder | components/admin/MarkSheetsPage.tsx:45 | The numeric admission-number order is a strict order. |
| MarkSheets.SheetStudents | components/admin/MarkSheetsPage.tsx:43-45 | The listed students are exactly those of the class and chosen stream, once per record, in admission-number order. |
| MarkSheets.StreamsInMembers | components/admin/MarkSheetsPage.tsx:40 | The stream list holds exactly the non-empty streams of the class's students. |
| MarkSheets.ClassStreams | components/admin/MarkSheetsPage.tsx:39-41 | "all" comes first, then every non-empty stream of the class once. Without a class there is only "all". |
| MarkSheets.RowOf | components/admin/MarkSheetsPage.tsx:153-193 | A row has one cell per term session showing the stored score as the entry form does, and a total showing the reported term score. |
| MarkSheets.SheetSessions | components/admin/MarkSheetsPage.tsx:26-27 | The sessions are exactly those of the selected term. There are none without a term. |
| MarkSheets.MarkSheet | components/admin/MarkSheetsPage.tsx:51-193 | The sheet is ready exactly when a student is listed, a subject is chosen and the term has sessions. It then has one row per listed student, in order. |
| MarkSheets.SheetShowsStoredScores | components/admin/MarkSheetsPage.tsx:153-193 | Every cell of a ready sheet reads back, through the entry form, as the stored score. |
| MarkSheets.RowShowsStoredScore | components/admin/MarkSheetsPage.tsx:185-189 | Every cell of a row reads back as its stored score. |
| AppState.Upsert | src/App.tsx:283-291 | Storing one mark: <br>- replaces, in place, the first mark with the same student and subject, or appends when there is none; <br>- keeps every other mark; <br>- adds nothing else. |
| AppState.UpsertAll | src/App.tsx:283-292 | After storing a batch, each old mark is still there or replaced by a submitted mark for its slot, and nothing else appears. |
| AppState.UntouchedSurvives | src/App.tsx:283-292 | A mark whose slot no submitted mark shares survives the batch. |
| AppState.LastSubmittedStored | src/App.tsx:283-292 | The last submitted mark for a slot is the one stored. |
| AppState.UpsertKeepsUnique | src/App.tsx:284-291 | Storing a mark never creates a second mark for a student and subject. |
| AppState.UpsertAllKeepsUnique | src/App.tsx:283-292 | Storing a batch never creates a second mark for a student and subject. |
| AppState.SubmitMarks | src/App.tsx:276-299 | The marks of other sessions come first, untouched, followed by at least as many marks as the session had. |
| AppState.SubmitNeverDeletes | src/App.tsx:281-294 | Each stored mark of the session keeps its place, holding itself or a submitted mark for the same slot. |
| AppState.SubmitShape | src/App.tsx:279-294 | The result is the other sessions' marks followed by the session's marks with the batch stored in. |
| AppState.SubmitKeepsOtherSessions | src/App.tsx:279-294 | A submission keeps every mark of another session. |
| AppState.SubmitInventsNothing | src/App.tsx:279-294 | Every mark after a submission was stored before or submitted. |
| AppState.SubmittedScoreIsRead | src/App.tsx:276-299 | With one stored mark per slot in the session, the score read back for a submitted slot is the last one submitted. |
| AppState.ReadFromSession | src/App.tsx:294 | Behind marks of other sessions, a lookup finds the session's own mark. |
| AppState.ParentAccount | src/App.tsx:396 | The parent account is a parent user whose username matches ignoring case. `None` means there is none. |
| AppState.OrphanedParent | src/App.tsx:395-402 | The account removed with a student is the student's parent account, and only when the deletion is confirmed and no other student has that parent. |
| AppState.DeleteStudent | src/App.tsx:381-409 | A confirmed deletion of an existing student removes exactly that student, their marks and their orphaned parent account. A cancelled or unknown deletion changes nothing, and nothing else changes. |
| AppState.DeleteKeepsRecordsLinked | src/App.tsx:392-402 | Deletion leaves no mark without its student and no student without a parent account. |
| AppState.MoveAccount | src/App.tsx:194-204 | A name under the old domain moves to the new one with its local part kept. Other names are unchanged. |
| AppState.LocalPartKept | src/App.tsx:195-196 | The rebuilt name's text before "@" is the old local part. |
| AppState.MoveUser | src/App.tsx:193-199 | A user changes only its username. The super administrator is skipped, and anyone else is moved. |
| AppState.MoveStudent | src/App.tsx:201-207 | A student changes only the parent username, which is moved. |
| AppState.SuperAdminSkipIsRedundant | src/App.tsx:194 | Skipping "superadmin" changes nothing, since that name has no domain. |
| AppState.UpdateSchoolDetails | src/App.tsx:179-234 | A blank field, or nothing to change, leaves the state alone. Otherwise the details are stored (the domain trimmed), every user, parent username and the signed-in user move to the new domain, and the marks are kept. |
| AppState.DomainMoveKeepsParentLinks | src/App.tsx:193-207 | A parent username that equals an account's username still equals it after the move. Links that only match ignoring case are not kept; see AppState.MixedCaseParentLeftBehind. |
| AppState.MixedCaseParentLeftBehind | src/App.tsx:194-204 | The move compares domains with letter case, while parents are matched without it. A parent username typed "...@MySchool.ac.ke" under the stored domain "myschool.ac.ke" is kept, while the account "...@myschool.ac.ke" that it matched moves to the new domain. |
| AppState.DomainMoveCompletes | src/App.tsx:193-199 | After an accepted update, every account that was under the old domain is under the new one, with the same local part. |
| AppState.UpdateIdempotent | src/App.tsx:189-191 | Saving the same details twice changes nothing the second time. |
| AppState.DeleteUser | src/App.tsx:488-502 | An allowed deletion removes exactly the users with the id. A cancelled one, or one aimed at the super administrator, changes nothing. |
| AppState.SuperAdminNeverDeleted | src/App.tsx:489-493 | With distinct ids, the super administrator account is never deleted. |
| Notifications.Missing | components/admin/AdminNotificationsPage.tsx:121-136 | The missing count is at most students × sessions. It is zero exactly when every pair has an entered mark. |
| Notifications.ClassName | components/admin/AdminNotificationsPage.tsx:118 | A reminder line always names its class: the recorded name, or "Unknown Class" when the class is missing or unnamed. |
| Notifications.SubjectName | components/admin/AdminNotificationsPage.tsx:122 | A reminder line always names its subject: the recorded active subject's name, or "Unknown Subject". |
| Notifications.MissingBound | components/admin/AdminNotificationsPage.tsx:124-136 | The count never exceeds the number of (student, session) pairs. |
| Notifications.MissingNone | components/admin/AdminNotificationsPage.tsx:124-136 | The count is zero exactly when every pair has an entered mark. |
| Notifications.SubjectDetails | components/admin/AdminNotificationsPage.tsx:120-145 | An assignment yields exactly the lines of its subjects with a missing mark. |
| Notifications.TeacherDetails | components/admin/AdminNotificationsPage.tsx:116-146 | A teacher yields exactly the lines, over all assignments, with a missing mark. |
| Notifications.RemindersFor | components/admin/AdminNotificationsPage.tsx:112-154 | A reminder exists for exactly the teachers with some line, listing exactly those lines. |
| Notifications.IncompleteSubmissions | components/admin/AdminNotificationsPage.tsx:103-157 | There are no reminders without a term or sessions. Every reminder is for a teacher, and every line counts a missing mark of one of the teacher's assignments. |
| Notifications.DetailCountsOutstanding | components/admin/AdminNotificationsPage.tsx:124-138 | A line counts a missing mark exactly when some pair is outstanding. |
| Notifications.RemindedIffMissing | components/admin/AdminNotificationsPage.tsx:103-157 | A teacher is reminded exactly when one of their assigned classes and subjects lacks an entered mark for the term. |
| Notifications.RemindedIfOutstanding | components/admin/AdminNotificationsPage.tsx:112-154 | A teacher with an outstanding mark gets the reminder listing their lines. |
| Notifications.DetailsNonEmpty | components/admin/AdminNotificationsPage.tsx:138-145 | An outstanding assignment gives the teacher at least one line. |
| Notifications.ReminderPresent | components/admin/AdminNotificationsPage.tsx:148-153 | A teacher with lines is reminded. |
| Notifications.OutstandingIfReminded | components/admin/AdminNotificationsPage.tsx:103-157 | A reminded teacher has an outstanding mark. |
| Notifications.SmsHead | components/admin/AdminNotificationsPage.tsx:166 | The message begins with the greeting by first name. |
| Notifications.PrepareSms | components/admin/AdminNotificationsPage.tsx:159-170 | No message without a phone number. Otherwise the message is the greeting, school and term text, then the list, then the closing. |
| Notifications.SmsListsEveryDetail | components/admin/AdminNotificationsPage.tsx:165-166 | Every line appears in the message as "Subject (Class)". |
| Notifications.OccursInside | components/admin/AdminNotificationsPage.tsx:166 | Text in the list occurs in the full message. |
| MeritPage.OrdersStrict | components/MeritListPage.tsx:53-77 | Each sort key's comparator is a strict order. |
| MeritPage.SortedPart | components/MeritListPage.tsx:53-77 | A list rearranges exactly the kept changes, sorted by its key. |
| MeritPage.Improved | components/MeritListPage.tsx:53-64 | The improved list holds exactly the positive changes. Sorted by change, the largest gain comes first. |
| MeritPage.Dropped | components/MeritListPage.tsx:66-77 | The dropped list holds exactly the negative changes. Sorted by change, the largest drop comes first. |
| MeritPage.ImprovedDroppedPartition | components/MeritListPage.tsx:53-77 | Whatever the keys, a change is in exactly one list when non-zero and in neither when zero. Together the lists hold every non-zero change once per occurrence. |
| MeritPage.SplitCounts | components/MeritListPage.tsx:53-77 | Positive and negative changes together are the non-zero changes, as multisets. |
| MeritPage.RecencyStrict | components/MeritListPage.tsx:101-104 | The comparison-term order is strict. |
| MeritPage.ComparisonTerms | components/MeritListPage.tsx:98-104 | The offered terms are exactly those earlier than the displayed one (none without it), most recent first. |
| MeritPage.CurrentNeverOffered | components/MeritListPage.tsx:98-100 | The displayed term, or any term of the same year and number, is never offered. |
| MeritPage.OfferedPrecedeCurrent | components/MeritListPage.tsx:98-100 | Every offered term comes before the displayed one in a performance history. |
| StudentsPage.InitialSelection | components/admin/AdminStudentsPage.tsx:48-52 | The form opens with the student's subjects without repeats, or nothing for a new student. |
| StudentsPage.Without | components/admin/AdminStudentsPage.tsx:89-90 | Removing a subject keeps exactly the others, in order, without repeats. |
| StudentsPage.ToggleSubject | components/admin/AdminStudentsPage.tsx:86-96 | Ticking flips exactly that subject: a selected subject is removed, any other is added last. No subject is held twice. |
| StudentsPage.ToggleTwice | components/admin/AdminStudentsPage.tsx:86-96 | Ticking twice restores the set. It restores the selection itself when the subject was not selected. |
| StudentsPage.WithoutLast | components/admin/AdminStudentsPage.tsx:89-92 | Removing the subject just appended gives the selection back. |
| StudentsPage.SubmitStudent | components/admin/AdminStudentsPage.tsx:98-125 | The form is accepted exactly when: <br>- the required fields are filled; <br>- no other student holds the admission number; <br>- the parent username passes the domain rule and has no space; <br>- the fees are not negative. <br>Each refusal names the first check that fails, with the number's holder. The source is the `AsWritten` rule. |
| StudentsPage.CapitalDomainRefusesParents | components/admin/AdminStudentsPage.tsx:109 | As written, a stored domain with a capital letter makes the form refuse every filled form whose admission number is free, at the domain check. |
| StudentsPage.StudentRulesAgree | components/admin/AdminStudentsPage.tsx:109 | On a stored domain without capitals, the form as written and its repair decide every submission alike. |
| StudentsPage.SchoolParentRefused | components/admin/AdminStudentsPage.tsx:109 | A new student whose parent is typed as "...@School.ac.ke" under that stored domain is refused as written and accepted by the repair. |
| StudentsPage.AcceptedKeepsAdmissionsUnique | components/admin/AdminStudentsPage.tsx:104-108 | Storing an accepted student keeps admission numbers unique. |
| AccountNames.DomainSuffix | components/admin/AdminStudentsPage.tsx:109 | The suffix is "@" followed by the domain. |
| AccountNames.CapitalInDomainRefusesAll | components/admin/AdminStudentsPage.tsx:109 | With a capital letter in the stored domain, the check as written refuses every username. |
| AccountNames.SchoolAddressRefused | components/admin/AdminTeachersPage.tsx:116 | "x@School.ac.ke" under domain "School.ac.ke" is refused as written and accepted as intended. |
| AccountNames.AsWrittenIffLowerDomain | components/admin/AdminStudentsPage.tsx:109 | The as-written check passes exactly when the intended one does and the domain has no capital. |
| AccountNames.TypedAddressAccepted | components/admin/AdminTeachersPage.tsx:116 | A username ending in "@" and the domain, in any case, passes the intended check. |
| AccountNames.AtSchoolIgnoresCase | components/admin/AdminTeachersPage.tsx:116 | The intended verdict depends on neither the username's case nor the domain's. |
| AccountNames.RulesAgreeOnLowerDomain | components/admin/AdminStudentsPage.tsx:109 | On a stored domain without capitals, the as-written rule and the case-blind rule give the same verdict. |
| AccountNames.SchoolAddressTyped | components/admin/AdminTeachersPage.tsx:116 | Any local part followed by "@School.ac.ke" passes the case-blind check. |
| AccountNames.SpaceSurvivesLowering | components/admin/AdminStudentsPage.tsx:113 | The space test on the lower-cased username is a test on the username itself. |
| TeachersPage.StaffList | components/admin/AdminTeachersPage.tsx:241 | Exactly the teachers and administrators are listed, except "superadmin". |
| TeachersPage.ListedAreDeletable | components/admin/AdminTeachersPage.tsx:241 | Every listed user may be deleted once confirmed, and is then gone. |
| TeachersPage.Lookup | components/admin/AdminTeachersPage.tsx:59 | A class's subjects are its grid entry's, or empty without one. |
| TeachersPage.Put | components/admin/AdminTeachersPage.tsx:64-66 | Setting a class keeps an existing entry's place, or adds the class last. Other entries are untouched, and classes stay distinct. |
| TeachersPage.Delete | components/admin/AdminTeachersPage.tsx:68 | Deleting keeps exactly the other classes' entries. |
| TeachersPage.DeleteKeepsUnique | components/admin/AdminTeachersPage.tsx:68 | Deleting keeps classes distinct. |
| TeachersPage.ToggleAssignment | components/admin/AdminTeachersPage.tsx:57-72 | Toggling keeps classes distinct, and keeps no class with an empty list. |
| TeachersPage.ToggleAssignmentEffect | components/admin/AdminTeachersPage.tsx:57-72 | Toggling flips exactly that subject of that class. Other classes keep their lists, and the class stays exactly while subjects remain. |
| TeachersPage.InitialGrid | components/admin/AdminTeachersPage.tsx:44-47 | The opening grid has one entry per assigned class, with classes distinct. |
| TeachersPage.SubmitStaff | components/admin/AdminTeachersPage.tsx:112-127 | The form is accepted exactly when: <br>- the name and username are present; <br>- a password is given for a new user; <br>- the username passes the domain rule; <br>- no other user has it, ignoring case. <br>Each refusal names the first failing check. The source is the `AsWritten` rule. |
| TeachersPage.CapitalDomainRefusesStaff | components/admin/AdminTeachersPage.tsx:116 | As written, a stored domain with a capital letter makes the form refuse every complete form, at the domain check. |
| TeachersPage.StaffRulesAgree | components/admin/AdminTeachersPage.tsx:116 | On a stored domain without capitals, the form as written and its repair decide every submission alike. |
| TeachersPage.FirstStaffAccepted | components/admin/AdminTeachersPage.tsx:112-127 | With nobody else on record, a complete form is accepted exactly when the domain rule admits its username. |
| TeachersPage.SchoolStaffRefused | components/admin/AdminTeachersPage.tsx:116 | A new teacher typed as "...@School.ac.ke" under that stored domain is refused as written and accepted by the repair. |
| TeachersPage.AcceptedKeepsUsernamesUnique | components/admin/AdminTeachersPage.tsx:117-118 | Storing an accepted user keeps usernames distinct, ignoring case. |
| Text.TrimStart | components/MarksInput.tsx:60 | The result drops exactly the leading white space: the ECMAScript white-space and line-terminator code points. |
| Text.TrimEnd | components/MarksInput.tsx:60 | The result drops exactly the trailing white space, from the same set. |
| Text.BlankIffAllSpace | components/admin/AdminExamConfigPage.tsx:85 | `!s.trim()` holds exactly when every character is white space. |
| Text.ParseInt | components/MarksInput.tsx:75 | `parseInt` yields a number only when the text contains a digit. `None` stands for `NaN`. |
| Text.ParseIntOfDigits | components/admin/AdminExamConfigPage.tsx:44 | A run of digits parses to its decimal value. |
| Text.ParseIntOfNegatedDigits | components/admin/AdminExamConfigPage.tsx:73 | A minus sign before digits parses to the negated value. |
| Text.Words | utils/examLogic.ts:7 | `split(/\s+/)` with empty pieces dropped gives only non-empty words with no white space. |
| Text.NumericLessTransitive | components/admin/MarkSheetsPage.tsx:45 | The numeric admission-number collation is transitive. |
| Text.NumericLessIrreflexive | components/admin/MarkSheetsPage.tsx:45 | No admission number sorts before itself. |
| Text.StrLessAsymmetric | utils/examLogic.ts:381 | Two names never each sort before the other. |
| Grading.ScaleGradesDistinct | constants.ts:18-31 | No two rows of the grading table share a grade label. |
| Text.ParseIntOfIntToString | components/MarksInput.tsx:75-89 | `parseInt(String(n))` gives back n. |
| Text.BeforeFirst | src/App.tsx:195 | `split('@')[0]` is the prefix before the first "@". |
| Text.JoinContainsItems | components/admin/AdminNotificationsPage.tsx:165 | Every item of a joined list occurs in the joined text. |
| Text.StrLessTotal | utils/examLogic.ts:381 | The name order is total on distinct names. |
| Sorting.SortBy | utils/examLogic.ts:371-382 | Sorting returns a permutation of the input. |
| Sorting.SortBySorted | utils/examLogic.ts:371-382 | Sorting by a strict order returns a sorted sequence. |
| Sorting.SortByMap | utils/examLogic.ts:445-456 | Sorting commutes with any projection that preserves the order. |
| Collections.CountMultiset | utils/examLogic.ts:367-369 | A count is determined by the multiset of elements. |

## Left out

- Floating point: averages are exact rationals. `Math.round` is floor(x + 1/2), which is what JavaScript computes for every finite double. Binary rounding of intermediate divisions is not modelled, so a mean that lands a hair below .5 in IEEE arithmetic is rounded here as the exact rational would be.
- `NaN` checks: `isNaN(score)` in utils/examLogic.ts:21 cannot fire, since scores are integers or absent. `parseInt`'s `NaN` is `None`.
- `localeCompare`: compares code points (`Text.StrLess`). The numeric collation of admission numbers is `Text.NumericLess`: all-digit strings by value first, then code points. Locale-specific collation is not modelled.
- Case mapping: only ASCII letters are upper- or lower-cased.
- Cohort.PerformanceHistory: the source's comparator returns `NaN` when a term name has no number, which is not a consistent order. `HistoryBefore` treats such points as tied within their year.
- Sorting.SortBy: stability is not stated as a property. Sortedness and permutation are.
- The report copy of the weighted score looks sessions up by id (utils/examLogic.ts:197). StudentReport.ReportUnroundedAgrees and StudentReport.GenerateReport state agreement with the reference only when session ids are distinct. With duplicate ids the report can weigh a score by the wrong session.
- StudentReport.GenerateReport: signature image URLs, closing and opening dates, and the fee fields are not modelled. The fee fields are copied from the student, who is already part of the report. The `!student \|\| !term` guard is not modelled, since both are always present in a typed model.
- ClassAnalysis.EntryOf: the source's `find(...)!` always succeeds, because every summary comes from a group member. The model falls back to an empty name instead of an undefined one.
- AppState.SubmittedScoreIsRead: requires at most one stored mark per student and subject in the session beforehand. With duplicates, the first (replaced) one is read.
- AppState.SuperAdminNeverDeleted: requires distinct user ids. The source checks only the first user with the id.
- StudentsPage.AcceptedKeepsAdmissionsUnique: requires distinct student ids. The source saves by id.
- TeachersPage.AcceptedKeepsUsernamesUnique: requires distinct user ids, for the same reason.
- TeachersPage.Delete: its contract states membership only. Uniqueness of classes is stated separately in TeachersPage.DeleteKeepsUnique.
- The assignment grid keeps classes in first-insertion order, as a JavaScript object does for non-numeric keys. Integer-like class ids, which JavaScript orders numerically, are not modelled.
- Form inputs: `parseFloat(value) \|\| 0` for the fee fields (components/admin/AdminStudentsPage.tsx:61) is not modelled; fees are the numbers the inputs hold. Gender is `Option`, where an empty choice is `None`.
- Staff form: the phone number, role, images and the other profile fields pass through unchecked and are not modelled.
- The class-change default subject on the mark sheet page (components/admin/MarkSheetsPage.tsx:29-35) is not modelled, nor the UI gating of which selects are enabled.
- Adding a term or a session (components/admin/AdminExamConfigPage.tsx:23-31,53-61) is not modelled, because it depends on the clock (`Date.now()` ids and the current year). Edits to a term's name, mode and dates are not modelled either; only the year input is.
- Login, logout, profile updates, badge upload, active-subject updates and the student/user save handlers of src/App.tsx are not modelled. They are outside the exam engine and these pages' checks.
- `alert`, `window.confirm` (a `confirmed` flag), `window.print`, `setTimeout`, `localStorage` and React state are I/O, and are not modelled.

## Findings

| source | as written | input that shows it | evidently intended | confidence | as-written member | corrected member |
|---|---|---|---|---|---|---|
| components/admin/AdminStudentsPage.tsx:109 | The student form (and the staff form, components/admin/AdminTeachersPage.tsx line 116) lower-cases the username but compares it with "@" + the domain as stored, so a stored domain with a capital letter refuses every username. `SubmitStudent` and `SubmitStaff` with the `AsWritten` rule model this. | domain "School.ac.ke", username "x@School.ac.ke" | Compare case-blind on both sides, so any username ending in "@" and the domain is accepted. This is the `CaseBlind` rule, and it agrees with the forms on every domain without capitals. | medium, not executed | StudentsPage.SchoolParentRefused | AccountNames.TypedAddressAccepted |
