TestResult.DisplayName,TestResult.Outcome,TestResult.Duration,TestResult.ResourceCount,RandomSeed
TermSummary.Summarize (well-formedness),Failed,00:00:01.0615896,2240994,0
TermSummary.SummaryMeansValues (correctness),Failed,00:00:00.9109912,2225554,0
TermSummary.SummaryUnroundedAgrees (correctness),Passed,00:00:00.5788810,1111544,0
TermSummary.ScoreMapKeys (correctness),Passed,00:00:00.3926110,702438,0
TermSummary.SummaryMeansFacts (correctness),Passed,00:00:00.3308751,449595,0
TermSummary.SummarySumsAgree (correctness),Passed,00:00:00.3057895,770940,0
TermSummary.ScoreMapValues (correctness),Passed,00:00:00.2971431,558035,0
TermSummary.LinesValid (correctness),Passed,00:00:00.2829914,794059,0
TermSummary.LinesNone (correctness),Passed,00:00:00.2721925,608902,0
TermSummary.SubjectKeyed (correctness),Passed,00:00:00.2607907,358410,0
TermSummary.SummarySubjects (well-formedness),Passed,00:00:00.2351172,62924,0
TermSummary.SummaryMeansValues (well-formedness),Passed,00:00:00.2252359,248360,0
TermSummary.ComputedInRange (correctness),Passed,00:00:00.2235434,400318,0
TermSummary.ComputedInRange (well-formedness),Passed,00:00:00.2212615,241189,0
TermSummary.SummaryLines (well-formedness),Passed,00:00:00.2179384,318510,0
TermSummary.SummaryWeightedSums (well-formedness),Passed,00:00:00.2084197,82946,0
TermSummary.ScoreMapFacts (correctness),Passed,00:00:00.1886972,221062,0
TermSummary.SummaryScoreAgrees (correctness),Passed,00:00:00.1839349,137539,0
TermSummary.KeyFromSubject (correctness),Passed,00:00:00.1808033,314958,0
TermSummary.SummaryBoundsFacts (well-formedness),Passed,00:00:00.1780969,252030,0
TermSummary.SummaryBoundsFacts (correctness),Passed,00:00:00.1765633,337851,0
TermSummary.ScoreMapValues (well-formedness),Passed,00:00:00.1667739,217174,0
TermSummary.ScoreMap (well-formedness),Passed,00:00:00.1648700,360762,0
TermSummary.LinesMeans (correctness),Passed,00:00:00.1637312,528274,0
TermSummary.ScoreMapFacts (well-formedness),Passed,00:00:00.1393381,223251,0
TermSummary.LinesNone (well-formedness),Passed,00:00:00.1392748,207793,0
TermSummary.LineFor (well-formedness),Passed,00:00:00.1310402,180929,0
TermSummary.LinesMeans (well-formedness),Passed,00:00:00.1080780,126024,0
TermSummary.SummaryUnrounded (well-formedness),Passed,00:00:00.1054370,156713,0
TermSummary.Taken (well-formedness),Passed,00:00:00.0890160,70151,0
TermSummary.LinesValid (well-formedness),Passed,00:00:00.0856122,210357,0
TermSummary.SessionScores (well-formedness),Passed,00:00:00.0853142,116687,0
TermSummary.TakenTotal (correctness),Passed,00:00:00.0842435,141398,0
TermSummary.SummaryOfLines (well-formedness),Passed,00:00:00.0772048,120502,0
TermSummary.ComponentsValid (correctness),Passed,00:00:00.0616536,122385,0
TermSummary.TakenBounds (correctness),Passed,00:00:00.0597233,148764,0
TermSummary.ComponentsValid (well-formedness),Passed,00:00:00.0595867,92071,0
TermSummary.GradeOfMean (well-formedness),Passed,00:00:00.0544928,69389,0
TermSummary.TakenEmpty (correctness),Passed,00:00:00.0534612,96475,0
TermSummary.TakenBounds (well-formedness),Passed,00:00:00.0359448,66267,0
TermSummary.TakenEmpty (well-formedness),Passed,00:00:00.0286462,55510,0
TermSummary.InRange (well-formedness),Passed,00:00:00.0263452,26992,0
TermSummary.Marks (well-formedness),Passed,00:00:00.0202733,7535,0
TermSummary.PercentTimesCount (well-formedness),Passed,00:00:00.0098261,4248,0
TermSummary.MeanTimesCount (correctness),Passed,00:00:00.0087560,3862,0
TermSummary.PercentTimesCount (correctness),Passed,00:00:00.0077062,7949,0
TermSummary.MeanTimesCount (well-formedness),Passed,00:00:00.0075307,3908,0
