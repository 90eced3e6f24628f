# DataCraft verification model

A Dafny model of the parts of DataCraft, a data-quality backend, that decide something: the deterministic
evidence engines and the checks on what a language model proposes, the business-key search and the record
references built on it, the review, correction and approval protocol, the source adapters, the refresh-token
store, the discovery catalogue and the profiler's outlier count. `dafny verify dfyconfig.toml` checks it.

## How it is organised

| modules | what they cover |
|---|---|
| `Collections`, `Text`, `Progression`, `Grids` | shared: comprehensions and permutations, counts and modes, sorted distinct values, decimal text, stripping, case and string order, arithmetic progressions with one term removed, the step and the missing slots of a set |
| `Identifiers`, `SequenceEvidence`, `SequenceRecovery`, `SequenceColumn` | identifiers as prefix, number, suffix; the gap and next-value engine; recovery of a deleted identifier; the engine on the raw column, with noise |
| `TemplateEvidence`, `TemplateLearning` | learning a string transformation from examples, and what is learned, character by character |
| `RelationshipEvidence`, `RelationshipLaws`, `RelationshipTarget` | five numeric laws fitted to the rows comparable with the failing one; roles, groups, fits and laws on the cells; when that row's own target matters |
| `Calendar`, `TemporalEvidence`, `TemporalRecovery`, `TemporalColumn`, `TemporalErrors` | the Gregorian calendar, the fixed-interval, year and month strategies, their laws, the entry point on a whole column, and when the engine raises |
| `CandidateAggregation`, `CorrectionSafety`, `SafetyTables` | ranking of candidates; the reply parser and the two safety passes, and what they do in every case |
| `BusinessKeyDiscovery`, `KeyAdoption`, `KeyColumns` | the minimal-key search, adoption of a key, record references; the search on a table's columns and what references are made of |
| `ReviewProtocol`, `ReviewInvariants`, `ReviewLedger`, `ReviewEffects`, `ReviewService` | the protocol as atomic steps on tables, its invariants and its approval ledger over whole runs, when each step is accepted and what it stores, and the service class whose methods perform the steps |
| `SourceAdapters` | key lookups under three-valued logic, the batched scan |
| `RefreshTokens` | rotate-on-use tokens: single Redis commands interleaved, and whole methods in turn |
| `Catalogue`, `CatalogueMirror`, `CatalogueService` | the discovery upserts and sweep, the mirror theorem, and the service class |
| `Outliers` | interpolated quartiles and the count outside the fences |

Code that changes state is a class or a loop here too (`ReviewService.ReviewDatabase`,
`CatalogueService.DiscoveryService`, `KeyAdoption.Dataset`, `RefreshTokens.RefreshTokenStore`, the grouping,
scoring, key-evaluation, slot, law-fitting, query-compiling and scanning loops): each method equals a
specification function, and the theorems are about those functions. So that a theorem says something about inputs
and outputs and not only about another function, the functions have a second description that does not mention them:
words and characters for the template engine, the set of numbers and its gaps for sequences and dates, cells for the
numeric laws, fields for the reply, rows for the review tables. A lemma equates the two for all inputs.

Floats are reals, instants are microseconds counted from year one, strings are sequences of ASCII characters, and a
database table is a map. What the code cannot decide by itself (the square root, `float`, `repr`, `str`, the rows
fetched, the model's reply, fresh ids) is a parameter.

## Where the code departs from what it documents

The model follows the code. Each point below has a lemma with a concrete input at which the code departs, and a
lemma with the exact condition, for all inputs, under which it does what is documented.

- A column of signed plain numbers can get a wrongly padded candidate: zero deleted from
  -200, -100, 0, 100, 200, 300 comes back as `000` (`SequenceRecovery.SignedColumnIsOverPadded`). Recovery of a
  plain progression holds exactly when the remaining numbers do not all share a width greater than the deleted
  number's own (`SequenceRecovery.PlainDeletionRecovery`); it always holds for non-negative terms.
- The sequence engine's comment on its two strategies says "exactly one gap XOR exactly one duplicate". Among the
  columns that get a proposal this fails exactly for those that miss a slot and repeat a value, and the proposal is a
  gap exactly when a slot is missing (`SequenceRecovery.GapDecidesIff`). So with both together the gap decides,
  whichever value occurs twice (`SequenceRecovery.OneGapDecides`); 1, 2, 3, 5, 6, 6 proposes 4
  (`SequenceRecovery.GapBesideDuplicate`).
- The temporal engine is documented never to raise. It raises in three places, each with an input:
  the year strategy builds the gap's date outside any `try` block (`TemporalErrors.LeapDaysRaise`), the
  fixed-interval loop computes one slot too many (`TemporalErrors.LastDaysRaise`), and the next value of a range
  whose last value lies off the grid can leave the calendar (`TemporalErrors.NextDayRaises`).
  `TemporalErrors.DiscoverRaisesIff` says exactly which columns raise, and
  `TemporalErrors.OrdinaryColumnsNeverRaise` that dates up to the year 4999, not all of them leap days, never do.
- The month strategy prefers month-ends to a common day, so same-day recovery fails exactly when the remaining
  dates are all month-ends and the deleted one is not (`TemporalRecovery.MonthRecovery`): February 28 deleted from
  2024 comes back as February 29 (`TemporalRecovery.MonthEndsWin`).
- The parser of correction replies is documented never to raise. It raises exactly on an object whose category
  is an array or an object, which no frozen set can look up (`CorrectionSafety.ParserRaisesIff`,
  `CorrectionSafety.ListCategoryRaises`).
- `decide` does not look at the request's status. Once a run was archived and restored, a closed request can be
  decided again and reopened beside a newer one (`ReviewLedger.ClosedRequestCanReopen`); two open requests then
  block every submit and archive of the run (`ReviewLedger.TwoOpenRequestsBlockTheRun`). Over any history from empty
  tables no run ever has two exactly when every accepted decision is of an open request, or leaves nothing to decide,
  or meets no other open request (`ReviewLedger.OneOpenFromEmptyIff`, and for one decision
  `ReviewLedger.DecideKeepsOneOpenIff`).
- `bulk_action` checks the status of the run it is given, not of the runs its issues belong to, so a call that
  names another run can change a frozen scope (`ReviewLedger.ForeignBulkIsReachable`). It keeps the scope exactly
  when it lists none of its issues (`ReviewLedger.BulkKeepsScopeIff`); the ledger theorems carry the condition
  that a bulk action stays in its run.
- The relationship engine is documented never to read the failing row's own target. The target decides which
  rows equal the failing row and are left out. The answer is the same for every target exactly when no fetched row
  agrees with the failing row on every other column (`RelationshipTarget.TargetIsIgnoredIff`); in
  `RelationshipTarget.OneEqualRowDecides` one equal row turns a candidate into too small a group.
- `revoke_all_for_user`, overlapping an `issue`, can leave a live token that no later sweep revokes
  (`RefreshTokens.SweepRacesWithIssue`, `RefreshTokens.NoSweepReaches`). From any state and for any interleaving it
  leaves exactly the user's tokens without a fate that were either issued before it started and not listed then, or
  first issued in its window (`RefreshTokens.SweepLeavesExactly`). Undisturbed by an issue to that user it leaves
  exactly those that were not listed when it started (`RefreshTokens.UndisturbedSweepLeavesUnlisted`), so none if
  every live token was listed (`RefreshTokens.UndisturbedSweepLeavesNone`), as whole methods in turn keep it.

## Model

| member | source | states |
|---|---|---|
| Identifiers.ParseFindsTheDecomposition | app/modules/ai/evidence_sequence.py:153-170 | a text that splits as non-digit prefix, sign, digits and non-digit suffix is parsed to exactly that template, number and width |
| Identifiers.ParsedCanBeDecomposed | app/modules/ai/evidence_sequence.py:153-170 | the converse: whatever is parsed is such a split of the stripped text |
| Identifiers.ParsedTemplateIsWellFormed | app/modules/ai/evidence_sequence.py:153-170 | every template the parser gives is one that formatting can be read back from |
| Identifiers.FormatRoundTrip | app/modules/ai/evidence_sequence.py:195-204 | a formatted candidate parses back to its template, its number and its width, with or without zero padding |
| SequenceEvidence.FindDominantTemplate | app/modules/ai/evidence_sequence.py:173-192 | the grouping loop computes the most frequent template, the first met on a tie, if its group covers nine tenths of all non-null observations |
| SequenceEvidence.LargestEntry | app/modules/ai/evidence_sequence.py:185-189 | the largest group, and the first of the largest ones |
| SequenceEvidence.ProposalIsWellPlaced | app/modules/ai/evidence_sequence.py:280-353 | a proposed number is absent, lies on the grid min + k*step with every other expected slot present, is below max + step for a gap (inside the range when the span is a whole number of steps) and equals max + step for a next value; the "already exists" branch is never reached |
| SequenceEvidence.SlotCount | app/modules/ai/evidence_sequence.py:299-320 | the overshooting range of expected slots never has more than 10001 elements once the width check has passed |
| SequenceEvidence.CandidateIffProposed | app/modules/ai/evidence_sequence.py:236-436 | CANDIDATE is reported exactly when there are enough observations, a dominant template, and its numbers propose a value |
| SequenceEvidence.CandidateIsFreshAndWellPlaced | app/modules/ai/evidence_sequence.py:335-353 | every candidate string parses back to the dominant template and a well placed number, differs from every observation, stripped or not, and needed at most 10001 slots |
| SequenceRecovery.OrderIndependence | app/modules/ai/evidence_sequence.py:173-192 | permuting the observations changes nothing in the whole result |
| SequenceRecovery.DeletedNumberIsRecovered | app/modules/ai/evidence_sequence.py:263-436 | delete any interior term of a progression of 6 to 10000 terms and shuffle: a gap candidate with the deleted number comes back |
| SequenceRecovery.PaddedDeletionRecovery | app/modules/ai/evidence_sequence.py:195-204 | zero-padded to one width, the deleted term's exact string comes back |
| SequenceRecovery.PlainDeletionRecovery | app/modules/ai/evidence_sequence.py:195-204 | in plain decimal the exact string comes back if and only if the other members do not all share a greater width |
| SequenceRecovery.NonNegativeDeletionRecovery | app/modules/ai/evidence_sequence.py:195-204 | for non-negative terms in plain decimal the exact string always comes back |
| SequenceRecovery.SignedColumnIsOverPadded | app/modules/ai/evidence_sequence.py:195-204 | the exception occurs: a deleted zero comes back as three digits |
| SequenceRecovery.GapDecidesIff | app/modules/ai/evidence_sequence.py:392-423 | a proposal means at most one missing slot and at most one repeat and at least one of them; it is a gap if and only if a slot is missing, and "XOR" fails if and only if a value is repeated as well |
| SequenceRecovery.OneGapDecides | app/modules/ai/evidence_sequence.py:392-423 | when distinct values propose a gap, the same values with any one of them twice propose the same gap |
| SequenceRecovery.GapBesideDuplicate | app/modules/ai/evidence_sequence.py:392-423 | 1, 2, 3, 5, 6, 6 proposes the gap 4 |
| SequenceRecovery.ProposeNext | app/modules/ai/evidence_sequence.py:407-423 | a full progression of 4 to 10000 terms with any one term twice proposes first + n * step, in any order |
| SequenceRecovery.DuplicateGivesNextValue | app/modules/ai/evidence_sequence.py:263-436 | the same for a column of identifiers: a next-value candidate with that number, written with the width the members share |
| SequenceRecovery.PaddedNextValue | app/modules/ai/evidence_sequence.py:195-204 | zero-padded to one width, the next value is padded to it too |
| SequenceRecovery.PlainNextValue | app/modules/ai/evidence_sequence.py:195-204 | in plain decimal the next value's exact string comes back if and only if the members do not all share a greater width |
| SequenceRecovery.NonNegativeNextValue | app/modules/ai/evidence_sequence.py:195-204 | for non-negative terms the next value's exact string always comes back |
| SequenceColumn.CoverageDecides | app/modules/ai/evidence_sequence.py:233-261 | on the raw column: fewer than five values that are neither null nor blank are INSUFFICIENT_GROUP; if every template is followed by less than nine tenths of them there is NO_RELATIONSHIP; a candidate's template is followed by at least nine tenths |
| SequenceColumn.NumbersDecide | app/modules/ai/evidence_sequence.py:173-192 | a template followed by nine tenths of the values that are not blank decides: the answer is what the numbers written with it propose, in its format |
| SequenceColumn.ProposalIsDecided | app/modules/ai/evidence_sequence.py:263-436 | the proposal from the set of the numbers: its most frequent jump, the slots it misses and how many numbers are repeated decide the status, the strategy and the proposed number, at the documented thresholds |
| SequenceColumn.RatiosAreReported | app/modules/ai/evidence_sequence.py:317-353 | the reported step consistency, coverage and confidence are those shares of the counts |
| SequenceColumn.RecoveryThroughNoise | app/modules/ai/evidence_sequence.py:173-192 | deletion recovery with nulls, blanks and other texts among the identifiers: the deleted number comes back while the other texts are at most a ninth of the identifiers |
| SequenceColumn.TooMuchNoise | app/modules/ai/evidence_sequence.py:248-261 | with more texts than that which are no identifiers there is NO_RELATIONSHIP |
| Grids.ModeIsTheStep | app/modules/ai/evidence_sequence.py:280-281 | the mode of the sorted differences is the most frequent distance of neighbours in the set, the one of the smallest value on a tie |
| Grids.AbsentAreMissing | app/modules/ai/evidence_sequence.py:317-318 | the sorted gaps are the slots of the grid that are no values |
| Grids.ExcessIsSurplus | app/modules/ai/evidence_sequence.py:276-277 | the duplicate count is how many more numbers there are than different ones |
| TemplateEvidence.HypothesesMatchingPair | app/modules/ai/evidence_template.py:145-167 | the nested loops find exactly the hypotheses that each case and delimiter read off the pair, at most fifteen |
| TemplateEvidence.SuggestedIffFirstOccurrence | app/modules/ai/evidence_template.py:134-167 | a hypothesis is read off a pair exactly when it reproduces the target and its core first occurs at its prefix length |
| TemplateEvidence.Score | app/modules/ai/evidence_template.py:230-245 | supporting and contradicting add up to the pairs, and nothing contradicts exactly when every pair is reproduced |
| TemplateEvidence.DiscoverTemplateEvidence | app/modules/ai/evidence_template.py:217-335 | the loops compute the specified result: threshold checks in order, perfect hypotheses, the agreed value, the first hypothesis of the sort |
| TemplateEvidence.CandidateIffUnanimous | app/modules/ai/evidence_template.py:217-313 | CANDIDATE if and only if there are enough pairs, the query has tokens, some generated hypothesis reproduces every pair, and all that do agree on the query |
| TemplateEvidence.VersionSpaceIsComplete | app/modules/ai/evidence_template.py:145-167 | every transformation that reproduces all pairs and whose core first occurs at its prefix length in some target is generated, so a candidate agrees with it |
| TemplateEvidence.TrainingSourceGetsItsTarget | app/modules/ai/evidence_template.py:284-313 | a query with the tokens of a training source gets that pair's target |
| TemplateEvidence.TopIsDetermined | app/modules/ai/evidence_template.py:249-255 | the chosen hypothesis is the least of the surviving set in a total order, so it does not depend on the order of a set |
| TemplateEvidence.OrderIndependence | app/modules/ai/evidence_template.py:217-313 | permuting the example pairs changes nothing in the whole result |
| TemplateLearning.TokensAreTheWords | app/modules/ai/evidence_template.py:115-121 | a text's tokens are its words: if non-empty alphanumeric words are spelled with other characters between them, the tokens are those words, and every text is spelled so in exactly one way |
| TemplateLearning.SourceWordsAreTokens | app/modules/ai/evidence_template.py:124-131 | the tokens of several columns are the words of each in turn; stripping, joining and skipping blanks lose none |
| TemplateLearning.CoreIffJoined | app/modules/ai/evidence_template.py:134-142 | the core is the words one after the other, every letter in the case wanted, with the delimiter after each but the last, place by place |
| TemplateLearning.CandidateIffExplained | app/modules/ai/evidence_template.py:170-335 | on raw rows: CANDIDATE if and only if at least three rows have a target that is not blank and some word, the query has a word, some case, delimiter, prefix and suffix render every such row (the words nowhere earlier in one of them), and all that do render the query alike; the candidate is that rendering |
| TemplateLearning.AmbiguousIffUnexplained | app/modules/ai/evidence_template.py:257-327 | AMBIGUOUS if and only if there are three observations, the words of one are found in its target, and no explanation fits all or explanations disagree on the query |
| TemplateLearning.InsufficientIffTooFew | app/modules/ai/evidence_template.py:199-215 | INSUFFICIENT_GROUP if and only if fewer than three rows are observations |
| TemplateLearning.CandidateIsExplained | app/modules/ai/evidence_template.py:339-367 | the reported hypothesis explains every row, its support is their number, and its confidence a sixth for each row up to one |
| TemplateLearning.ReportedIsPreferred | app/modules/ai/evidence_template.py:249-255 | of several explanations the reported one comes first by case as written, lower, upper, then delimiter, prefix and suffix in text order |
| RelationshipEvidence.RolesFollowTheLastColumn | app/modules/ai/evidence.py:114-154 | each column name has exactly one role, that of the last column of that name |
| RelationshipEvidence.CombinationsAreOrderedPairs | app/modules/ai/evidence.py:367-402 | the unordered pairs are those of two positions, the first before the second |
| RelationshipEvidence.PermutationsAreAllPairs | app/modules/ai/evidence.py:437-440 | the ordered pairs are those of any two different positions |
| RelationshipEvidence.DerivedPairs | app/modules/ai/evidence.py:244-251 | the loop keeps exactly the rows in which target and both columns are finite numbers |
| RelationshipEvidence.FitDerivedLoop | app/modules/ai/evidence.py:229-241 | the error loop computes one minus the mean relative error, and nothing for no pairs |
| RelationshipEvidence.DiscoverRelationshipEvidence | app/modules/ai/evidence.py:254-519 | the five loops append the shapes that can be fitted, in order, and choose among them |
| RelationshipEvidence.PerfectFitIffLaw | app/modules/ai/evidence.py:206-241 | a fitted shape has quality 1 if and only if its law holds on every usable row, and the law then gives one value for the failing row, the shape's own |
| RelationshipEvidence.ConfidenceDiscountsTheFit | app/modules/ai/evidence.py:195-203 | confidence lies between half the fit and the fit from the minimum group size on, and equals the fit exactly from twice the minimum on |
| RelationshipEvidence.SortIsASort | app/modules/ai/evidence.py:471-472 | the sort keeps all evidence and orders it by falling fit |
| RelationshipEvidence.ChoiceIsExact | app/modules/ai/evidence.py:471-519 | NO_RELATIONSHIP iff nothing reaches the minimum fit; a candidate has the greatest fit and no disagreeing competitor within the margin; AMBIGUOUS comes with such a competitor; best and rejected are together all evidence |
| RelationshipEvidence.ExactLawPinsTheAnswer | app/modules/ai/evidence.py:309-519 | when a shape's law holds exactly, the answer is AMBIGUOUS or a candidate that fits perfectly itself and is close to that law's value, never another value |
| RelationshipEvidence.RowOrderIndependence | app/modules/ai/evidence.py:278-519 | in exact arithmetic the order of the fetched rows changes nothing, roles included |
| RelationshipEvidence.FailingTargetIsIgnored | app/modules/ai/evidence.py:286-294 | changing the failing row's own target changes nothing as long as the same rows count as other rows (the exact condition is the next row's) |
| RelationshipLaws.RoleIs | app/modules/ai/evidence.py:106-148 | the role by type in any case, key flag and distinct share: known or in the sample at least 95 per cent; numbers are identifiers only in a sample of at least twenty rows |
| RelationshipLaws.DimensionsAre | app/modules/ai/evidence.py:279-281 | the dimensions are the names other than the target whose last column is one |
| RelationshipLaws.MeasuresAre | app/modules/ai/evidence.py:282-284 | the measures are the first fifteen such names in order of first appearance |
| RelationshipLaws.GroupIsComparable | app/modules/ai/evidence.py:286-294 | the group is, in order, the rows other than the failing one that have the same cell in every dimension |
| RelationshipLaws.OfferedIff | app/modules/ai/evidence.py:309-468 | tested are the constant, each ratio, each product and sum of two measures in order, and both differences |
| RelationshipLaws.QuotientIs | app/modules/ai/evidence.py:216-226 | a ratio is tested on the rows that have both numbers and a measure other than zero, on the target by the measure |
| RelationshipLaws.DerivedIs | app/modules/ai/evidence.py:244-251 | a product, sum or difference is tested on the rows that have all three numbers, against that arithmetic of the two cells |
| RelationshipLaws.RelativeErrorIs | app/modules/ai/evidence.py:229-241 | the relative error is the distance as a share of the larger magnitude, but at least of a billionth |
| RelationshipLaws.DerivedFitIs | app/modules/ai/evidence.py:229-241 | the residual is the average relative error, and the quality what it leaves of one |
| RelationshipLaws.SpreadFitIs | app/modules/ai/evidence.py:206-226 | the coefficient is the mean, the residual the standard deviation as a share of its magnitude, the quality what that leaves of one; a mean of zero gives no fit |
| RelationshipLaws.TestedIff | app/modules/ai/evidence.py:309-470 | a shape yields evidence if and only if enough rows and the failing row have its numbers and there is a fit; the value is the coefficient, the coefficient times the cell, or the arithmetic of the failing row's cells |
| RelationshipLaws.CompetesIff | app/modules/ai/evidence.py:490-496 | competing is being at most three hundredths behind with a value that is not close: within a hundredth of either, or a millionth |
| RelationshipLaws.ExactLawDecides | app/modules/ai/evidence.py:254-519 | end to end on the cells: where target = constant, k * measure, a * b, a + b or a - b holds on every comparable row that has the numbers, on enough of them, the answer is AMBIGUOUS or a candidate close to the law's value whose own law holds exactly |
| RelationshipLaws.EvidenceDecides | app/modules/ai/evidence.py:286-519 | for every group, law or not: too small is exactly fewer comparable rows than the minimum; otherwise no relationship means no tested shape reaches the minimum fit, a candidate is the best-fitting tested shape with no qualifying one within 0.03 of its fit saying another value, and an ambiguity has such a rival |
| RelationshipTarget.TargetIsIgnoredIff | app/modules/ai/evidence.py:272-294 | the answer is the same for every target value of the failing row if and only if no fetched row agrees with it on every other column |
| RelationshipTarget.OneEqualRowDecides | app/modules/ai/evidence.py:286-307 | three rows agree on a total: a failing row that equals the third one gets INSUFFICIENT_GROUP, with no total it gets the candidate |
| Calendar.AddMonthsAdvances | app/modules/ai/evidence_temporal.py:175-187 | adding n months moves the month index by exactly n and fails only outside the years 1 to 9999; the day is kept or clamped to the month's end |
| Calendar.AddMonthsAdditive | app/modules/ai/evidence_temporal.py:175-187 | adding a then b months is adding a + b if and only if the first step clamps no day the sum would have kept, so always for days up to 28 and for month-ends |
| Calendar.AddMonthsUndone | app/modules/ai/evidence_temporal.py:175-187 | going back n months undoes going forward if and only if the day was not clamped |
| Calendar.MonthEndsAreLostOnTheWay | app/modules/ai/evidence_temporal.py:175-187 | January 31 plus a month plus a month is March 28, not March 31 |
| Calendar.YearsAreTwelveMonths | app/modules/ai/evidence_temporal.py:190-194 | adding years is adding twelve months each, except from a leap day to a common year, where only the years decline |
| Calendar.OrdinalIsMonotone | app/modules/ai/evidence_temporal.py:232-232 | chronological order of instants is the calendar order of dates |
| Calendar.CodeIsCalendarOrder | app/modules/ai/evidence_temporal.py:263-263 | sorting dates by their codes is sorting them chronologically |
| TemporalEvidence.FillSlots | app/modules/ai/evidence_temporal.py:346-350 | the slot loop collects exactly the slots up to the last value and raises exactly when the slot after it is no datetime |
| TemporalEvidence.TryFixedInterval | app/modules/ai/evidence_temporal.py:317-403 | the fixed-interval strategy, branch by branch, as its specification |
| TemporalRecovery.FixedWithout | app/modules/ai/evidence_temporal.py:321-392 | of a fixed-interval progression of 6 to 10000 instants, at most one of them twice, the deleted one comes back, exactly when the next instant is still a datetime |
| TemporalRecovery.FixedNext | app/modules/ai/evidence_temporal.py:374-403 | of a full progression of 4 to 10000 instants, one of them twice, the next instant comes back, exactly when it is still a datetime |
| TemporalRecovery.FixedCandidateIsPlaced | app/modules/ai/evidence_temporal.py:346-392 | a gap lies strictly inside the range on the grid and is the only missing slot; a next value follows the last one with every slot present and one duplicate |
| TemporalRecovery.FixedRecovery | app/modules/ai/evidence_temporal.py:213-256 | deletion recovery through the entry point, for any order of the observations |
| TemporalRecovery.FixedNextValue | app/modules/ai/evidence_temporal.py:213-256 | the next value through the entry point, for any order of the observations |
| TemporalRecovery.MonthRecovery | app/modules/ai/evidence_temporal.py:406-490 | the month strategy on 5 to 2001 dates with a step of at most 2000 months: a deleted month-end comes back, a deleted same-day date comes back if and only if the rest are not all month-ends or it is one |
| TemporalRecovery.MonthEndsWin | app/modules/ai/evidence_temporal.py:413-459 | February 28 deleted from 2024 among such dates comes back as February 29 |
| TemporalRecovery.SameDayRecovery | app/modules/ai/evidence_temporal.py:413-474 | for days up to 27 the deleted date always comes back |
| TemporalRecovery.PlacedIndex | app/modules/ai/evidence_temporal.py:424-466 | a calendar gap is an absent slot of the overshooting range and the only one missing; a next index is one step past the last with every slot present and one duplicate |
| TemporalRecovery.PlaceNext | app/modules/ai/evidence_temporal.py:424-466 | a full run of months or years with one date twice continues with its next index |
| TemporalRecovery.MonthCandidateIsPlaced | app/modules/ai/evidence_temporal.py:413-474 | a month candidate lies on such an index and is a month-end when all dates are, otherwise has their day or is clamped to its month's end |
| TemporalRecovery.YearCandidateIsPlaced | app/modules/ai/evidence_temporal.py:500-550 | a year candidate lies on such a year and has the dates' month and day |
| TemporalRecovery.YearRecovery | app/modules/ai/evidence_temporal.py:493-565 | the year strategy gives the deleted anniversary back when that date exists and raises when it does not |
| TemporalColumn.InstantsCount | app/modules/ai/evidence_temporal.py:124-140 | a date counts as its midnight, a timestamp as its date and time whatever its offset |
| TemporalColumn.BeforeTheStrategies | app/modules/ai/evidence_temporal.py:143-225 | mixed offsets are AMBIGUOUS, fewer than five readable values INSUFFICIENT_GROUP, one single instant NO_RELATIONSHIP |
| TemporalColumn.FixedIsDecided | app/modules/ai/evidence_temporal.py:317-403 | the fixed-interval strategy from the set of instants: its most frequent jump, missing slots and repeats decide what it concludes, at the documented thresholds |
| TemporalColumn.PlaceIsDecided | app/modules/ai/evidence_temporal.py:424-466 | where a run of months or years, at most 2000 steps long or wide, leaves exactly one index to fill or repeats one date |
| TemporalColumn.ConventionsDecide | app/modules/ai/evidence_temporal.py:409-420 | neither one day of the month nor month-ends: the month strategy declines; two anniversaries: the year strategy does |
| TemporalColumn.CalendarsAnswer | app/modules/ai/evidence_temporal.py:248-303 | through the entry point, when the fixed interval declined: with differing times of day its status stands; otherwise the year strategy answers or raises, if it declines the month strategy answers, at that time of day, and if both decline the status stands |
| TemporalColumn.MonthColumnRecovery | app/modules/ai/evidence_temporal.py:248-303 | month recovery through the entry point in any order, when the fixed interval declines and the step is no whole number of years: the deleted date comes back as a gap of kind months if and only if it is a month-end where all others are |
| TemporalColumn.YearColumnRecovery | app/modules/ai/evidence_temporal.py:248-303 | year recovery through the entry point in any order, when the fixed interval declines: the deleted anniversary comes back as a gap of kind years, or the entry point raises if it is no date |
| TemporalColumn.MonthEndComesBack | app/modules/ai/evidence_temporal.py:248-303 | the month-ends of January, February, March, May and June 2023 give April 30 back |
| TemporalColumn.FixedIsReported | app/modules/ai/evidence_temporal.py:374-403 | the reported counts, consistency and confidence of a fixed interval are those of the set of instants |
| TemporalColumn.CalendarIsReported | app/modules/ai/evidence_temporal.py:476-490 | a calendar candidate is reported with all its dates in support and a sixth of confidence for each, up to one |
| TemporalErrors.YearsFailIff | app/modules/ai/evidence_temporal.py:500-546 | the year strategy raises if and only if the one missing year is beyond 9999, or a common year while the dates are leap days |
| TemporalErrors.FixedFailsIff | app/modules/ai/evidence_temporal.py:327-379 | the fixed-interval strategy raises if and only if its slots are built and some slot has no next one, or all slots are observed with one duplicate and the last value has no next one; either way the last value plus the step leaves the calendar |
| TemporalErrors.DiscoverRaisesIff | app/modules/ai/evidence_temporal.py:213-286 | for every column: OverflowError exactly when the fixed interval fails so, ValueError exactly when it declines, the times of day agree and the year strategy fails so |
| TemporalErrors.OrdinaryColumnsNeverRaise | app/modules/ai/evidence_temporal.py:197-225 | dates up to the year 4999, not all of them leap days, never raise |
| TemporalErrors.LeapDaysRaise | app/modules/ai/evidence_temporal.py:533-534 | five leap days around 1900 make the entry point raise |
| TemporalErrors.LastDaysRaise | app/modules/ai/evidence_temporal.py:346-350 | the last five days of 9999 make the slot loop raise |
| TemporalErrors.NextDayRaises | app/modules/ai/evidence_temporal.py:378-379 | every second day up to December 29, 9999, and twice December 30, make the next value raise |
| TemporalRecovery.OrderIndependence | app/modules/ai/evidence_temporal.py:12-21 | permuting the observations changes nothing in the whole result, raised errors included |
| TemporalRecovery.CandidateIsFresh | app/modules/ai/evidence_temporal.py:386-390 | whichever strategy answers, the candidate is a datetime that was not observed |
| CandidateAggregation.BeforeIsTotal | app/modules/ai/candidates.py:157-157 | the sort key orders candidates totally, up to equal confidence, strategy and value |
| CandidateAggregation.ValuesEqualIsAnEquivalence | app/modules/ai/candidates.py:200-209 | agreement of values is reflexive, symmetric and transitive, NaN and infinities included |
| CandidateAggregation.RankedIsASort | app/modules/ai/candidates.py:157-157 | ranking keeps every candidate and orders them by the key |
| CandidateAggregation.AggregationIsExact | app/modules/ai/candidates.py:159-197 | ambiguous if and only if some candidate within the margin of a top one proposes another value; otherwise a top candidate is recommended |
| CandidateAggregation.RecommendedIsUndisputed | app/modules/ai/candidates.py:169-197 | a recommended candidate has the greatest confidence, and all candidates within the margin agree pairwise |
| CandidateAggregation.OrderIndependence | app/modules/ai/candidates.py:157-174 | the order of the candidates changes neither the flag nor the recommended confidence, strategy and value |
| CandidateAggregation.ValuesEqualIff | app/modules/ai/candidates.py:200-209 | two values agree if and only if they are the same text or both are read as one number that is not NaN |
| CandidateAggregation.NumeralsAgree | app/modules/ai/candidates.py:200-209 | 735 and 735.0 agree |
| CandidateAggregation.LeaderWithoutRivalIsRecommended | app/modules/ai/candidates.py:130-197 | ambiguous if and only if a candidate at most three hundredths behind the leader has another value; otherwise the leader is recommended, by confidence, then strategy, then value in text order; without candidates nothing is |
| CandidateAggregation.StrategiesAreListed | app/modules/ai/candidates.py:154-156 | every strategy is listed once, in the order of first report |
| CorrectionSafety.ParsedIsConsistent | app/modules/ai/suggestion_service.py:1092-1130 | a parsed reply has a value exactly when its category is high, the value is the reply's own non-blank text, and a confidence lies in [0, 1] and needs the high category |
| CorrectionSafety.ParserRaisesIff | app/modules/ai/suggestion_service.py:1092-1093 | the parser raises if and only if the reply is an object whose category is an array or an object |
| CorrectionSafety.ListCategoryRaises | app/modules/ai/suggestion_service.py:1092-1093 | a one-element list as category raises |
| CorrectionSafety.ReadsBackIsMet | app/modules/ai/suggestion_service.py:1174-1187 | the one assumption of the next two rows and of `ExactLawIsStored`, that `float` reads back what `str` and `repr` write of integers and rounded numbers, can be met |
| CorrectionSafety.FormattedMatches | app/modules/ai/suggestion_service.py:1184-1187 | the backend's own rendering, rounded to six places, reads back within half a millionth and passes the backend's own closeness check |
| CorrectionSafety.EvidenceIsIdempotent | app/modules/ai/suggestion_service.py:1190-1251 | applying the first pass twice is applying it once |
| CorrectionSafety.AggregationIsIdempotent | app/modules/ai/suggestion_service.py:1284-1372 | applying the second pass twice is applying it once |
| CorrectionSafety.EvidenceKeepsHighIff | app/modules/ai/suggestion_service.py:1214-1251 | high confidence survives the first pass if and only if there is no evidence, or a candidate that the value matches |
| CorrectionSafety.AggregationKeepsHighIff | app/modules/ai/suggestion_service.py:1323-1372 | high confidence survives the second pass if and only if there is no aggregation, or an undisputed candidate that the value matches |
| CorrectionSafety.NoValueIsInvented | app/modules/ai/suggestion_service.py:916-924 | after both passes a value is the recommended candidate's text under aggregation, else the engine's formatted number under evidence, else the model's own text |
| CorrectionSafety.ConfidenceIsNeverRaised | app/modules/ai/suggestion_service.py:1244-1372 | high confidence needs the model's own claim, and a stored confidence exceeds neither the model's, the engine's nor the candidate's |
| CorrectionSafety.StoredValueIsUndisputed | app/modules/ai/suggestion_service.py:1326-1372 | behind the real aggregator a stored value has the greatest confidence and every candidate within the margin agrees with it |
| CorrectionSafety.ExactLawIsStored | app/modules/ai/suggestion_service.py:1229-1251 | end to end, where an exact numeric law holds, a stored number reads back to that law's value within the engine's closeness and the rounding |
| SafetyTables.ReplyIsRead | app/modules/ai/suggestion_service.py:1066-1130 | what is read off every reply, field by field: which replies fall back and with which reason, when a value, a confidence and a reason are kept, and that a high category without a value is for review |
| SafetyTables.EvidenceDecides | app/modules/ai/suggestion_service.py:1190-1251 | the first pass in every case: what is unchanged, what loses its value and why, and that a number within a thousandth is replaced by the engine's with the smaller confidence |
| SafetyTables.AggregationDecides | app/modules/ai/suggestion_service.py:1284-1372 | the second pass in every case: an undisputed candidate's value is stored in every category, as high only if the model's own value agrees; otherwise no value is |
| SafetyTables.RoundedIs | app/modules/ai/suggestion_service.py:1184-1187 | rounding gives the nearest whole number of millionths, the even one of two |
| SafetyTables.NumbersAreWritten | app/modules/ai/suggestion_service.py:1184-1187 | whole numbers are written in decimal without a point |
| BusinessKeyDiscovery.EvaluateCombo | app/modules/datasets/business_key_discovery.py:94-131 | the row loop's null count, dictionary and duplicate groups are those of the specification |
| BusinessKeyDiscovery.AcceptedIffKey | app/modules/datasets/business_key_discovery.py:94-131 | a column set is accepted if and only if no row has a null in it and no two rows agree on all of it |
| BusinessKeyDiscovery.CombinationsAreSubsets | app/modules/datasets/business_key_discovery.py:174-181 | every combination of a width is a set of that many of the names |
| BusinessKeyDiscovery.CombinationsCoverSubsets | app/modules/datasets/business_key_discovery.py:174-181 | every set of that many of the names is a combination |
| BusinessKeyDiscovery.DiscoverBusinessKeyCandidates | app/modules/datasets/business_key_discovery.py:141-207 | the width loop stops at the first width that has a key and returns the specified result |
| BusinessKeyDiscovery.DiscoveryIsExact | app/modules/datasets/business_key_discovery.py:141-207 | the candidates are all keys of the narrowest width that has one, nothing narrower is a key, NO_CANDIDATE means no set of up to three eligible columns is a key, and two or more mean AMBIGUOUS |
| BusinessKeyDiscovery.RecommendedIsTheOnlyMinimalKey | app/modules/datasets/business_key_discovery.py:182-207 | a recommended set is a key, every narrower eligible set fails, and it is the only key of its width |
| BusinessKeyDiscovery.OnlyFullScansVerify | app/modules/datasets/business_key_discovery.py:118-131 | VERIFIED_UNIQUE occurs only on a full scan |
| KeyColumns.EligibleNamesAre | app/modules/datasets/business_key_discovery.py:153-153 | only columns of type STRING, INTEGER, DATE or DATETIME, in any case, may be part of a key |
| KeyColumns.OtherTypesAreRejected | app/modules/datasets/business_key_discovery.py:154-158 | the columns of any other type, and no others, are reported as rejected |
| KeyColumns.CandidatesAreTheNarrowestKeys | app/modules/datasets/business_key_discovery.py:141-207 | with two rows or more the candidates are exactly the narrowest keys of one to three such columns, and there is no candidate exactly if the table has no such key |
| KeyColumns.OneNarrowestKeyIsRecommended | app/modules/datasets/business_key_discovery.py:182-207 | a single narrowest key is recommended, as VERIFIED_UNIQUE on a full scan and a sample candidate otherwise; without a recommendation there are several candidates |
| KeyColumns.KeysKeepTableOrder | app/modules/datasets/business_key_discovery.py:134-188 | the columns of every candidate stand in the table's own order, and the candidates in display order |
| KeyColumns.EvidenceCounts | app/modules/datasets/business_key_discovery.py:94-131 | the counts of rows with a null and of different tuples, and which of them reject a set |
| KeyColumns.ColumnsLessIffFirstDifference | app/modules/datasets/business_key_discovery.py:134-138 | candidates are ordered by the first column in which they differ, in text order |
| KeyAdoption.JoinIsInjective | app/modules/validation/record_ref.py:14-29 | parts without the unit separator can be read back from the joined reference |
| KeyAdoption.KeyGivesDistinctRefs | app/modules/validation/record_ref.py:14-29 | under a key, rendered injectively and without the separator in composite parts, two rows never share a reference |
| KeyAdoption.SeparatorBreaksInjectivity | app/modules/validation/record_ref.py:14-29 | the separator assumption is needed: two different composite keys can share a reference |
| KeyColumns.ReferencesAre | app/modules/validation/record_ref.py:10-29 | a single key's reference is its cell's text or the null marker; a composite one's are the cells in key order, each in its place, with a unit separator between them; the fallback's is the row number after its mark |
| KeyColumns.RowNumbersDiffer | app/modules/validation/record_ref.py:28-29 | without a key, different row numbers give different references |
| KeyAdoption.Dataset.ApplyKeyColumns | app/modules/datasets/key_resolution.py:19-46 | the declared key becomes exactly the given columns in order, active columns are flagged exactly when they belong to it, inactive ones keep their flag |
| KeyAdoption.Dataset.Confirm | app/modules/datasets/business_key_service.py:96-151 | adoption succeeds exactly on an active dataset without a reliable key when the fresh search verifies exactly the requested columns; it stores those in order and flags exactly them among the active columns; a refusal changes nothing |
| KeyAdoption.RecommendedIsActive | app/modules/datasets/business_key_service.py:127-132 | the unknown-column refusal is never reached |
| KeyColumns.FoundIsTheLast | app/modules/datasets/business_key_service.py:127-132 | a requested name means the last active column of that name |
| KeyColumns.ActiveColumnsAreSeen | app/modules/datasets/business_key_service.py:161-180 | discovery sees the names and types of the active columns only |
| KeyAdoption.AdoptedKeyIdentifiesRows | app/modules/datasets/business_key_service.py:113-135 | after an adoption, distinct rows of the verified scan have distinct record references |
| ReviewProtocol.RefusedStepsChangeNothing | app/modules/review/decision_service.py:64-80 | a step that reports an error leaves the tables as they were |
| ReviewProtocol.BulkErrorNone | app/modules/review/decision_service.py:261-303 | the validation pass finds no error if and only if every listed issue exists and none is terminally decided |
| ReviewInvariants.StepKeeps | app/modules/review/decision_service.py:64-303 | every step keeps: an issue is pending iff it has no correction, at most one suggestion of it is selected, accepted and edited corrections have their non-blank values and sources, rejected and skipped ones none, each correction has exactly one edge |
| ReviewInvariants.ReachableInv | app/modules/review/decision_service.py:64-303 | every run of steps keeps these invariants |
| ReviewInvariants.ReachableFromEmpty | app/modules/review/decision_service.py:64-303 | these invariants hold after every run of steps from empty tables |
| ReviewInvariants.TerminalIsAbsorbing | app/modules/review/decision_service.py:64-68 | a rejected or skipped correction is never changed again, whatever steps follow |
| ReviewInvariants.SelectIsExclusive | app/modules/review/decision_service.py:127-134 | selecting a suggestion deselects only its issue's others |
| ReviewInvariants.BulkIsAllOrNothing | app/modules/review/decision_service.py:261-303 | a bulk action either changes nothing or decides exactly the listed issues, and which of the two is decided by the run and the issues alone |
| ReviewLedger.SubmitOpensLedger | app/modules/approval/service.py:77-131 | a successful submit opens a pending ledger over the resolved scope |
| ReviewLedger.LedgerBalances | app/modules/approval/service.py:194-200 | decided plus remaining equals the count fixed at submission |
| ReviewLedger.DecideKeepsLedger | app/modules/approval/service.py:133-192 | a successful decision keeps the ledger, strictly shrinks what remains, and sets the status the ledger dictates |
| ReviewLedger.ClosedLedgerRefuses | app/modules/approval/service.py:150-162 | a fully decided request accepts no more decisions while its run is frozen |
| ReviewLedger.StepKeepsLedger | app/modules/review/decision_service.py:70-80 | every other step, of any run and request, leaves the ledger alone as long as a bulk action stays in its run and the run is not archived |
| ReviewLedger.LedgerOverRuns | app/modules/approval/service.py:77-200 | over every admissible run of steps the run stays ready for approval, the scope constant, the decisions disjoint and the status exact |
| ReviewLedger.LedgerFromEmpty | app/modules/approval/service.py:77-200 | from empty tables: any steps, a successful submit and any further admissible steps leave the new request's ledger in place, with the scope frozen at the submit |
| ReviewLedger.ForeignBulkShrinksScope | app/modules/review/decision_service.py:261-303 | a bulk action naming another run can take an issue out of a frozen scope |
| ReviewLedger.ForeignBulkIsReachable | app/modules/review/decision_service.py:261-303 | six accepted steps from empty tables empty the frozen scope of an open request |
| ReviewLedger.BulkKeepsScopeIff | app/modules/review/decision_service.py:261-303 | a successful bulk action keeps a frozen scope if and only if it lists none of its issues |
| ReviewLedger.DecideKeepsOneOpenIff | app/modules/approval/service.py:133-192 | a decision keeps at most one open request per run if and only if the request was open, or nothing remains, or no other is open |
| ReviewLedger.OtherStepsKeepOneOpen | app/modules/approval/service.py:77-131 | every step but a decision keeps at most one open request per run |
| ReviewLedger.OneOpenThroughoutIff | app/modules/approval/service.py:77-192 | over a history of any steps, at most one request per run is open after every prefix if and only if every accepted decision, when it is made, meets the condition of `DecideKeepsOneOpenIff` |
| ReviewLedger.OneOpenFromEmptyIff | app/modules/approval/service.py:77-192 | the same for every history from empty tables |
| ReviewLedger.OneOpenIsReadable | app/modules/approval/service.py:87-95 | while no run has two open requests, the reads that expect at most one row never raise |
| ReviewLedger.ClosedRequestCanReopen | app/modules/approval/service.py:133-192 | eleven accepted steps end with two open requests on one run |
| ReviewLedger.TwoOpenRequestsBlockTheRun | app/modules/review/service.py:110-126 | with two open requests no submit and no archive of the run succeeds |
| ReviewEffects.DecisionAcceptedIff | app/modules/review/decision_service.py:49-80 | accept, edit, reject, skip and direct correction are accepted if and only if the issue is there, its run is not ready for approval, its correction is neither rejected nor skipped, and a given value has a character other than a space |
| ReviewEffects.DecisionStores | app/modules/review/decision_service.py:97-259 | the whole new state: the issue's correction has exactly the suggestion, value, origin and status of the action, its id is kept or new with one lineage edge, its status follows, the flags of its own suggestions follow, and no other row changes |
| ReviewEffects.DecisionRefusals | app/modules/review/decision_service.py:49-80 | for which reason each of them is refused, in order |
| ReviewEffects.RunActionAcceptedIff | app/modules/approval/service.py:77-162 | create, generate, bulk, submit, decide, archive and restore are accepted if and only if the tables allow it, as spelled out row by row |
| ReviewEffects.CreateStores | app/modules/review/service.py:48-108 | a new draft run with one pending issue for every failure, in order, and nothing else |
| ReviewEffects.GenerateStores | app/modules/review/suggestion_service.py:67-149 | one unselected suggestion for every draft about a pending issue of the run that had none, in order, and the run goes into review |
| ReviewEffects.BulkStores | app/modules/review/decision_service.py:261-303 | every listed issue gets an empty skipped or rejected correction, keeping its id, and no other issue changes |
| ReviewEffects.SubmitStores | app/modules/approval/service.py:97-110 | the request is about as many issues as have a value and as many records as those have different references |
| ReviewEffects.SubmitRefusals | app/modules/approval/service.py:78-100 | for which reason a submit is refused, in order |
| ReviewEffects.DecideStores | app/modules/approval/service.py:133-192 | one decision is added, with the request, the verdict and the issues that were given, and the request gets the status its decisions dictate |
| ReviewEffects.RequestRefusals | app/modules/approval/service.py:141-162 | a decision is refused for a missing request or for issues that do not all remain |
| ReviewEffects.ArchiveRefusals | app/modules/review/service.py:110-154 | for which reason an archive or a restore is refused, in order |
| ReviewEffects.DecisionsAreGiven | app/modules/approval/service.py:133-192 | over every history the decisions stored are the accepted ones, as they were given and in that order |
| ReviewEffects.StatusIsTheVerdict | app/modules/approval/status_logic.py:6-19 | over every history from empty tables, while the ledger stands: pending before the first accepted decision, partially approved until they name every issue, then approved if and only if all of them approve |
| ReviewEffects.RefusalIsFinal | app/modules/approval/status_logic.py:6-19 | after an accepted refusal the request is never approved while its ledger stands |
| ReviewService.ReviewDatabase.CreateFromValidationRun | app/modules/review/service.py:48-108 | the create step, one issue per failure, invariant kept |
| ReviewService.ReviewDatabase.GenerateSuggestions | app/modules/review/suggestion_service.py:67-149 | the generate step: the run is under review and each drafted suggestion of a pending issue without one is stored |
| ReviewService.ReviewDatabase.AcceptSuggestion | app/modules/review/decision_service.py:136-163 | the accept step with its guards in order, invariant kept |
| ReviewService.ReviewDatabase.EditSuggestion | app/modules/review/decision_service.py:165-192 | the edit step with its guards in order, invariant kept |
| ReviewService.ReviewDatabase.RejectSuggestion | app/modules/review/decision_service.py:194-214 | the reject step with its guards in order, invariant kept |
| ReviewService.ReviewDatabase.SkipIssue | app/modules/review/decision_service.py:216-235 | the skip step with its guards in order, invariant kept |
| ReviewService.ReviewDatabase.CorrectIssueDirectly | app/modules/review/decision_service.py:237-259 | the direct correction with its guards in order, invariant kept |
| ReviewService.ReviewDatabase.SelectOnly | app/modules/review/decision_service.py:127-134 | the loop over the issue's other suggestions leaves exactly the chosen one selected among them |
| ReviewService.ReviewDatabase.BulkAction | app/modules/review/decision_service.py:261-303 | the bulk step: all issues validated before the first is changed, invariant kept |
| ReviewService.ReviewDatabase.SubmitRun | app/modules/approval/service.py:77-131 | the submit step with its refusals in order, counts of issues and of distinct records, invariant kept |
| ReviewService.ReviewDatabase.DecideRequest | app/modules/approval/service.py:133-192 | the decide step: scope and remaining re-read, decision stored, status recomputed, invariant kept |
| ReviewService.ReviewDatabase.ArchiveRun | app/modules/review/service.py:110-138 | the archive step with its guard on open requests, invariant kept |
| ReviewService.ReviewDatabase.RestoreRun | app/modules/review/service.py:140-154 | the restore step, invariant kept |
| ReviewService.ReviewDatabase.GetDetail | app/modules/approval/service.py:194-200 | the decided and remaining counts of a request |
| SourceAdapters.Compile | app/source_adapters/sqlserver_provider.py:367-379 | the nested loops produce one group per key and the flat parameter list in placeholder order |
| SourceAdapters.FetchRowsByKeys | app/source_adapters/sqlserver_provider.py:337-391 | no keys give no rows, an empty key and differing key columns are refused, and otherwise exactly the rows that match some key null-safely are returned |
| SourceAdapters.GroupsMeanMatch | app/source_adapters/sqlserver_provider.py:356-391 | under three-valued logic, with each placeholder bound from the flat list, the compiled query is true of a row if and only if some key matches it, NULL matching NULL |
| SourceAdapters.RowInMeansMatch | app/source_adapters/postgresql_provider.py:414-432 | the row-value IN form is true of a row if and only if some null-free key matches it |
| SourceAdapters.ProvidersAgreeIff | app/source_adapters/postgresql_provider.py:414-432 | the two forms agree on a row unless only keys with a NULL match it, so always for null-free keys |
| SourceAdapters.LogicIsKleenes | app/source_adapters/sqlserver_provider.py:356-391 | AND is the lesser and OR the greater truth, and a comparison with NULL is unknown |
| SourceAdapters.IterRows | app/source_adapters/sqlserver_provider.py:403-433 | the batches concatenate to the table, none is empty, all but the last are full, and n / b + 1 queries are issued |
| RefreshTokens.RefreshTokenStore.Issue | app/modules/auth/refresh_tokens.py:22-32 | a fresh token and its listing are stored, every live token staying listed under a set that outlives it |
| RefreshTokens.RefreshTokenStore.Consume | app/modules/auth/refresh_tokens.py:34-48 | a live token's owner is returned and the token is gone; an unknown one gives nothing and changes nothing |
| RefreshTokens.RefreshTokenStore.Revoke | app/modules/auth/refresh_tokens.py:50-52 | the token is gone whoever owns it, only the listing under the given user loses it, and every live token stays listed |
| RefreshTokens.RefreshTokenStore.RevokeAllForUser | app/modules/auth/refresh_tokens.py:54-60 | afterwards the live tokens are exactly those of other users, unchanged |
| RefreshTokens.RefreshTokenStore.Tick | app/modules/auth/refresh_tokens.py:26-31 | expiry never drops a user's set before one of that user's live tokens |
| RefreshTokens.StepKeeps | app/modules/auth/refresh_tokens.py:22-60 | every single command keeps: each issued token is live or has one fate, it is consumed exactly when one call has won it, and what calls know of owners is true |
| RefreshTokens.ConsumedAtMostOnce | app/modules/auth/refresh_tokens.py:34-48 | under any interleaving of commands no two calls consume one token, a consumed token is gone, and the returned owner is the one it was issued to |
| RefreshTokens.SweepLeavesExactly | app/modules/auth/refresh_tokens.py:54-60 | from any state and for every interleaving: a token of the user is live afterwards if and only if it has met no fate and was either issued before and not listed when the sweep started, or first issued to that user inside the sweep's window; the user has no listing left |
| RefreshTokens.SweepOfListedLeavesExactly | app/modules/auth/refresh_tokens.py:54-60 | started while every live token is listed, it leaves exactly the unfated tokens first issued to the user inside its window |
| RefreshTokens.UndisturbedSweepLeavesUnlisted | app/modules/auth/refresh_tokens.py:54-60 | with nothing issued to the user in its window, it leaves exactly the user's live tokens that were not listed when it started and have met no fate, whatever else is interleaved |
| RefreshTokens.UndisturbedSweepLeavesNone | app/modules/auth/refresh_tokens.py:54-60 | with nothing issued to the user in its window and every live token listed when it started, it leaves none of the user's tokens |
| RefreshTokens.NoSweepReaches | app/modules/auth/refresh_tokens.py:54-60 | a live token that no set lists and no pending sweep remembers is never revoked by any further sweep: unless revoked by its own id it stays live, is consumed or expires |
| RefreshTokens.SweepRacesWithIssue | app/modules/auth/refresh_tokens.py:54-60 | interleaved with an issue, a sweep leaves a live token unlisted and out of reach, and a later full sweep with nothing interleaved leaves it live |
| Catalogue.UpsertDatasetStores | app/modules/discovery/service.py:47-144 | after an upsert the dataset's active columns and column_count are exactly the reported ones, identities are kept, and nothing else changes |
| Catalogue.PutColumnsReports | app/modules/discovery/service.py:83-112 | every reported column, new or reappearing, is active with the ordinal and the type reported last |
| CatalogueMirror.EventsMembers | app/modules/discovery/tasks.py:86-152 | a run sees exactly the listed schemas and reads exactly the datasets that answered |
| CatalogueMirror.FoldKeeps | app/modules/discovery/tasks.py:86-152 | after any prefix of a run the last read of every dataset is what is stored, and rows of other datasets are as they were |
| CatalogueMirror.RunMirrorsTheSource | app/modules/discovery/tasks.py:86-157 | after a completed run the active schemas are those listed, the active datasets those read, each read dataset's columns those reported; identities are kept, and no schema, dataset or column of another connection changes |
| CatalogueMirror.RerunChangesNothing | app/modules/discovery/service.py:146-172 | a second run on an unchanged source changes no identity and no active flag |
| CatalogueService.DiscoveryService.UpsertSchemaRow | app/modules/discovery/service.py:29-45 | the schema is found or created and made active, and its id returned |
| CatalogueService.DiscoveryService.StoreColumns | app/modules/discovery/service.py:83-112 | the column loop stores each reported column under its name and returns the names seen |
| CatalogueService.DiscoveryService.DeactivateColumns | app/modules/discovery/service.py:119-125 | exactly the dataset's active columns that were not seen are deactivated |
| CatalogueService.DiscoveryService.UpsertDatasetRow | app/modules/discovery/service.py:47-144 | row, columns, deactivation and recount together are the specified upsert |
| CatalogueService.DiscoveryService.DeactivateMissing | app/modules/discovery/service.py:146-172 | exactly the connection's active schemas and datasets that were not found are deactivated |
| CatalogueService.DiscoveryService.RunDiscovery | app/modules/discovery/tasks.py:86-157 | without cancellation the nested loops and the final sweep leave the tables mirroring the source; a cancelled run has done a prefix of the work and no sweep, identities kept |
| Outliers.PercentileIsMonotone | app/modules/profiling/engine.py:34-42 | percentiles of sorted values rise with the percentage |
| Outliers.QuartilesAreOrdered | app/modules/profiling/engine.py:34-50 | the quartiles are ordered and lie within the data |
| Outliers.PermutationInvariance | app/modules/profiling/engine.py:45-54 | the order of the values does not change the count |
| Outliers.ScaleInvariance | app/modules/profiling/engine.py:45-54 | no map a*x + b with a other than 0 changes the count, a reversed axis included |
| Outliers.CountIsBounded | app/modules/profiling/engine.py:45-54 | the count is at most twice the quarter of the positions, rounded up |
| Outliers.QuartilesInterpolate | app/modules/profiling/engine.py:34-50 | the quartiles lie a quarter and three quarters of the way along the sorted positions, linearly between two values |
| Outliers.OutliersAreCounted | app/modules/profiling/engine.py:45-54 | counted are the values more than one and a half quartile distances outside the quartiles, and none among fewer than four values |

## Left out

- Texts for people: `reason` and `description` strings, template labels, interval labels; the status and the numbers behind them are modelled, and in the safety passes which reason is given.
- IEEE rounding, NaN in row comparisons and float overflow: floats are reals, so `isfinite` of a fitted value is always true and sums do not depend on their order.
- Python's equality across types (`True == 1`, `1 == 1.0`) in row and key comparisons.
- Unicode: digits, case and blanks are those of ASCII; CPython's limit on the digits of an integer literal is absent.
- ISO text of dates and its parsing, locale-ambiguous dates, time zones beyond one offset per value: observations are dates, times and offsets already parsed.
- Keyword overrides of the sequence, template, temporal and aggregation thresholds: the callers use the defaults. The group size and fit quality of the relationship engine are parameters because settings supply them.
- The list and dictionary cells of a row, which the relationship engine would compare by their text.
- Stripping a Markdown fence and decoding JSON text: the model starts from the decoded reply. A reply nested too deeply to decode is absent.
- ReviewService.ReviewDatabase.GenerateSuggestions: is one atomic step with the generators' drafts as its input; which suggestions they draft, the filter on targets by rule type and the commits per batch are absent.
- Audit records, timestamps, comments, actors, lineage edges other than ISSUE to CORRECTION, issue severity and original values.
- Concurrent transactions on the review tables: each service method is one atomic step, as the row locks and commits make it.
- SourceAdapters.FetchRowsByKeys: returns the rows in table order; the ORDER BY of the query, collations, data types and parameter limits are the database's. Columns a table does not have, and the PostgreSQL lookup with an empty key or keys of different columns, are absent.
- Catalogue.UpsertDatasetStores: leaves out the key columns that a discovered primary key sets, by the same `apply_key_columns` that is modelled with key adoption.
- CatalogueService.DiscoveryService.UpsertDatasetRow: leaves out those key columns too.
- The success and failure counts of a discovery run and its summary message.
- Timestamps, native types, lengths and precisions of catalogue columns: the ordinal and one type stand for a column's attributes.
- The other profiling statistics, the job lifecycle, validation, staging, rule detection, reports and previews: single-branch facts or plumbing.
- RelationshipLaws.ExactLawDecides: says nothing about a law with fewer usable rows than the minimum, with a value of zero for a constant or a ratio, or without the failing row's numbers, because the engine cannot use it.
- ReviewLedger.StepKeepsLedger: assumes that a bulk action's issues belong to the run it names, because the code does not check it; without that the statement is false.
- TemporalColumn.MonthColumnRecovery: assumes that the fixed interval declines, as the entry point tries it first, and a step of no whole number of years, as years are tried before months; `CalendarsAnswer` covers the other steps.
