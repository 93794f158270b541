# WOPAV judging core in Dafny

WOPAV scrapes the judges' markings of World Rock'n'Roll Confederation (WRRC) competitions and
turns them into results. This project models the parts of WOPAV that compute those results, and
proves properties about them:

- **Majority placement** (`Main_Dashboard.py`):
  - Slow and Fast rounds are combined by start number (`Rounds`).
  - Each judge ranks the couples by their total over the five categories BBW, BBM, LF, DF and MI,
    using "1224" competition ranking (`Rankings`).
  - Couples are placed by the skating-style majority rule: at the lowest threshold where more than
    half the judges place a couple at or above that threshold (`Placement`).
  - Ties are broken head-to-head, or by a pairwise scorecard for three or more couples (`Ties`).
  - When no threshold gives a majority, the remaining couples are ordered by average rank.
- **Score aggregation** (`scoring_systems.py`, module `Aggregation`):
  - scaled median (a weighted mean whose weights are `1 / (1 + d²)`, with `d` the distance to the
    median);
  - plain mean;
  - trimmed mean;
  - per-category scores, and the couple's total.
- **Text normalisers** (`wrrc_openmarkings.py`, `scrape_ff.py`, `visualize.py`):
  - European decimal numbers and score parsing (`Numbers`);
  - file-name sanitising, date shortening, score-cell splitting, start-number cleaning and the
    Slow/Fast output names (`Filenames`);
  - judge and couple name reordering, venue extraction and per-category display names (`Names`).

Supporting modules:

- `Optional`: the `Option` type.
- `Text`: Python's `strip`, `split`, `join`, `replace` and `in` on strings, written out.
- `Lex`: Python's ordering of `str`.
- `Sorting`: a key-ordered insertion sort that, like Python's `sorted`, keeps tied items in their
  input order. Every sort key in the source except the judges' letter ends in a start number, so
  those orders are unique. Judges with the same letter, or none, tie.
- `Couples`: a couple's row of judge scores. A category that is missing from the map stands for a
  cell that is not a list.

Modelling conventions:

- Scores are `real`.
- A couple missing from a judge's ranking ranks below every ranked couple. The source uses
  `float('inf')` for this.
- The explanatory strings the source builds are kept as data. `TieNote` keeps the head-to-head
  counts, `Summary` keeps the majority threshold and count or the fallback average, and `Versus`
  records one pairwise comparison.

## Model

| member | source | states |
|---|---|---|
| Numbers.ParseFloat | Main_Dashboard.py:37 | `float()` on text succeeds only when the text is not blank after stripping |
| Numbers.ParseFloatDecimal | Main_Dashboard.py:37 | `"ip.fp"`, with digit strings on both sides and at least one digit, parses to its decimal value |
| Numbers.ParseFloatInteger | Main_Dashboard.py:37 | a non-empty digit string parses to its integer value |
| Numbers.ParseFloatPadded | Main_Dashboard.py:37 | leading and trailing whitespace do not change the result |
| Numbers.ParseFloatTwoDots | Main_Dashboard.py:35-39 | text holding two or more dots is rejected, so the `except` yields None |
| Numbers.ParseEuropeanNumber | Main_Dashboard.py:31-39 | None and `""` give None, and a number comes only from non-blank text; the copy at visualize.py:31-39 is the same |
| Numbers.EuropeanCommaIsDot | Main_Dashboard.py:37 | `x,y` and `x.y` parse to the same value |
| Numbers.EuropeanDecimal | Main_Dashboard.py:31-39 | `"ip,fp"` parses to the decimal value of ip.fp |
| Numbers.EuropeanInteger | Main_Dashboard.py:31-39 | a digit string parses to its integer value |
| Numbers.EuropeanTwoSeparators | Main_Dashboard.py:35-39 | two or more separators (`,` or `.`) give None |
| Numbers.ParseScore | scoring_systems.py:12-25 | a missing value gives None, a number is kept, blank text gives None |
| Numbers.ScoreCommaIsDot | scoring_systems.py:21-23 | two texts that agree once commas become dots parse alike |
| Numbers.ScoreDecimalComma | scoring_systems.py:21-23 | `x,y` parses like `x.y` |
| Numbers.ScoreIgnoresBlanks | scoring_systems.py:21 | removing spaces and no-break spaces does not change the parse |
| Numbers.ScoreDecimal | scoring_systems.py:18-23 | `"ip,fp"` parses to the decimal value of ip.fp |
| Aggregation.MedianBetween | scoring_systems.py:34 | the median lies between the minimum and the maximum |
| Aggregation.Weight | scoring_systems.py:39-40 | every weight lies in (0, 1], and a score equal to the median has weight 1 |
| Aggregation.WeightsPositive | scoring_systems.py:44-46 | the total weight of a non-empty list is positive, so the `total_weight == 0` branch never returns |
| Aggregation.ScaledMedian | scoring_systems.py:28-48 | the result is None exactly when no judge score is present |
| Aggregation.ScaledMedianWithin | scoring_systems.py:28-48 | the scaled median stays within any bounds that hold for all present scores |
| Aggregation.ScaledMedianBetween | scoring_systems.py:28-48 | the scaled median lies between the lowest and the highest present score |
| Aggregation.ScaledMedianConstant | scoring_systems.py:28-48 | when all present scores are equal to c, the result is c |
| Aggregation.ScaledMedianPermutation | scoring_systems.py:28-48 | the order of the judges' scores does not matter |
| Aggregation.ClosenessWeight | scoring_systems.py:39-40 | the loop body computes the weight `1 / (1 + d²)` |
| Aggregation.ScaledMedianFromScores | scoring_systems.py:28-48 | the loop that builds weights and weighted values computes `ScaledMedian` |
| Aggregation.MeanBetween | scoring_systems.py:51-55 | the mean of a non-empty list lies between its minimum and maximum |
| Aggregation.SimpleAverage | scoring_systems.py:51-55 | None exactly when no score is present |
| Aggregation.SimpleAverageWithin | scoring_systems.py:51-55 | the average stays within any bounds of the present scores |
| Aggregation.SimpleAveragePermutation | scoring_systems.py:51-55 | the order of the scores does not matter |
| Aggregation.TrimmedAverage | scoring_systems.py:58-67 | None exactly when no score is present |
| Aggregation.TrimmedSmall | scoring_systems.py:60-62 | with two scores or fewer, the trimmed mean is the plain mean |
| Aggregation.TrimmedPair | scoring_systems.py:60-62 | (example) [4, 8] averages to 6 rather than losing both scores to trimming |
| Aggregation.TrimmedDropsExtremes | scoring_systems.py:59-67 | with three or more scores, exactly one minimum and one maximum are dropped, and the rest is averaged |
| Aggregation.TrimmedWithin | scoring_systems.py:58-67 | the trimmed mean stays within any bounds of the scores |
| Aggregation.TrimmedPermutation | scoring_systems.py:58-67 | the order of the scores does not matter |
| Aggregation.Aggregate | scoring_systems.py:95 | for each of the three policies, None exactly when no score is present |
| Aggregation.AggregateWithin | scoring_systems.py:95 | every policy stays within any bounds of the present scores |
| Aggregation.AggregateBetween | scoring_systems.py:95 | every policy lies between the lowest and highest present score |
| Aggregation.AggregatePermutation | scoring_systems.py:95 | no policy depends on the order of the judges |
| Aggregation.AvailableEmpty | scoring_systems.py:97-98 | no category values are available exactly when every category is None |
| Aggregation.ScoreCouple | scoring_systems.py:70-100 | result keys are exactly the five codes, each the policy's value on the parsed scores; a missing category gives None; the total is None iff all categories are, otherwise the sum of the present values (same shape at 103-117 and 120-134) |
| Lex.LessIrreflexive | Main_Dashboard.py:628 | no start number sorts before itself |
| Lex.LessTransitive | Main_Dashboard.py:628 | string order is transitive |
| Lex.LessTotal | Main_Dashboard.py:628 | any two distinct start numbers are ordered one way or the other |
| Lex.LessAsymmetric | Main_Dashboard.py:628 | string order is asymmetric |
| Lex.TextualNotNumeric | Main_Dashboard.py:628 | (example) start numbers sort as text: "10" comes before "9" |
| Sorting.Sort | Main_Dashboard.py:733 | sorting keeps the multiset of elements |
| Sorting.SortSorted | Main_Dashboard.py:733 | under a strict weak order, the sorted list is ordered |
| Sorting.SortKeepsTies | Main_Dashboard.py:701 | a list whose items all tie on the key, such as judges none of whom has a letter, keeps its order, as Python's stable sort does |
| Sorting.SortedUnique | Main_Dashboard.py:870 | under a total key order, two sorted permutations of a list are equal, so tie-broken sorts are deterministic |
| Names.FormatNameForCategory | Main_Dashboard.py:52-56 | None, `""` and `"Unknown"` give `"Unknown"`, and a name without `&` is only stripped; the copy at visualize.py:41-76 is the same |
| Names.FormatNameStripped | Main_Dashboard.py:55-60 | a name with no `&`, or with more than one, is shown stripped |
| Names.FormatNameCouple | Main_Dashboard.py:58-76 | with one `&`: BBW shows the stripped follower, BBM the stripped leader, the others `last & last` |
| Names.LastWord | Main_Dashboard.py:74-75 | the last name is empty exactly when the name has no words |
| Names.ReorderNameWords | wrrc_openmarkings.py:414-421 | "Lastname Firstnames" becomes "Firstnames Lastname": the word list rotates left by one |
| Names.ReorderNameKeepsTokens | wrrc_openmarkings.py:414-421 | reordering neither adds nor loses a word |
| Names.FormatPart | wrrc_openmarkings.py:412-422 | the per-part loop body computes `ReorderName` |
| Names.FormatCoupleName | wrrc_openmarkings.py:408-424 | the loop over the `" - "` parts computes `CoupleDisplayName`; scrape_ff.py:292-305 is the same |
| Names.CoupleDisplayNameParts | wrrc_openmarkings.py:408-424 | the display name joins the parts with `" & "`, each part rotated when it has two words or more and only stripped otherwise |
| Names.JudgeRosterSplit | wrrc_openmarkings.py:226-239 | a roster entry always yields a name, a country exactly when `/` occurs, and without `/` the reordered stripped entry |
| Names.JudgeRosterAtSlash | wrrc_openmarkings.py:226-239 | the name is the reordered text before the first `/`, the country the stripped text after it |
| Names.LocationExists | wrrc_openmarkings.py:315-324 | a location is found exactly when the heading contains `-` |
| Names.LocationAfterLastSeparator | wrrc_openmarkings.py:316-318 | with `" - "` present, the location is the stripped text after its last occurrence |
| Filenames.Squeeze | wrrc_openmarkings.py:44-45 | collapsing runs leaves no doubled character, keeps the first character and adds none |
| Filenames.SanitizeFilename | wrrc_openmarkings.py:9-54 | the sanitised field is never empty and at most 100 characters; scrape_ff.py:10-33 is the same |
| Filenames.SanitizedShape | wrrc_openmarkings.py:26-52 | the field holds only word characters and `-`, no `--` or `__`, and does not start with `-` or `_` |
| Filenames.CleanedEmpty | wrrc_openmarkings.py:36-48 | cleaning leaves nothing exactly when the text has no alphanumeric character |
| Filenames.SanitizeUnknown | wrrc_openmarkings.py:36-54 | text with no alphanumeric character becomes `"Unknown"` |
| Filenames.SanitizePlainWords | wrrc_openmarkings.py:26-29 | single-spaced alphanumeric words only have their spaces replaced by `-` or `_` |
| Filenames.FormatDateForFilename | wrrc_openmarkings.py:56-90 | the date field is never empty; scrape_ff.py:35-55 is the same |
| Filenames.FormattedDateSafe | wrrc_openmarkings.py:56-90 | the date field is file-safe, and in `DD-MM-YY` form whenever a date pattern matches |
| Filenames.LongDateShape | wrrc_openmarkings.py:71-79 | a four-digit-year match gives `DD-MM-YY` |
| Filenames.ShortDateShape | wrrc_openmarkings.py:82-87 | a two-digit-year match gives `DD-MM-YY` |
| Filenames.UndatedText | wrrc_openmarkings.py:89-90 | text matching neither pattern is sanitised with hyphens |
| Filenames.FormatLongDate | wrrc_openmarkings.py:71-79 | `d.m.yyyy…` becomes zero-padded day and month plus the last two year digits |
| Filenames.FormatShortDate | wrrc_openmarkings.py:82-87 | `d.m.yy` not followed by two more digits becomes padded day and month plus the year |
| Filenames.NoLongYear | wrrc_openmarkings.py:71-72 | a two-digit year not followed by two digits does not match the four-digit pattern |
| Filenames.ParseScoreCell | wrrc_openmarkings.py:92-139 | the line-splitting loop computes `ScoreCellOf`; scrape_ff.py:57-89 is the same |
| Filenames.AggregatedWhenNotBlank | wrrc_openmarkings.py:111-121 | an aggregated score is present exactly when the cell is not blank |
| Filenames.JudgeScoresClean | wrrc_openmarkings.py:126-134 | every judge score is non-empty, stripped and free of `\|` |
| Filenames.ScoreCellRoundTrip | wrrc_openmarkings.py:115-134 | a cell written as the aggregate, a newline and `\|`-joined clean scores parses back to them |
| Filenames.CleanStartNumber | scrape_ff.py:546-553 | a kept start number is a non-empty digit string |
| Filenames.CleanStartNumberConcat | scrape_ff.py:546 | cleaning distributes over concatenation |
| Filenames.CleanStartNumberKept | scrape_ff.py:546-549 | a row is kept exactly when its start number has a digit, and cleaning is idempotent (also 594-597) |
| Filenames.OutputStem | scrape_ff.py:641-645 | the `results_location_date_class_round` stem is file-safe |
| Filenames.OutputFilenames | scrape_ff.py:646-647 | the two output files share the stem and end in `_Slow.json` and `_Fast.json` |
| Filenames.FileSafeHasNoSuffix | scrape_ff.py:24-25 | a sanitised field contains neither suffix, since it has no `.` |
| Filenames.OutputFilesArePartners | scrape_ff.py:641-647 | each output file's corresponding-round name is the other file |
| Rounds.PartnerName | Main_Dashboard.py:483-488 | a partner name exists exactly when the name ends in `_Slow.json` or `_Fast.json` |
| Rounds.LoadCorrespondingRound | Main_Dashboard.py:480-493 | the partner's results come back exactly when the partner name is loaded |
| Rounds.PartnerSwap | Main_Dashboard.py:483-486 | for a stem without either suffix, `_Slow` and `_Fast` swap |
| Rounds.PartnerRoundTrip | Main_Dashboard.py:480-493 | with both files loaded, each file finds the other |
| Rounds.MergedScores | Main_Dashboard.py:649-669 | the merged list is as long as the longer one |
| Rounds.MergedSlots | Main_Dashboard.py:656-667 | a slot is None iff both are None, and otherwise the sum of the present values |
| Rounds.MergedCommutes | Main_Dashboard.py:656-667 | merging is symmetric |
| Rounds.MergedWithEmpty | Main_Dashboard.py:649-669 | merging with an empty list changes nothing |
| Rounds.MergeScores | Main_Dashboard.py:646-669 | the slot loop computes `MergedScores` |
| Rounds.MergeRow | Main_Dashboard.py:641-671 | the category loop gives the current row with the five categories merged |
| Rounds.MergedJudgeTotal | Main_Dashboard.py:656-667 | a judge's total on the merged row is the sum of the two rounds' totals |
| Rounds.RowsByNumber | Main_Dashboard.py:623-624 | the map's keys are exactly the start numbers, each mapping to a row with that number |
| Rounds.LastRowWins | Main_Dashboard.py:623-624 | a duplicated start number keeps its last row |
| Rounds.Dedup | Main_Dashboard.py:628 | the set union holds each start number once |
| Rounds.CombineRounds | Main_Dashboard.py:611-676 | an empty round yields the other; otherwise the start numbers are the union, in strictly increasing string order, each row taken from one round or merged |
| Rankings.JudgeCountZero | Main_Dashboard.py:684-697 | the judge count is 0 exactly when no row has a score in any category |
| Rankings.JudgeCountFirstScored | Main_Dashboard.py:685-694 | the count is the largest per-row count in the first category with scores |
| Rankings.CountJudges | Main_Dashboard.py:684-694 | the nested loop with its `break` computes `JudgeCount` |
| Rankings.SortedJudgesByLetter | Main_Dashboard.py:701 | the judges are permuted into letter order |
| Rankings.JudgeLabelCorrected | Main_Dashboard.py:702-714 | the corrected label is never empty, and agrees with the source wherever the source does not raise |
| Rankings.FirstName | Main_Dashboard.py:702-714 | the label step computes `JudgeLabel` |
| Rankings.JudgeNames | Main_Dashboard.py:699-717 | one label per judge slot, `Judge n` beyond the roster |
| Rankings.RowTotal | Main_Dashboard.py:722-730 | the category loop computes a judge's total, with absent scores adding nothing |
| Rankings.RankByTotals | Main_Dashboard.py:733-745 | the ranks form a competition ranking: each couple's rank is 1 plus the number of couples with a strictly higher total |
| Rankings.RankOfBest | Main_Dashboard.py:733-745 | (corollary of RankByTotals) no couple is above the highest total, so the top couple gets rank 1 |
| Rankings.HigherRanksBetter | Main_Dashboard.py:733-745 | a strictly higher total gets a strictly better rank |
| Rankings.CountAboveMonotone | Main_Dashboard.py:738-745 | a lower total never gets a better rank |
| Rankings.BuildJudgeRankings | Main_Dashboard.py:678-749 | one ranking and one label per judge, each ranking a competition ranking of that judge's totals |
| Ties.HeadToHead | Main_Dashboard.py:759-769 | the loop counts the judges preferring a to b and those preferring b to a |
| Ties.WinsShareJudges | Main_Dashboard.py:759-769 | the two win counts add up to at most the number of judges |
| Ties.WinsSelf | Main_Dashboard.py:765-768 | a couple never beats itself |
| Ties.WinsUnanimous | Main_Dashboard.py:765-768 | when every judge prefers a, a wins all and b none |
| Ties.WinsOverUnranked | Main_Dashboard.py:763-766 | a ranked couple beats a couple missing from every ranking |
| Ties.PairwiseScores | Main_Dashboard.py:786-800 | each candidate's score is the number of pairwise contests it wins, and each has notes |
| Ties.MaxScore | Main_Dashboard.py:802 | the maximum is attained and bounds every score |
| Ties.TopOf | Main_Dashboard.py:803 | the top group is exactly the candidates with the given score |
| Ties.ResolveTies | Main_Dashboard.py:751-844 | the groups partition the candidates; one candidate is one group with no notes; two are ordered head-to-head or kept tied; three or more come in groups of one pairwise score each, by non-increasing score, and all stay one group when every score is equal; every tied candidate gets a note |
| Ties.OneGroupIffLevel | Main_Dashboard.py:811-838 | three or more couples stay in one group exactly when all their pairwise scores are equal |
| Placement.CountMonotone | Main_Dashboard.py:859 | raising the threshold never lowers a couple's count |
| Placement.CandidateCounts | Main_Dashboard.py:857-861 | the tallies are exactly the unplaced couples holding a majority at the threshold, with their counts |
| Placement.FindMajority | Main_Dashboard.py:855-863 | the search stops at the lowest threshold with a majority, or reports that no threshold up to the field size has one |
| Placement.FoundAtLowest | Main_Dashboard.py:856-863 | every tally found is a majority at the lowest such threshold |
| Placement.NextRun | Main_Dashboard.py:871-878 | a run holds the consecutive tallies with equal counts |
| Placement.RunByNumber | Main_Dashboard.py:870 | within a run of equal counts, the sorted candidates come by increasing start number |
| Placement.PlaceRun | Main_Dashboard.py:872-892 | one run is the tallies of equal count at `idx`, by start number, all with that majority; its couples go through the tie resolution, and each returned group becomes a record, in the returned order, with the run's majority and `GroupNotes` of the tie notes; the next run's count is strictly lower |
| Placement.PlaceRuns | Main_Dashboard.py:871-892 | the runs cover the sorted candidates in order, by strictly decreasing count, and the new records are their groups' records, run after run |
| Placement.PlaceMajorityRound | Main_Dashboard.py:863-895 | a majority round places every candidate once and removes it from the unplaced couples; its records all carry the round's threshold, come by non-increasing count, and are the tie-resolved groups of the runs of equal count, run after run, each with its notes |
| Placement.RoundSpent | Main_Dashboard.py:857-892 | with no start number listed twice, no couple left after a round has a majority at the round's threshold |
| Placement.RoundInOrder | Main_Dashboard.py:854-895 | a round at a threshold where someone still has a majority comes strictly after the thresholds already spent, so the majority order is kept |
| Placement.PlaceFallback | Main_Dashboard.py:897-914 | the fallback places every remaining couple, one per place |
| Placement.RankedHasMajority | Main_Dashboard.py:856-863 | when every judge ranks every couple, a majority exists at the field size |
| Placement.DeterminePlacements | Main_Dashboard.py:846-916 | every couple is placed once; places follow the number placed before; each record is a majority at the lowest threshold or a fallback taken when no threshold has one; records are in order; with distinct start numbers, majority records come by strictly rising threshold from round to round and by non-increasing count within a round; full rankings never fall back |

## Left out

- HTTP requests, HTML parsing, Streamlit/Plotly charts, JSON and file I/O, pandas data frames,
  the bulk scraper and every `main`. The model starts from the rows, cells and strings those
  layers produce.
- IEEE floating point. Scores are exact reals, so rounding in sums and divisions is not modelled.
- Numbers.ParseFloat accepts a restricted `float()` grammar: optional sign, digits and at most one
  dot, with at least one digit. Exponents, `inf`, `nan` and underscores are rejected.
- Text.IsWordChar matches Python's Unicode `\w` exactly up to U+00FF. Above U+00FF it accepts
  every code point that is not a Unicode space and not in one of the blocks it lists as
  symbol-only: combining diacritics, general punctuation (dashes, curly quotes, `…`), currency
  signs, arrows and mathematical operators, box drawing and shapes, private use, variation
  selectors, U+FEFF, the specials and the emoji. Other symbols and punctuation above U+00FF
  (for example CJK punctuation and dingbats) and unassigned code points are kept by the model's
  file-name sanitising, where Python drops them. Text.IsDigit is ASCII only.
- Aggregation.Weight: states only that a score at the median gets weight 1, not the converse.
- Placement.DeterminePlacements: requires at least one judge. The source divides by the judge
  count in the fallback, and its callers return early when there are no judges.
- Placement.DeterminePlacements: the order of majority records by count within a threshold is
  promised only for distinct start numbers. A start number listed twice is placed by two rounds at
  the same threshold, and the second round may place a larger majority after a smaller one, as
  the source does.
- Rankings.JudgeNames uses the corrected judge label: a judge whose name is only whitespace is
  labelled by its letter, where Main_Dashboard.py:708 raises IndexError (see Findings).
- Rankings.BuildJudgeRankings uses the same corrected label for its judge names.
- Rankings.FirstName computes the corrected label, not the raising one.
- Ties.ResolveTies: requires distinct candidates. The source's callers pass the keys of a
  dictionary, which are distinct.
- The explanatory strings (`"Head-to-head 2-1"`, `"Majority ≤ 3 (4/5 judges)"`,
  `"Fallback by average rank (2.40)"`) and the `"; "`-joined notes are kept as data
  (`TieNote`, `Summary`, `Versus`) rather than formatted text.
- `prepare_couples_data` is not part of this model. Rows reach the model already built, with a
  category that is not a list represented as absent.
- Judge scores that arrive as strings in the frame. `RowTotal` adds only present real scores, as
  the source does for numeric cells.

## Findings

| source | as written | input that shows it | evidently intended | confidence | as-written member | corrected member |
|---|---|---|---|---|---|---|
| Main_Dashboard.py:706-708 | a non-empty judge name is labelled by `full_name.strip().split()[0]` | a judge whose name is only whitespace, e.g. `{"letter": "A", "name": " "}`: `split()` is empty and `[0]` raises IndexError | fall back to the letter, as for an empty name | not executed | Rankings.BlankNameRaises | Rankings.JudgeLabelCorrected |
