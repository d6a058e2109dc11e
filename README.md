# BAA footwear: a verified model of the data pipeline

This project models, in Dafny, the tabular bookkeeping of the BAAFootwear
repository. The repository scrapes Boston Marathon split pages, builds pace
profiles, groups runners by shoe and compares the groups. The model has five
parts:

- **Result pages** (`src/data/Optimized.py`, `src/data/make_dataset.py`):
  - `process_url` decides whether a runner's results page is accepted;
  - it drops the split rows 7, 8, 10, 11 and 13;
  - it cuts the race-time, minutes-per-mile and miles-per-hour views out of the page;
  - the identifier space and URL list of each scraper;
  - the sequential collection loop;
  - the post-processing of the parallel scraper:
    - `Finish Net` is filled from `Finish Net *`;
    - rows holding an en dash are dropped;
    - `HH:MM:SS` splits become seconds.
- **Pace profiles** (`src/data/buildKMH.py`):
  - segment speeds come from cumulative checkpoint times;
  - speeds then become a percent change against the 5K speed.
- **Shoe grouping** (`src/visualization/optimize.py`, `src/visualization/visualize.py`):
  - the shoe table is repaired;
  - the bib join, and the labels listed in order of first appearance;
  - keyword families and the per-file size thresholds;
  - mean curves;
  - pairwise comparison of the trendlines;
  - the guards of the mixed-model routine.
- **Tagging** (`src/data/ScrapingMarathonfoto.py`):
  - runner selection under a finish-time limit;
  - surnames;
  - the shoe-choice record file;
  - the per-shoe image lookup.

Data frames are values:

- a `Frame` is a column list plus a sequence of rows;
- each row maps a column label to a `Cell` (text, integer, real or missing);
- pandas exceptions are `Err` values of a `Result`.

Times and speeds are Dafny `real`s, so the arithmetic is exact.

Two pandas operations change the caller's frame in place: `fix_percents`, and
the `bib` rewrite in `visualize.merge_data`. They are methods on a
`Frames.Table` object that holds a frame. The tagger's record file and its
"user has chosen" flag are fields of the `Tagging.Tagger` class. The loops
of the source are methods with loop invariants:

- the speed and percent passes;
- the grouping loops;
- the nested identifier loops;
- the page loop;
- the en-dash loop;
- the comparison loop.

Each method is proved against a specification function.

Modules:

- `Seqs`: sequence filters and de-duplication;
- `Frames`: cells, frames, column operations and string helpers;
- `Pace`;
- `Grouping`, which holds the logic shared by `Optimize` and `Visualize`;
- `Pages`;
- `Ids`;
- `MakeDataset`;
- `OptimizedScraper`;
- `Tagging`.

Where the code and a natural reading differ, the model follows the code:

- **A label in several families.** A label that matches two families joins both. Family membership is decided per family, with no first-match rule.
- **Unmatched labels.** A label matched by a family that failed its threshold is still never summarised on its own.
- **The extra shoe-table row.** Both `fix_shoe_choices` and `fix_shoeChoices` append a copy of row 0 instead of restoring the row lost to the header line, and the model does the same.
- **The fourth identifier character.** The identifier comment in `make_dataset.py` says `ZZ9Z`, but the fourth character never goes past `J`.
- **The mixed-model routine.** It can never return a fitted model.

## Model

| member | source | states |
|---|---|---|
| Pace.CheckpointSchema | src/data/buildKMH.py:11-21 | nine checkpoints, 5K at 5000 m to Finish Net at 42200 m, strictly increasing distances, HALF not a checkpoint |
| Pace.SegmentSpeed | src/data/buildKMH.py:36-45 | with increasing times every segment speed is positive |
| Pace.FirstSegmentUsesOwnTime | src/data/buildKMH.py:36-37 | the 5K speed is 5000 over the 5K time and depends on nothing else |
| Pace.SpeedsReadCheckpointsOnly | src/data/buildKMH.py:38-45 | two rows that agree on the checkpoint columns get the same speeds |
| Pace.ComputeSpeeds | src/data/buildKMH.py:31-45 | every checkpoint cell of the copy is the speed of its segment, computed from the original times; other columns and the column list are unchanged |
| Pace.SpeedColumn | src/data/buildKMH.py:36-45 | the column written for a checkpoint holds each row's speed over the segment ending there |
| Pace.PercentChange | src/data/buildKMH.py:68 | the percent change against the base is the one that scaling the base by 1 + pct/100 turns back into the speed |
| Pace.PercentAtBase | src/data/buildKMH.py:64-68 | the baseline's percent change is exactly zero |
| Pace.PercentZeroIff | src/data/buildKMH.py:66-68 | the change is zero iff the speed equals the baseline |
| Pace.PercentSign | src/data/buildKMH.py:66-68 | with a positive baseline the change is negative iff slower and positive iff faster |
| Pace.PercentRoundTrip | src/data/buildKMH.py:67-68 | base·(1 + pct/100) recovers the speed exactly |
| Pace.ComputePercents | src/data/buildKMH.py:62-68 | every checkpoint becomes its percent change against the row's 5K speed, the 5K cell is 0, other columns are copied |
| Pace.SpeedsDetermineTimes | src/data/buildKMH.py:31-45 | covering each segment at the computed speed takes the recorded time, so the speeds reproduce every cumulative checkpoint time |
| Pace.DropKeepsTimes | src/data/buildKMH.py:24 | dropping a non-checkpoint column keeps the times and the speeds |
| Pace.SpeedsFeedPercents | src/data/buildKMH.py:63-64 | the speed frame is a valid percent-pass input whose checkpoint values are the segment speeds |
| Pace.BuildProfiles | src/data/buildKMH.py:24-68 | succeeds iff HALF is present; both outputs have the input's columns without HALF and one row per input row, with the speed and percent of every checkpoint, and bib, name and every other non-checkpoint cell copied into both |
| Optimize.CheckpointAxes | src/visualization/optimize.py:20-21 | ten checkpoint labels and ten metre marks, metres from 0 and strictly increasing, matching the scraped distances; the percent columns are bib, name, 0K and the nine checkpoints, distinct |
| Optimize.ShoeFamiliesWellFormed | src/visualization/optimize.py:30-37 | the six families have distinct names |
| Optimize.FixPercents | src/visualization/optimize.py:66-72 | sets 0K to 0 in the caller's frame; succeeds iff every percent column exists; the result has exactly the percent columns in order with 0K zero and the other cells copied |
| Optimize.FixShoeChoices | src/visualization/optimize.py:76-84 | propagates the repair error; a label column without any text raises AttributeError, one mixing text with other cells raises TypeError; otherwise keeps the rows without "Question Mark" in order, and every such row survives |
| Optimize.AnalyzeData | src/visualization/optimize.py:148-188 | a non-text label raises AttributeError; otherwise the trendlines of the families and the unclaimed shoes with at least 20 runners, under distinct names, unless something is summarised: then a frame without a bib column raises the KeyError of the drop at line 130, and value columns that are not one per checkpoint metre mark make the first fit in `calculate_trendline` (lines 102-105) raise TypeError |
| Optimize.AnalysisThreshold | src/visualization/optimize.py:173-181 | every family that reaches 20 runners is summarised, and every summary has n ≥ 20 |
| Optimize.LinearMixedModel | src/visualization/optimize.py:222-307 | never returns a fitted model; skipped for empty input iff the input is empty; skipped for lack of checkpoint columns iff none is present |
| Grouping.RepairShoeTable | src/visualization/optimize.py:76-80 | an empty table raises, a width other than 3 raises, and otherwise there is one row more, named columns, cells copied and the last row equal to the first |
| Grouping.BibsAsText | src/visualization/visualize.py:22-23 | every bib becomes its text under the column's dtype (an integer is followed by ".0" when a missing bib makes the column a float column) and every other cell is unchanged |
| Grouping.FloatBibsNeverJoinIntBibs | src/visualization/optimize.py:88-91 | an integer bib of a float column never joins an integer bib of an integer column, even the same number |
| Grouping.BibsAsTextIdempotent | src/visualization/visualize.py:22-23 | converting bibs that are already text changes nothing |
| Grouping.BibsMatchAsText | src/visualization/optimize.py:88-89 | two rows join iff their bibs print the same |
| Grouping.MatchesOf | src/visualization/optimize.py:91 | the right rows with the left row's bib, each once, increasing |
| Grouping.JoinPairsOrdered | src/visualization/optimize.py:91 | the matching pairs of the inner join are listed left-major, each once |
| Grouping.JoinPairsComplete | src/visualization/optimize.py:91 | every bib-matching pair appears in the join |
| Grouping.Merge | src/visualization/optimize.py:91 | one row per matching pair, holding the left and the right row's cells; the columns are left then right without bib |
| Grouping.MergeMatchesBibs | src/visualization/optimize.py:91 | every merged row's bib is that of both its source rows, and every equal-bib pair is matched |
| Grouping.MergeOnBib | src/visualization/optimize.py:86-94 | succeeds iff LastName and name exist; the output lacks both, each row comes from one matching pair with equal text bibs, and its cells are those of its two source rows |
| Grouping.MergeOnBibPairs | src/visualization/optimize.py:86-94 | every pair of rows whose bibs print the same yields a merged row, in left-major order |
| Grouping.Mean | src/visualization/optimize.py:131 | the mean times the group size is the column sum |
| Grouping.ShoeChoices | src/visualization/optimize.py:96-100 | every label of the data appears, only labels appear, each once, in order of first appearance |
| Grouping.LabelTexts | src/visualization/optimize.py:164-165 | defined iff every label is text, and it keeps them distinct |
| Grouping.FamilyShoesExact | src/visualization/optimize.py:163-165 | a label is in a family iff it is a label and its lowercase form contains one of that family's keywords |
| Grouping.GroupSize | src/visualization/optimize.py:169-170 | the family's rows are those of its labels, counted label by label |
| Grouping.SumBounds | src/visualization/optimize.py:130-135 | a column sum lies between n·lo and n·hi |
| Grouping.MeanBounds | src/visualization/optimize.py:130-135 | a mean lies between the least and the largest value |
| Grouping.MeanOfConstant | src/visualization/optimize.py:130-135 | the mean of a constant column is that constant |
| Grouping.Summarise | src/visualization/optimize.py:130-141 | n is the row count and entry k of the mean curve is the mean of column k |
| Grouping.Put | src/visualization/optimize.py:136 | a new name is appended; for an existing name the key order is kept, the first entry of that name is replaced and every other entry stays; distinct names stay distinct |
| Grouping.FamilyEntriesExact | src/visualization/optimize.py:163-175 | every family entry is a passing family's summary, and every passing family has one |
| Grouping.ShoeEntriesExact | src/visualization/optimize.py:177-183 | every shoe entry is an unclaimed label that passes the threshold, and each such label has one |
| Grouping.ClaimedNeverIndividual | src/visualization/optimize.py:171-181 | no label matched by any family is summarised alone, even when its family failed the threshold |
| Grouping.FamilyNamesDistinct | src/visualization/optimize.py:163-175 | the family entries carry distinct family names |
| Grouping.ShoeNamesDistinct | src/visualization/optimize.py:177-183 | the shoe entries carry distinct labels |
| Grouping.FamilyAndShoeNamesDisjoint | src/visualization/optimize.py:163-183 | no family entry shares its name with a shoe entry |
| Grouping.TrendlineNamesDistinct | src/visualization/optimize.py:158-183 | the trendline dictionary has no overwritten keys |
| Grouping.ClaimStep | src/visualization/optimize.py:171 | processing a family claims exactly its labels |
| Grouping.CollectFamily | src/visualization/visualize.py:61-65 | the loop gathers the family's rows label after label and adds exactly its labels to the processed set |
| Grouping.GroupFamilies | src/visualization/optimize.py:163-175 | the family loop yields the family entries and claims exactly the labels matched by some family |
| Grouping.GroupShoes | src/visualization/optimize.py:158-183 | the two loops yield the trendlines under distinct names |
| Visualize.FamiliesWellFormed | src/visualization/visualize.py:42-46 | Adios, Vaporfly and Alphafly have distinct names |
| Visualize.MergeData | src/visualization/visualize.py:21-28 | both caller frames get text bibs in place, and the result is the bib merge without LastName and name |
| Visualize.RunEnd | src/visualization/visualize.py:107 | the maximal run of digits and dots from a position |
| Visualize.FirstRun | src/visualization/visualize.py:107 | the leftmost maximal run, or none iff there is no digit or dot |
| Visualize.ParseRun | src/visualization/visualize.py:108 | parses iff the run is digits, or digits with one dot and at least one digit; digits read as their value, a dotted run as whole part plus fraction over its power of ten; two dots, or "." alone, do not parse |
| Visualize.DecimalThenLetter | src/visualization/visualize.py:105-108 | digits, a dot, digits and then a letter (such as "21.1K") give the decimal value |
| Visualize.TwoDotsRaise | src/visualization/visualize.py:105-108 | a run with two dots, such as "1.2.3", raises |
| Visualize.ExtractFloat | src/visualization/visualize.py:105-108 | NaN exactly when the label has no digit or dot |
| Visualize.DigitsThenLetter | src/visualization/visualize.py:105-108 | digits followed by a letter give their value |
| Visualize.CheckpointLabelValue | src/visualization/visualize.py:105-108 | "nK" gives n |
| Visualize.FinishLabelIsNaN | src/visualization/visualize.py:105-108 | "Finish Net" gives NaN |
| Visualize.PolyfitError | src/visualization/visualize.py:113 | np.polyfit raises TypeError on an empty axis and LinAlgError on an axis with a NaN |
| Visualize.FinishLabelBreaksFit | src/visualization/visualize.py:105-113 | a plotted "Finish Net" column makes the axis unfittable |
| Visualize.XAxis | src/visualization/visualize.py:110 | succeeds iff every label converts, one value per label |
| Visualize.CheckpointAxis | src/visualization/visualize.py:103-110 | checkpoint labels "nK" give x values n |
| Visualize.PlotColumns | src/visualization/visualize.py:97-99 | the value columns without the first one, and never shoeChoice or bib |
| Visualize.Compare | src/visualization/visualize.py:144-147 | the pair's names and p-value, significant iff p < 0.05 |
| Visualize.PairsBelowExact | src/visualization/visualize.py:131-133 | the pairs whose first index is below m are exactly those with i < j < n |
| Visualize.PairsBelowOrdered | src/visualization/visualize.py:131-133 | pairs are visited in lexicographic order |
| Visualize.PairsBelowCount | src/visualization/visualize.py:131-133 | the partial pair count, closed form |
| Visualize.AllPairsExact | src/visualization/visualize.py:131-133 | every unordered pair once, as (i, j) with i < j, in loop order, n(n−1)/2 of them |
| Visualize.ComparisonsCount | src/visualization/visualize.py:128-133 | there are k(k−1)/2 comparisons |
| Visualize.ComparisonsExact | src/visualization/visualize.py:128-147 | every pair i < j is compared, and the x-th comparison is that of the x-th pair |
| Visualize.CompareTrendlines | src/visualization/visualize.py:128-149 | the nested loops yield exactly the comparisons, none with fewer than two groups |
| Visualize.FitData | src/visualization/visualize.py:40-113 | a non-text label raises; otherwise the trendlines use more than 4 family runners and more than 3 shoe runners, with the comparisons and distinct names; when something is plotted, a frame without a bib column raises the KeyError of the drop at line 97, an x-axis label that float rejects raises its ValueError, and an empty axis or one with a NaN label raises the error of np.polyfit |
| Pages.Runners | src/data/make_dataset.py:14-21 | one runner per header column but the first, with its name and bib |
| Pages.DropSplitRowsExact | src/data/make_dataset.py:41 | exactly the rows 7, 8, 10, 11 and 13 are lost, and the others are kept in order |
| Pages.View | src/data/make_dataset.py:48-67 | the kept rows' labels head the view, and the values come from one column |
| Pages.ProcessUrl | src/data/make_dataset.py:5-69 | on tables of cell texts, raises where pandas does; rejects a page with a '-' name or cell, fewer than 14 rows, a starred label among the first 14, or fewer than 6 columns; an accepted page gives three views that share runners and labels and take columns 2, 4 and 5 of the kept rows |
| Pages.AcceptedIff | src/data/Optimized.py:33-50 | a page is accepted iff it is readable, has no '-', has at least 14 rows, none of the first 14 labels is starred, and it has at least 6 columns |
| Ids.CharRangeExact | src/data/make_dataset.py:81-84 | a run of consecutive characters is distinct and holds exactly its range |
| Ids.Suffixed | src/data/make_dataset.py:84-85 | one word per letter, in alphabet order |
| Ids.ExtendCount | src/data/make_dataset.py:81-85 | extending by an alphabet multiplies the count |
| Ids.ExtendMembers | src/data/make_dataset.py:81-85 | an extended word is a word followed by a letter |
| Ids.ExtendDistinct | src/data/make_dataset.py:81-85 | extending distinct words by distinct letters keeps them distinct |
| Ids.Words4Exact | src/data/Optimized.py:87-92 | the nested loops give |a|·|b|·|c|·|d| words, exactly the 4-letter words over the four alphabets, distinct |
| Ids.Combinations | src/data/make_dataset.py:80-85 | the nested appending loops build the words in loop order |
| Ids.AppendMiddle | src/data/make_dataset.py:82-85 | the three inner loops append the block of one first letter |
| Ids.AppendInner | src/data/make_dataset.py:83-85 | the two inner loops append the block of two first letters |
| Ids.AppendLast | src/data/make_dataset.py:84-85 | the innermost loop appends one word per letter of the last alphabet, in order |
| Ids.Urls | src/data/make_dataset.py:90 | one URL per identifier, in order, prefix then identifier |
| Ids.UrlsDistinct | src/data/make_dataset.py:90 | distinct identifiers give distinct URLs that end in their identifier |
| MakeDataset.IdentifierSpace | src/data/make_dataset.py:79-85 | 67600 distinct identifiers: two capitals, a digit, and a capital from A to J |
| MakeDataset.AddressSpace | src/data/make_dataset.py:88-90 | 67600 distinct URLs, the fixed prefix followed by the identifier, in identifier order |
| MakeDataset.CollectedAccepted | src/data/make_dataset.py:99-105 | when nothing raises, the loop keeps exactly the views of the accepted pages, in URL order |
| MakeDataset.CollectedRaises | src/data/make_dataset.py:99-100 | the loop raises iff some page raises, with the first such page's error |
| MakeDataset.CollectedPrefixRaises | src/data/make_dataset.py:99-100 | once a page raises, the later pages do not matter |
| MakeDataset.Collect | src/data/make_dataset.py:99-108 | the three lists have equal length and are the views of the accepted pages in URL order; checked counts the URLs; the error is the first page's |
| OptimizedScraper.AlphabetExact | src/data/Optimized.py:87 | the alphabet is the 16 distinct hexadecimal digits |
| OptimizedScraper.IdentifierSpace | src/data/Optimized.py:85-92 | 24576 distinct identifiers: A–F, then three hexadecimal digits |
| OptimizedScraper.AddressSpace | src/data/Optimized.py:94-97 | 24576 distinct URLs, the fixed prefix followed by the identifier |
| OptimizedScraper.TimeColumns | src/data/Optimized.py:145 | the columns from the third on, in order |
| OptimizedScraper.FillFinish | src/data/Optimized.py:128-136 | KeyError without either column; otherwise a missing Finish Net takes the star value, present values stay, the star column is gone and other cells are unchanged |
| OptimizedScraper.FirstAbsent | src/data/Optimized.py:145-151 | the first time column that one of the other frames lacks |
| OptimizedScraper.DropDashRows | src/data/Optimized.py:145-151 | raises KeyError at the first time column another frame lacks; otherwise each frame keeps exactly its rows without an en dash in the time columns |
| OptimizedScraper.DashDropExact | src/data/Optimized.py:145-151 | no kept row has an en dash in a time column, and every dash-free row is kept |
| OptimizedScraper.ParseHms | src/data/Optimized.py:153-156 | a parsed time is below 86400; a failure is a ValueError on that text |
| OptimizedScraper.ParseHmsOfFields | src/data/Optimized.py:154-156 | h:m:s parses iff h < 24, m < 60, s < 60, to h·3600 + m·60 + s |
| OptimizedScraper.TwoDigits | src/data/Optimized.py:154 | a time field of one or two digits for a value below 100 |
| OptimizedScraper.FormatHmsRoundTrip | src/data/Optimized.py:153-156 | every second of the day prints as HH:MM:SS and parses back to itself |
| OptimizedScraper.CellSeconds | src/data/Optimized.py:154-156 | a missing cell stays missing, text is parsed, a text that does not parse raises ValueError with that text, and a number is printed and raises ValueError with its printed form |
| OptimizedScraper.NumberNeverParses | src/data/Optimized.py:154 | the printed form of a number has no colon, so the `%H:%M:%S` match fails with ValueError |
| OptimizedScraper.ToSeconds | src/data/Optimized.py:153-158 | fails iff some time cell fails to parse, with the first failure; otherwise the first two columns are unchanged and every time cell is its seconds |
| Tagging.RunnersUnderTime | src/data/ScrapingMarathonfoto.py:191-199 | KeyError without Finish Net, TypeError on a text time; otherwise the rows, in order, that finished strictly under the limit and whose bib, printed under its column's dtype, is unprocessed |
| Tagging.FloatBibStaysUntagged | src/data/ScrapingMarathonfoto.py:179-199 | a runner whose integer bib sits in a float column stays to be tagged after that bib was recorded as an integer |
| Tagging.RunnersUnderTimeExact | src/data/ScrapingMarathonfoto.py:191-199 | every kept row qualifies, and every qualifying row is kept |
| Tagging.BeforeComma | src/data/ScrapingMarathonfoto.py:203-204 | a prefix without a comma that ends at the first comma, the whole text if it has none |
| Tagging.Surname | src/data/ScrapingMarathonfoto.py:203-204 | a text name gives the text before its first comma; another cell gives NaN |
| Tagging.Surnames | src/data/ScrapingMarathonfoto.py:201-204 | KeyError without the name column, AttributeError when it has rows but no text; otherwise one surname per runner, none with a comma |
| Tagging.ProcessedBibs | src/data/ScrapingMarathonfoto.py:179-188 | empty without the file; otherwise exactly the first fields of the non-blank lines |
| Tagging.LinesAfterRecord | src/data/ScrapingMarathonfoto.py:130-131 | appending a line to a terminated file adds that line before the final empty piece |
| Tagging.FirstFieldsStep | src/data/ScrapingMarathonfoto.py:185-186 | one more record adds its first field |
| Tagging.RecordBib | src/data/ScrapingMarathonfoto.py:131 | the first field of a record line is its bib |
| Tagging.EmptyFileProcessesNothing | src/data/ScrapingMarathonfoto.py:181-188 | an existing empty record file, like a missing one, yields no bib |
| Tagging.SaveRecordsBib | src/data/ScrapingMarathonfoto.py:129-131 | after the append the bib is among the processed bibs, which otherwise are unchanged |
| Tagging.Tagger.constructor | src/data/ScrapingMarathonfoto.py:263 | the record file as given (a missing file has no content), with no choice made yet |
| Tagging.Tagger.Processed | src/data/ScrapingMarathonfoto.py:179-188 | no bibs while there is no file |
| Tagging.Tagger.SaveShoeChoice | src/data/ScrapingMarathonfoto.py:129-131 | the file exists (mode 'a' creates it) and gains exactly one line bib,name,shoe after its untouched content; the processed bibs gain exactly that bib, on the first save too |
| Tagging.Tagger.Submit | src/data/ScrapingMarathonfoto.py:114-121 | records the choice, so its bib becomes processed, and sets the chosen flag |
| Tagging.Gallery | src/data/ScrapingMarathonfoto.py:92-94 | every shoe with its image, in list order |
| Tagging.ShoeImagesTotal | src/data/ScrapingMarathonfoto.py:207-252 | all 20 distinct shoes have an image and the image map has no other keys |
| Frames.FilterRows | src/visualization/optimize.py:82-83 | a boolean mask keeps the columns and exactly the rows satisfying it, in order |
| Frames.SelectColumns | src/visualization/optimize.py:71 | KeyError unless every named column exists; otherwise those columns in the given order with every row's cells |
| Frames.Rename | src/visualization/optimize.py:79 | LengthMismatch unless there is one name per column; otherwise each column is relabelled by position with its cells kept |
| Frames.DropColumns | src/data/buildKMH.py:24 | succeeds iff every dropped column exists; the columns without them, the rows without their cells |
| Frames.Split | src/data/ScrapingMarathonfoto.py:203 | at least one piece, none containing the separator |
| Frames.SplitAppend | src/data/ScrapingMarathonfoto.py:185 | splitting a join of two texts splits each |
| Frames.NatToStringRoundTrip | src/visualization/visualize.py:22-23 | a printed number reads back as itself |
| Frames.IntToStringInjective | src/visualization/visualize.py:22-23 | different integer bibs print differently |
| Frames.IntCellTextInjective | src/visualization/visualize.py:22-23 | within one dtype, two integer bibs print alike iff they are equal |
| Frames.FloatTextNotIntText | src/visualization/visualize.py:22-23 | an integer printed from a float column ("123.0") never equals one printed from an integer column |
| Seqs.FilterIsSelection | src/visualization/optimize.py:82-83 | a boolean mask keeps elements in order at increasing positions, exactly those satisfying it |
| Seqs.UniqueFirstAppearance | src/visualization/optimize.py:96-100 | de-duplication keeps first appearances in their order |

## Left out

- Page reading (`pd.read_html`), CSV reading and writing, and the hard-coded paths. Tables come in as values, and a page read is the function parameter `fetch`.
- The thread pool of `Optimized.py:111-120`. It is concurrency, and `as_completed` yields the pages in a nondeterministic order. Only the sequential loop of `make_dataset.py` is modelled, and the post-processing of the parallel scraper starts from the combined frames.
- The `pd.concat` of the per-page frames into one frame (`Optimized.py:123-125`, `make_dataset.py:113-115`). It aligns columns by label across pages; the model keeps the list of pages. The `ValueError` that concatenating an empty list raises is not modelled either.
- Selenium, Flask, the HTML template, tab handling and the busy-wait loop of `ScrapingMarathonfoto.py`. These are browser automation and thread coordination. `Submit` keeps only the flag that the loop waits on.
- Plotting, the elevation profile, the numerics of `np.polyfit`, `np.std`, the Welch t-test and the statsmodels fit. These are floating-point numerics in foreign code; only the exceptions `np.polyfit` raises on the axis it is given are modelled. The p-value is a function parameter of `Visualize.Compare`, a trendline summary keeps the mean curve and `n`, and slope and dispersion are left out.
- Floating point: times and speeds are exact reals. NaN and infinity from a zero time difference are excluded by requiring strictly increasing times, as the source has no guard.
- Pace.ComputeSpeeds: requires a number in every checkpoint cell and strictly increasing times. The source does not check either; a missing time gives NaN in pandas.
- Grouping.Mean: pandas' mean skips NaNs and `astype(float)` raises on a text cell; neither is modelled, because `GroupingInput` requires a number in every value column of every row of the frame, including rows that no summarised group contains.
- Grouping.MergeOnBib: requires that the two frames share only the `bib` column. pandas would rename shared columns with `_x`/`_y` suffixes.
- Grouping.BibsAsText: a bib with a fractional float value (a `Real` cell) is not modelled, as Python's shortest float repr is not. An integer column with a missing bib is a float column and prints "123.0"; in such a column the model needs integers of magnitude at most 2^53, where `str` of the float is exact and has no exponent.
- Grouping.JoinPairs and Grouping.MergeOnBibPairs: the left-major row order of an inner merge is the order pandas documents from version 2.2 on; earlier versions may order the rows differently, which the model does not capture.
- Optimize.AnalyzeData and Visualize.FitData: they do not model the `KeyError` that selecting `shoeChoice` raises on a frame without that column; there the model finds no rows for any label and summarises nothing. The `KeyError` of dropping a missing `bib` column is modelled.
- Optimize.AnalyzeData: the fit is checked only for the length of the mean curve against `CHECKPOINT_METERS`; the percent tables the scripts build have exactly the ten value columns it needs.
- Optimize.LinearMixedModel: models only the guards in order. The numeric coercion `pd.to_numeric` and the fitted model are left out; the fit is unreachable anyway.
- Tagging.RunnersUnderTime: requires bibs that are integers, text or missing (`WholeBibs`), because the printed form of a fractional float bib is not modelled; an integer column with a missing bib prints as floats ("123.0"), with the same 2^53 bound as in `Grouping.BibsAsText`.
- Tagging.ProcessedBibs: reads the first field as text. `read_csv` infers types, which can turn `"007"` into `7`; quoted fields, extra fields and `\r\n` line endings are not modelled.
- Lower-casing is ASCII only, and `\d` is the ASCII digits; Unicode case folding is not modelled.
- OptimizedScraper.ParseHms: rejects a second of 60 or 61 with `ValueError`. The pattern of the `%S` directive matches both; the time pandas then builds from a leap second is library behaviour the source does not show, so the model does not promise it.
- Pages.ProcessUrl: the page's tables are grids of cell texts. `pd.read_html` turns an empty cell into NaN and infers numbers; a NaN or number among the first 14 split labels makes the star filter `~...str.contains('\*')` raise `TypeError` (or the `.str` accessor raise `AttributeError` when no label is text). Neither the inference nor those errors are modelled: an empty label reads as an unstarred text.
- Pages.View: `pd.concat(..., axis=1)` aligns the runner rows and the one row of split values by position, so with more than one runner the values sit beside the first runner only and the other runners get NaN. `Splits` keeps the runners and the values side by side and does not model that alignment.
- OptimizedScraper.CellSeconds: a numeric cell raises `ValueError`, as `pd.to_datetime` prints a non-text value and fails the format match. The printed form is exact for an integer in a column holding text or only integers and for a whole float below 10^16. An integer in a float column is printed without the ".0" that `str` adds, and a float with a fractional part or an exponent as its integer part followed by ".0"; only the message text differs. pandas' other coercions are not modelled. The conversion yields seconds directly rather than a `datetime.time`.
- Tagging.Tagger.SaveShoeChoice: `Processed()` is shown to gain the bib (on an existing file and on the first save, which creates it) only when:
  - the file ends with a line break;
  - the bib has no comma;
  - no field has a line break.

  Otherwise the CSV reader would split the record differently.
