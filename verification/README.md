# VCF tools, modelled in Dafny

This project models the core of a small set of Python tools that read
genomic variant files in the Variant Call Format (VCF 4.x). In a VCF file,
`##` lines are meta information. The `#CHROM` header line names the eight
fixed columns, an optional `FORMAT` column and one column per individual.
Every data row after it holds one variant.

The tools built on that format are:

- **The line dispatcher** (`vcf/handler.py`, module `Handlers`). `Handler.run` sends every line to one hook: `process_meta`, `process_individuals` or `process_data`. It calls `prepare` before the first line and `terminate` after the last. It splits each data row at the eighth column, or also at the ninth when the header names `FORMAT`.
- **The pairwise difference comparer** (`vcf/comparer.py`, module `Comparers`). It keeps one counter per unordered pair of configured individuals. Each data row adds one to a pair's counter when the two GT calls carry different sets of non-reference alleles. At the end the counters become a dictionary that can be read in either order.
- **The population predictors** (`vcf/predictor.py`, module `Predictors`).
  - Every data row gives each column a dosage ratio (the share of non-`0` alleles) and each group a mean frequency.
  - Each configured individual then gets votes under `PredictorJoao` (nearest group, by a margin `t1`) or `PredictorMariana` (one vote per pair of groups).
  - `terminate` labels every individual with its most voted group, or `---` when the lead is below `t2`.
- **The population registry** (`vcf/population.py`, module `Populations`) and **the symmetric pair dictionary** (`two_way_dict.py`, module `TwoWayDicts`).
- **The scripts' helpers**:
  - the population-file parser and the value-list builders of `compare.py` (`CompareTool`);
  - the polymorphism-list reader of `predict.py` (`PredictTool`);
  - the older whole-file reader `parse_vcf.py` (`ParseVcf`) and its raw GT comparer `comparers.py` (`RawComparers`).

Shared modules:

- `Wrappers` holds `Result`/`Option`/`Outcome` and one `Error` constructor per exception the code raises.
- `Text` models the Python string operations the code uses:
  - `str.split(c)`, `str.split()`, `rstrip`, `strip` (with Python's whitespace set), `find` and `startswith`;
  - string `<`, lexicographic by code point.
- `Itertools` holds `combinations`, `combinations_with_replacement`, `product` and `zip`.

Python dictionaries remember insertion order. Where the code reads that order, the model keeps the dictionary as a `map` together with a `seq` of its keys in insertion order. These dictionaries are `individual_indeces` in the comparer and the predictor, the predictor's `structures`, and the registry's two maps. The other dictionaries are plain `map`s, and their order is not modelled: the pair dictionary of `TwoWayDict`, the comparer's finished table, the predictor's `individual_to_group` copy and its labels, and the data of `parse_vcf.py`. Files and streams are sequences of lines. The comparer handed to `compare.py` is a function parameter. The predictor's INFO-field parser is also a function parameter.

Where a source file works step by step, the model is imperative:

- a `class` whose fields the methods update (`Handler`, `DefaultComparer`, `Predictor`, `Population`, `TwoWayDict`);
- or a `method` with a loop (`ParsePopulation`, `ReadPolymorphisms`, `Parse`, `DefaultCompare` and others).

Each such method is proved against a specification function, and the properties are proved about that function.

## Behaviour worth knowing


- Early termination: `terminate_early` is set by the predictor (vcf/predictor.py:138-139) but `Handler.run` never reads it, so every line is consumed.
- An individual with fewer than two distinct voted groups makes `terminate` raise an index error (vcf/predictor.py:249-250), even when it has no votes at all.
- The registry offers no removal and does not enforce unique identifiers. Re-adding an identifier leaves it in its old group's list (`Populations.ReAddLeavesStaleEntry`).
- A missing configured individual is detected by the comparer and the predictor in `process_individuals`, not by the dispatcher.
- A short data row raises an index error at any of four points:
  - the dispatcher, when a row has no ninth column under a `FORMAT` header (vcf/handler.py:61-63, `Handlers.Dispatch`);
  - the comparer's column lookup, when a configured column is beyond the row (vcf/comparer.py:91-96, `Comparers.CheckColumns`);
  - the predictor's identifier and INFO lookups (vcf/predictor.py:114 and 159, `Predictors.Predictor.ProcessData` and `Predictors.GetFrequencies`);
  - the predictor's genotype lookup (vcf/predictor.py:147, `Predictors.FilterGenotypes`).
- The two GT splitters differ:
  - the comparer splits on `/` before `|` (vcf/comparer.py:165-170);
  - the predictor splits on `|` before `/` (vcf/predictor.py:101-106).
- Mariana's rule votes for the second group of a pair on an exact tie (vcf/predictor.py:277-280).
- `compare(a, a)` raises a key error, because `combinations` never pairs an individual with itself.
- A second header line is merged into the column map of the first, not substituted for it. `individual_indeces` is never cleared (vcf/comparer.py:49-52, vcf/predictor.py:76-78); entries are only added or overwritten. A configured individual that the first header had and a later one lacks keeps its stale column. The length test counts the merged map, so that individual is not reported missing (`Comparers.StaleColumnKept`). The comparer's counters and the predictor's structures are rebuilt.

## Model

Some definitions are specification functions whose contracts only bound or shape their result. Their meaning is stated by the lemma rows named here:

- `Comparers.Change` and `Comparers.NonReference` (vcf/comparer.py:175-187): `Comparers.ChangeMeaning`.
- `Comparers.DiffCount` (vcf/comparer.py:99-102): `Comparers.DiffCountBounds` and `Comparers.TerminatedCounts`.
- `Comparers.HeaderIndex` (vcf/comparer.py:50-52): `Comparers.HeaderIndexMeaning`.
- `Comparers.TableOf` (vcf/comparer.py:128-132): `Comparers.TableOfSymmetric` and `Comparers.TableOfLastWins`.
- `Predictors.SumFor` (vcf/predictor.py:177-182): `Predictors.SumForBounds` and `Predictors.MeanFor`.
- `Predictors.Distances` (vcf/predictor.py:235-238): `Predictors.NearestIsFirstLeast` and `Predictors.JoaoVoteMargin`.
- `Predictors.PairVotes` (vcf/predictor.py:272-281): `Predictors.PairVotesBound` and `Predictors.MarianaBound`.
- `Predictors.VotesFor` (vcf/predictor.py:234-281): `Predictors.VotesForMeaning`.
- `Predictors.Ballots` (vcf/predictor.py:128-133): `Predictors.DealAppends`.
- `Predictors.LabelsAfter` (vcf/predictor.py:248-258): `Predictors.LabelsAfterFails` and `Predictors.LabelsAfterSets`.
- `Predictors.SuperPopulations` (vcf/predictor.py:49): `Predictors.Predictor.SetPopulations`.
- `Populations.ForwardOf` (vcf/population.py:25): `Populations.ForwardKeys` and `Populations.ForwardLastWins`.
- `Populations.MembersOf` (vcf/population.py:26): `Populations.MembersExactly`.
- `CompareTool.PopulationEntries` (compare.py:33-55): `CompareTool.PopulationEntriesError` and `CompareTool.PopulationEntriesMember`.
- `CompareTool.GroupPairs`, `CompareTool.Compared` and `CompareTool.ListOf` (compare.py:69-78): `CompareTool.GroupPairsMeaning` and `CompareTool.GroupValuesMeaning`.
- `CompareTool.DistancesByGroup` (compare.py:65-80): `CompareTool.DistancesByGroupMeaning`.
- `CompareTool.ModelOf` (compare.py:93-110): `CompareTool.ModelOfMeaning`.
- `CompareTool.TestTable` (compare.py:124-129): `CompareTool.TestTableMeaning`.
- `ParseVcf.Parsed` (parse_vcf.py:4-45): `ParseVcf.ParsedFails`.
- `ParseVcf.FirstIndividual` (parse_vcf.py:22-25): `ParseVcf.StepHeader`.
- `Itertools.Zip` (parse_vcf.py:38): `ParseVcf.ValuesForDistinct` and `RawComparers.DifferencesTruncated`.
- `Itertools.EmptyLists` (vcf/predictor.py:74): `Predictors.Predictor.Restructure`.
- `Handlers.Chomp`, `Handlers.Columns` and `Handlers.LineKind` (vcf/handler.py:44-52): `Handlers.Dispatch` and `Handlers.DispatchParts`.

| member | source | states |
|---|---|---|
| Handlers.Dispatch | vcf/handler.py:43-69 | A line fails only when it is a data row under a FORMAT header with no ninth column, and then with an index error. Otherwise exactly one hook of the line's own kind is called. Only a header changes `has_genotype_field`, setting it to whether a column equals `FORMAT`. |
| Handlers.DispatchParts | vcf/handler.py:44-67 | `process_meta` gets the line without its trailing newlines. A header hands over `fields[9:]` with FORMAT, else `fields[8:]`, and nothing is lost: `fields[:8 or 9] + names == fields`. A data row's `fixed` has `min(8, ncols)` columns. `fixed + [format] + data` (with FORMAT) or `fixed + data` with `format == ""` (without) equals the tab-split columns. |
| Handlers.DataRowRebuilt | vcf/handler.py:60-69 | Under a FORMAT header, joining `fixed`, `format` and `data` with tabs rebuilds the data row minus its newline. |
| Handlers.Scan | vcf/handler.py:43-69 | The hooks called for a stream: at most one per line, and exactly one per line when nothing raised. |
| Handlers.ScanFailure | vcf/handler.py:61-63 | A failed run stops at the first data row with at most eight columns under a FORMAT header, after one hook per earlier line, with an index error. |
| Handlers.ScanInOrder | vcf/handler.py:43-58 | The k-th hook call belongs to the k-th line and matches its kind (meta, header or data), in stream order. |
| Handlers.NoHeaderNoFormat | vcf/handler.py:30 | With no header line, `has_genotype_field` stays `None`, nothing fails, and every data row gets `format_field == ''`. |
| Handlers.LastHeaderDecides | vcf/handler.py:52-53 | After a run, `has_genotype_field` is the FORMAT test of the last header line. |
| Handlers.ScanStops | vcf/handler.py:43-69 | Once a line has raised, the rest of the stream changes nothing. |
| Handlers.Handler.constructor | vcf/handler.py:24-30 | A new handler has `has_genotype_field == None` and has called no hook. |
| Handlers.Handler.Run | vcf/handler.py:33-71 | `prepare` is called once before any line, then the hooks of `Scan` in order. `terminate` is called once after the last line exactly when no line raised. The result is the error of the failing line, if any. |
| Comparers.GenotypeTextMeaning | vcf/comparer.py:162 | The GT text is the field up to its first `:`, or the whole field, and holds no `:`. |
| Comparers.Pieces | vcf/comparer.py:165-170 | The GT text split on `/` if present, else on `\|`, else one piece; there is always at least one piece. |
| Comparers.PieceChars | vcf/comparer.py:165-170 | Pieces are made of characters of the GT text and never hold the separator that was split on. |
| Comparers.Alleles | vcf/comparer.py:156-173 | `process_variant` yields one stripped allele per piece, at least one. |
| Comparers.AlleleShape | vcf/comparer.py:162-173 | No allele holds `:` or `/`, nor `\|` when the call has no `/`; no allele starts or ends with whitespace. |
| Comparers.AllelesRebuild | vcf/comparer.py:165-173 | For a GT call without whitespace, joining the alleles with the separator rebuilds the GT text. |
| Comparers.ChangeMeaning | vcf/comparer.py:175-187 | A row adds at most 1 to a counter, regardless of pair order. It adds 1 exactly when some non-`0` allele is in one call and not the other. |
| Comparers.IncrementScenarios | vcf/comparer.py:179-187 | GTs `1\|1` against `1/1` add 0; `0\|0` against `0\|1` add 1. |
| Comparers.DiffCountBounds | vcf/comparer.py:99-102 | A pair's counter never exceeds the number of data rows and does not depend on the order of the pair. |
| Comparers.DiffCountSnoc | vcf/comparer.py:99-102 | One more row raises each counter by that row's difference only. |
| Comparers.HeaderIndexMeaning | vcf/comparer.py:50-52 | The column map holds exactly the configured names found in the header, each at a column carrying it, and that is the last such column: a repeated header name overwrites. |
| Comparers.Selected | vcf/comparer.py:50-52 | The names the loop maps are exactly the configured names found in the header. |
| Comparers.FirstAbsent | vcf/comparer.py:56-57 | `None` iff every configured name is in the header. Otherwise it gives the first configured name absent from it. |
| Comparers.StaleColumnKept | vcf/comparer.py:49-60 | After a second header, a configured individual present in the first header but absent from the second keeps its first column. With distinct configured names all found in the first header, the missing-individual check then reports nothing. |
| Comparers.MissingIffAbsent | vcf/comparer.py:54-60 | On a fresh map, the length test together with the search fires exactly when some configured individual is absent from the header. |
| Comparers.Missing | vcf/comparer.py:54-60 | The error is raised iff fewer names were found than configured and one is absent. It names the first configured individual absent from the header. |
| Comparers.MissingFrom | vcf/comparer.py:54-60 | The search loop computes `Missing`. |
| Comparers.FindAbsent | vcf/comparer.py:56-60 | The search loop finds the first configured individual absent from the header. |
| Comparers.MapHeader | vcf/comparer.py:50-52 | The header loop extends the map by `HeaderIndex`. New keys join the key order in first-occurrence order, and each key is listed once. |
| Comparers.KeyOrderIsUnique | vcf/comparer.py:50-52 | The dictionary's key order after the loop is the old keys followed by the newly found names, each once. |
| Comparers.TransformErrorIff | vcf/comparer.py:91-96 | The in-place transformation loop raises nothing iff every mapped column exists in the row and none is visited twice. |
| Comparers.CheckColumns | vcf/comparer.py:91-96 | The loop yields the first error: a column beyond the row (index error), or a column already transformed into a list (attribute error). |
| Comparers.TableOfSymmetric | vcf/comparer.py:128-132 | The dictionary holds `(a, b)` iff it holds `(b, a)`, with the same value, and exactly for the pairs counted in some order. |
| Comparers.TableOfLastWins | vcf/comparer.py:129-131 | A pair that no later pair repeats, in either order, is stored under both orders with its own counter. |
| Comparers.CombinationsUnordered | vcf/comparer.py:65 | Over distinct keys, no pair joins an individual with itself, and no pair repeats, in either order. |
| Comparers.FreshCounts | vcf/comparer.py:65-67 | Zeroed counters, one per pair, with the pairs of names aligned with the pairs of columns, count the empty list of rows. |
| Comparers.RowCounts | vcf/comparer.py:99-102 | Adding each pair's difference on a new row keeps every counter equal to the number of rows on which the pair's columns differ. |
| Comparers.RowValues | vcf/comparer.py:99-102 | The update loop adds, pair by pair, `update_comparison` of the two parsed columns. |
| Comparers.VariantsIncrement | vcf/comparer.py:91-102 | Counting on the parsed columns equals counting the raw columns' differences. |
| Comparers.BuildTable | vcf/comparer.py:128-132 | The `terminate` loop builds the dictionary in which every pair is stored under both orders. |
| Comparers.DefaultComparer.constructor | vcf/comparer.py:23-37 | A new comparer has no configured individuals, an empty column map and no pairs or counters. |
| Comparers.DefaultComparer.SetIndividuals | vcf/comparer.py:39-47 | Stores the configured list and clears the column map. |
| Comparers.DefaultComparer.ProcessIndividuals | vcf/comparer.py:49-67 | With no configured list it raises a type error. Otherwise the map becomes the old map plus `HeaderIndex`, and the key order is updated. It raises exactly `Missing`. If nothing is missing, the pairs are `combinations(keys, 2)` aligned with their column pairs, each with a zeroed counter. |
| Comparers.DefaultComparer.MapColumns | vcf/comparer.py:50-60 | The header loop and the missing check, with pairs and counters left as they were. |
| Comparers.DefaultComparer.ResetPairs | vcf/comparer.py:65-67 | The pairs are the `combinations` of the keys, aligned with those of their columns, with one zeroed counter per pair. |
| Comparers.DefaultComparer.ProcessData | vcf/comparer.py:89-102 | A missing or repeated column raises first and changes no counter. After `terminate` the row raises a type error. Otherwise every pair's counter grows by `Increment` of its two raw columns, and the pairs are unchanged. |
| Comparers.DefaultComparer.AddRow | vcf/comparer.py:99-102 | Each counter grows by the difference of its two columns in the row. |
| Comparers.DefaultComparer.Terminate | vcf/comparer.py:122-136 | The counters become `TableOf(pairs, values)`; a second call raises a type error. |
| Comparers.DefaultComparer.Compare | vcf/comparer.py:138-144 | Before `terminate` it raises a type error. After it, it succeeds iff the pair was counted in either order; otherwise it raises a key error. |
| Comparers.DefaultComparer.Handle | vcf/handler.py:46-71 | A header goes to `process_individuals`: a type error with no configured list, otherwise the column map grows by `HeaderIndex` and, on success, the pairs are rebuilt with zeroed counters. A data row goes to `process_data`: the map and the pairs stay, and a successful row is appended to the counted rows. Any other event changes nothing, and the genotype flag never changes. |
| Comparers.DefaultComparer.Step | vcf/handler.py:43-69 | A dispatch error is returned as is. Otherwise the flag is updated and the hook of the line's kind runs. A meta line changes no counter. A header remaps the configured columns. A data row keeps the map and the pairs, and on success is appended to the counted rows. |
| Comparers.DefaultComparer.Run | vcf/handler.py:33-71 | A run that raised nothing has read every line as `Scan` does and has called `terminate`. |
| Comparers.TerminatedCounts | vcf/comparer.py:129-144 | After `terminate`, each counted pair reads the same in both orders: the number of data rows since the header on which its two calls differ. `compare(a, a)` is always a key error. |
| Predictors.RatioAlleles | vcf/predictor.py:99-106 | At least one allele. `\|` is tried before `/`: with `\|` present no allele holds `\|`, and otherwise none holds `/` or `\|`. |
| Predictors.Alternatives | vcf/predictor.py:108 | The count of non-`0` alleles is at most the number of alleles. It is 0 iff all alleles are `0`, and all of them iff none is. |
| Predictors.DosageRatio | vcf/predictor.py:89-109 | The ratio lies in [0, 1]. It is 0 iff every allele is `0`, and 1 iff none is. |
| Predictors.PipeBeforeSlash | vcf/predictor.py:101-106 | `1/0\|0` splits on `\|` into `1/0` and `0`, giving ratio 0.5. |
| Predictors.Ratios | vcf/predictor.py:118-121 | One ratio per data column, each its column's `DosageRatio`, in [0, 1]. |
| Predictors.CountForPositive | vcf/predictor.py:175-184 | A group has a column count iff some column carries its label. |
| Predictors.SumForBounds | vcf/predictor.py:177-182 | With ratios in [0, 1], a group's sum lies between 0 and its count. |
| Predictors.LabelledGroupsMeaning | vcf/predictor.py:177-184 | The `counts` keys are each label other than `---` that some column carries, each once. |
| Predictors.MeanFor | vcf/predictor.py:184 | The mean times the count is the sum. |
| Predictors.MeanBounds | vcf/predictor.py:184 | With ratios in [0, 1], every mean is in [0, 1]. |
| Predictors.Frequencies | vcf/predictor.py:175-186 | One entry per labelled group, in first-appearance order, holding the mean ratio of that group's columns. |
| Predictors.FrequenciesMeaning | vcf/predictor.py:175-186 | A group gets a frequency iff it is not `---` and labels some column; every frequency is in [0, 1]. |
| Predictors.ComputeFrequencies | vcf/predictor.py:175-186 | The loop with `counts` and `totals`, then the division, computes `Frequencies`. |
| Predictors.Tally | vcf/predictor.py:175-182 | After the loop, `counts` and `totals` hold each labelled group's sum and count, with keys in first-appearance order. |
| Predictors.GetFrequencies | vcf/predictor.py:150-186 | `from_info` never turns back on. A short row under the flag raises an index error. Otherwise the flag stays on exactly while the INFO field yields frequencies, and those are returned. When the flag is off, the computed means are returned, or an attribute error if no header set the labels. |
| Predictors.GetFrequenciesOf | vcf/predictor.py:150-186 | The method computes `GetFrequencies`. |
| Predictors.FilterGenotypes | vcf/predictor.py:142-147 | An index error iff some mapped column is beyond the row. Otherwise the ratios of the mapped columns, in the key order of the column map. |
| Predictors.ConfiguredOrderKeys | vcf/predictor.py:76-78 | Configured as `B, A` over a header `A, B`, the column map is `A:0, B:1` and its keys come in header order. |
| Predictors.ConfiguredOrderMispairs | vcf/predictor.py:128 | The filtered ratios come in header order but are zipped with the configured order, so `B` is handed `A`'s ratio. |
| Predictors.Nearest | vcf/predictor.py:239 | The first position of a least distance: the head of the stable sort. |
| Predictors.MinOf | vcf/predictor.py:240 | A least element that occurs in the list. |
| Predictors.JoaoVote | vcf/predictor.py:234-243 | Fewer than two groups raise an index error. Otherwise there is at most one vote, for a nearest group. |
| Predictors.JoaoVoteMargin | vcf/predictor.py:239-243 | For the first-listed nearest group, a vote is cast iff every other group is at least `t1` further away. |
| Predictors.MinRest | vcf/predictor.py:240 | The runner-up is `t1` beyond the nearest iff every other group is. |
| Predictors.PairVote | vcf/predictor.py:275-280 | At most one vote, cast iff the distances differ by at least `t1`. It goes to the strictly closer group, or to the second group on a tie. |
| Predictors.PairVotesBound | vcf/predictor.py:272-281 | At most one vote per pair, each for a group of its pair. |
| Predictors.MarianaVote | vcf/predictor.py:271-281 | The loop over `combinations(freqs, 2)` appends each pair's vote in order. |
| Predictors.MarianaBound | vcf/predictor.py:271-281 | At most k(k-1)/2 votes over k groups, each for one of the groups. |
| Predictors.VotesForMeaning | vcf/predictor.py:234-281 | The same facts for the specification `VotesFor`: only Joao raises, only below two groups; votes name groups; at most one vote, or one per pair. |
| Predictors.CastVotes | vcf/predictor.py:234-281 | Only Joao's rule raises, with an index error, and only with fewer than two groups. Every vote names a group. Joao casts at most one vote; Mariana casts at most one per pair of groups, k(k-1)/2 over k groups. |
| Predictors.Deal | vcf/predictor.py:128-136 | The individual loop never adds or removes a structure. |
| Predictors.DealAppends | vcf/predictor.py:128-136 | A row that raises nothing appends to each structure exactly the votes of the ratios paired with its individual, in order. |
| Predictors.DealOneAppends | vcf/predictor.py:135-136 | A successful step appends its votes to its own individual only. |
| Predictors.CachedVotes | vcf/predictor.py:129-133 | The cache only holds what voting would return, so using it changes no vote. |
| Predictors.DealVotes | vcf/predictor.py:126-136 | The loop with its `cache` computes `Deal`. |
| Predictors.VoteCountPositive | vcf/predictor.py:249 | A group has votes iff it was voted for. |
| Predictors.TopIndex | vcf/predictor.py:249 | The first position of a greatest count: the head of the stable `most_common`. |
| Predictors.MaxOf | vcf/predictor.py:250 | A greatest element that occurs in the list. |
| Predictors.MarginMonotone | vcf/predictor.py:250-253 | A smaller lead gives a smaller margin, relative or not. |
| Predictors.Label | vcf/predictor.py:245-258 | Fewer than two distinct voted groups raise an index error. Otherwise the label is `---` or a voted group. |
| Predictors.LabelMostVoted | vcf/predictor.py:249-256 | A label other than `---` is a most voted group. |
| Predictors.LabelChoosesTop | vcf/predictor.py:245-258 | Take the first most-voted group in order of first vote. The label is that group iff its margin over every other voted group reaches `t2`; the margin is relative to its count when `0 < t2 < 1`. Otherwise the label is `---`. |
| Predictors.LeadMargin | vcf/predictor.py:250-255 | The runner-up trails by the margin iff every other count does. |
| Predictors.LabelsAfterFails | vcf/predictor.py:248-250 | `terminate` raises iff some individual has fewer than two distinct voted groups, and then with an index error. |
| Predictors.LabelsAfterSets | vcf/predictor.py:248-258 | When nothing raises, every individual gets the label of its own votes. |
| Predictors.AssignLabels | vcf/predictor.py:248-258 | The loop computes `LabelsAfter`; labels set before a failing individual stay set. |
| Predictors.PopulationLabels | vcf/predictor.py:69-73 | One label per header column. |
| Predictors.PopulationLabelsOfLog | vcf/predictor.py:69-73 | An individual never added is labelled `---`, and any other label is a group it was added with. |
| Predictors.PredictRow | vcf/predictor.py:117-136 | `from_info` never turns back on, and no structure is added or removed. |
| Predictors.PredictRowAppends | vcf/predictor.py:117-136 | A row that raises nothing appends to each individual's structure the votes of the ratios paired with it, in order. |
| Predictors.ProcessRow | vcf/predictor.py:117-136 | The method computes `PredictRow`. |
| Predictors.FractionBounds | vcf/predictor.py:108-109 | A count over a positive total lies in [0, 1]. It is 0 iff the count is 0, and 1 iff the count is the total. |
| Predictors.NearestIsFirstLeast | vcf/predictor.py:239 | A group that is nearest and strictly nearer than every group before it is the one the stable sort puts first. |
| Predictors.RunnerUpMargin | vcf/predictor.py:240-242 | Joao's threshold holds for the runner-up iff it holds for every other group. |
| Predictors.TopCounted | vcf/predictor.py:249 | The group `most_common` puts first was voted for, and no group has more votes. |
| Predictors.TopIsFirstGreatest | vcf/predictor.py:249 | A count that no other exceeds, and that beats all earlier counts, is the one `most_common` puts first. |
| Predictors.PickLeads | vcf/predictor.py:250-256 | The label is the top group iff it leads every other count by the margin; otherwise it is `---`. |
| Predictors.OthersMargin | vcf/predictor.py:250-255 | The margin test on the counts is the margin test on the votes themselves. |
| Predictors.LabelsStop | vcf/predictor.py:248-250 | Once an individual raises, the later individuals are not labelled. |
| Predictors.Predictor.constructor | vcf/predictor.py:24-42 | A new predictor has no filter, count 0, an empty column map, `from_info` off and no structures or labels. |
| Predictors.Predictor.SetPopulations | vcf/predictor.py:45-49 | Stores the population and the list. `from_info` holds iff the groups are exactly the five super-populations. |
| Predictors.Predictor.SetPolymorphisms | vcf/predictor.py:52-53 | The filter holds exactly the given identifiers. |
| Predictors.Predictor.ProcessIndividuals | vcf/predictor.py:60-86 | Before `set_populations` it raises an attribute error. Otherwise: <ul><li>with no list, the header is used;</li><li>every column gets its population label;</li><li>every configured individual gets an empty structure;</li><li>the column map grows by `HeaderIndex`;</li><li>it raises exactly `Missing`.</li></ul> |
| Predictors.Predictor.ReadHeader | vcf/predictor.py:66-86 | The same as `ProcessIndividuals`, once `set_populations` has run. |
| Predictors.Predictor.Restructure | vcf/predictor.py:66-74 | Population labels per column and one empty structure per configured individual. |
| Predictors.Predictor.MapHeaderOf | vcf/predictor.py:76-86 | The header loop and the missing-individual check. |
| Predictors.Predictor.ProcessData | vcf/predictor.py:112-139 | With a filter, a short row raises and an unlisted row is skipped, each leaving the state unchanged. Otherwise the count rises by one for a listed row, and the state becomes `PredictRow`'s. `terminate_early` is set once the count reaches the size of a non-empty filter. |
| Predictors.Predictor.Terminate | vcf/predictor.py:245-258 | Without structures it raises an attribute error. Otherwise the labels become `LabelsAfter` in the structures' key order. |
| Predictors.Predictor.Handle | vcf/predictor.py:56-139 | A header goes to `process_individuals`: an attribute error before `set_populations`, otherwise fresh empty structures for the configured individuals (or the header's) and the column map grown by `HeaderIndex`. A listed data row goes to `process_data`: the structures become `PredictRow`'s. Other events change nothing. |
| Predictors.Predictor.Step | vcf/handler.py:43-69 | A dispatch error is returned as is. Otherwise the flag is updated and the hook of the line's kind runs. A meta line changes neither structures nor map. A header rebuilds the structures and remaps the columns. A listed data row gives the structures of `PredictRow`. |
| Predictors.Predictor.Run | vcf/handler.py:33-71 | A run that raised nothing has read every line as `Scan` does and has built the structures. |
| Populations.ForwardKeys | vcf/population.py:51-56 | `has_individual(x)` holds exactly for identifiers that were added. |
| Populations.ForwardLastWins | vcf/population.py:25 | The recorded group of `x` is the one given by the last call that added `x`. |
| Populations.MembersExactly | vcf/population.py:26 | A group's list holds exactly the identifiers added with that group. |
| Populations.ConsistentWhenUnique | vcf/population.py:21-26 | When no identifier is added twice, the two maps agree: `x` is in `g`'s list iff `x` maps to `g`. |
| Populations.ForwardHasEntry | vcf/population.py:25 | The recorded group of `x` comes from a call that added `x`. |
| Populations.ReAddLeavesStaleEntry | vcf/population.py:25-26 | Re-adding `x` to another group moves the forward entry but leaves `x` in the old group's list. |
| Populations.NoGroupNoMembers | vcf/population.py:17 | A group never named has an empty list. |
| Populations.AddRepresents | vcf/population.py:19-26 | `add_individual` keeps the four structures equal to those the calls so far build. |
| Populations.Population.constructor | vcf/population.py:15-17 | An empty registry with no calls recorded. |
| Populations.Population.AddIndividual | vcf/population.py:19-26 | The forward entry is (re)set and the identifier appended to its group's list, created if new. No other list changes, and the call is recorded. |
| Populations.Population.Individuals | vcf/population.py:28-33 | Every added identifier once, and nothing else. |
| Populations.Population.Groups | vcf/population.py:35-40 | Every group used once, and nothing else. |
| Populations.Population.Items | vcf/population.py:42-49 | Each group in `groups()` order, with exactly the identifiers added to it, in call order. |
| Populations.Population.HasIndividual | vcf/population.py:51-56 | True iff the identifier was ever added. |
| Text.LessIrreflexive | two_way_dict.py:25 | No string is less than itself under Python's `<`. |
| Text.LessAsymmetric | two_way_dict.py:25 | `a < b` excludes `b < a`. |
| Text.LessTotal | two_way_dict.py:25 | Two different strings are ordered one way or the other. |
| Text.LessTransitive | two_way_dict.py:25 | Python's string `<` is transitive. |
| TwoWayDicts.NormalizeKey | two_way_dict.py:23-28 | The result is the pair or its swap, with the smaller element (by Python `<`) first. |
| TwoWayDicts.NormalizeSymmetric | two_way_dict.py:23-28 | `(a, b)` and `(b, a)` normalize to the same key. |
| TwoWayDicts.NormalizeIdempotent | two_way_dict.py:23-28 | Normalizing twice changes nothing. |
| TwoWayDicts.NormalizeSameKey | two_way_dict.py:23-28 | Two pairs share a key iff they are the same pair in either order. |
| TwoWayDicts.FromItems | two_way_dict.py:15 | Only normalized keys are stored. |
| TwoWayDicts.FromItemsLastWins | two_way_dict.py:15 | Among items sharing a normalized key, the last one wins. |
| TwoWayDicts.FromItemsKeys | two_way_dict.py:15 | A key is present iff some item normalizes to it. |
| TwoWayDicts.TwoWayDict.constructor | two_way_dict.py:7-15 | Empty for `items=None`, otherwise the comprehension over the items; only normalized keys are stored. |
| TwoWayDicts.TwoWayDict.Set | two_way_dict.py:17-18 | Stores under the normalized key; every other key keeps its value. |
| TwoWayDicts.SetThenGet | two_way_dict.py:17-21 | After `d[a, b] = v`, both `d[a, b]` and `d[b, a]` find `v`. |
| TwoWayDicts.TwoWayDict.Get | two_way_dict.py:20-21 | Either order of the pair finds the same stored value; a pair never set raises a key error. |
| Text.Split | vcf/handler.py:49 | `str.split(c)` yields at least one piece, and no piece holds `c`. |
| Text.JoinSplit | vcf/handler.py:49 | Joining the pieces of `s.split(c)` with `c` gives `s` back. |
| Text.SplitJoin | vcf/comparer.py:165-170 | Splitting a join of `c`-free pieces gives the pieces back. |
| Text.SplitHead | vcf/comparer.py:162 | `s.split(c)[0]` is the text before the first `c`, or all of `s`. |
| Text.Find | compare.py:37 | `str.find(c)` is -1 iff `c` is absent. Otherwise it is the first position of `c`. |
| Text.RStrip | vcf/handler.py:44 | `rstrip(c)` removes exactly the trailing run of `c`: the result is a prefix that does not end in `c`. |
| Text.Strip | compare.py:40 | `strip()` leaves neither end whitespace, keeps only characters of its input, and never lengthens it. |
| Text.StripMeaning | compare.py:40 | `strip()` is `s[i..j]` where everything before `i` and from `j` on is whitespace. With `Text.Strip`'s ends-clause this means exactly the leading and the trailing run of whitespace are removed. |
| Text.StripStripped | compare.py:40 | A string with no whitespace at either end is left as it is. |
| Text.SplitWords | compare.py:46 | Every field of `str.split()` is a non-empty run of non-whitespace. |
| Text.SplitWordsEmpty | compare.py:46 | `str.split()` gives no fields iff the text is all whitespace. |
| Text.SplitWordsWord | compare.py:46 | A single word gives exactly one field, itself. |
| Text.SplitWordsAt | compare.py:46 | A whitespace character separates fields: the fields of `a + c + b` are those of `a` followed by those of `b`. |
| Text.SplitWordsJoin | compare.py:46 | Words joined by single spaces split back into the same words, and so into as many fields as there were words. |
| Itertools.CombinationsLength | vcf/comparer.py:65 | `combinations(s, 2)` yields `n(n-1)/2` pairs. |
| Itertools.CombinationsMember | vcf/comparer.py:65 | `(a, b)` is yielded iff `a` comes before `b` in the input. |
| Itertools.CombinationsWithReplacementLength | compare.py:67 | `combinations_with_replacement(s, 2)` yields `n(n+1)/2` pairs. |
| Itertools.CombinationsWithReplacementDistinct | compare.py:67 | Over distinct groups, no pair repeats. |
| Itertools.ProductLength | compare.py:74 | `product(s, t)` yields `\|s\| * \|t\|` pairs. |
| Itertools.ProductMember | compare.py:74 | `(a, b)` is yielded iff `a` is in `s` and `b` is in `t`. |
| Itertools.Unique | vcf/comparer.py:50-52 | A dictionary's keys in insertion order: every inserted key once, and nothing else. |
| Text.CleanLine | compare.py:34-40 | The cleaned line holds no `#` and has no whitespace at either end. |
| Text.CleanLineMeaning | compare.py:34-40 | After trailing newlines are removed, the cleaned line is the `strip()` of the text before the first `#`, or of the whole line when it has no `#`. Equivalently it is `strip()` of the first piece of `split('#')`. |
| Text.CleanLineIdempotent | compare.py:34-40 | Cleaning a cleaned line changes nothing. |
| CompareTool.ParseLine | compare.py:33-53 | A line gives no entry iff it is blank once cleaned. It raises iff it is non-blank and does not hold exactly 2 fields. The error names the cleaned line and its field count. Both fields of an entry are words. |
| CompareTool.ParseLineFields | compare.py:46-52 | A line yields `(id, group)` iff it splits into exactly those two fields once cleaned. |
| CompareTool.PresentMember | compare.py:42-53 | An entry is kept iff some line produced it. |
| CompareTool.PopulationEntriesError | compare.py:46-50 | Parsing fails iff some line keeps a field count other than 2 after cleaning. The error is that of the first such line, all earlier lines being valid. |
| CompareTool.PopulationEntriesMember | compare.py:52-53 | On success, an entry is added iff some line yields it. |
| CompareTool.ParsedGroupMembers | compare.py:52-53 | In the parsed registry, `x` is in `g`'s list iff some line names `x` with `g`. |
| CompareTool.PopulationEntriesSnoc | compare.py:33-53 | Each further line either raises or appends its entry, if any, in file order. |
| CompareTool.PopulationEntriesStops | compare.py:48-50 | After a raise, the rest of the file is not read. |
| CompareTool.ParsePopulation | compare.py:25-55 | Raises iff `PopulationEntries` fails, with the same error. On success, a fresh registry whose calls are exactly the entries, in file order. |
| CompareTool.OffDiagonalMember | compare.py:75 | A pair survives the filter iff it joins two different identifiers. |
| CompareTool.OffDiagonalProduct | compare.py:72-78 | When every identifier of the first list is in a second list of distinct identifiers, each is paired with all but itself: `\|s\| * (\|t\| - 1)` pairs. Within one group that is `n * (n - 1)`. |
| CompareTool.GroupPairsMeaning | compare.py:72-78 | `(a, b)` is compared iff `a` is in the first list, `b` is in the second, and `a != b` within one group. That gives `n1 * n2` pairs across groups and `n(n-1)` within a group of distinct identifiers. |
| CompareTool.GroupValuesMeaning | compare.py:72-78 | One value per compared pair, in order: `compare` of that pair. |
| CompareTool.DistancesByGroupMeaning | compare.py:67-80 | Exactly one key per `combinations_with_replacement` pair of groups, in that order and each once, holding that pair's value list. It raises iff some value list does. |
| CompareTool.GetDistancesByGroup | compare.py:58-82 | The loop computes `DistancesByGroup` over the population's groups and lists. |
| CompareTool.ModelOfMeaning | compare.py:93-110 | One within-group list per group, in order, with `n(n-1)/2` values. One between-group list per pair of distinct groups, in `combinations` order, with `n1 * n2` values. |
| CompareTool.MakeModel | compare.py:85-112 | The two loops compute `ModelOf`: within-group lists from `items()`, between-group lists from `combinations(groups())`. |
| CompareTool.TestTableMeaning | compare.py:124-129 | One row per test individual and one entry per training group, in order. Each entry lists `compare(individual, member)` for every member of the group, in order. |
| CompareTool.CompareWithGroups | compare.py:126-129 | The inner loop computes `TestRow`. |
| CompareTool.CompareTestIndividuals | compare.py:115-131 | The outer loop over the test individuals computes `TestTable`. |
| PredictTool.NonBlankMember | predict.py:91-95 | An entry is kept iff it is non-blank. |
| PredictTool.Polymorphisms | predict.py:80-97 | The result is no longer than the file. |
| PredictTool.PolymorphismsShape | predict.py:82-95 | Every identifier read is non-empty, holds no `#`, and has no whitespace at either end. |
| PredictTool.PolymorphismsAppend | predict.py:82-95 | Reading two parts of a file gives the two lists concatenated, keeping order and duplicates. |
| PredictTool.PolymorphismsMember | predict.py:82-95 | An identifier is listed iff it is non-empty and some line cleans to it. |
| PredictTool.PolymorphismsSnoc | predict.py:82-95 | Each further line appends its cleaned text, unless that is blank. |
| PredictTool.ReadPolymorphisms | predict.py:80-97 | The loop computes `Polymorphisms`. |
| RawComparers.ExtractGtPrefix | comparers.py:7-8 | `extract_gt` is a prefix of the field, followed by `:` when something was cut. It is the whole field when there is no `:`. |
| RawComparers.Differences | comparers.py:19-24 | The count lies in `0..min(len)`. |
| RawComparers.DifferencesSymmetric | comparers.py:19-24 | Swapping the lists changes nothing. |
| RawComparers.DifferencesSelf | comparers.py:19-24 | A list never differs from itself. |
| RawComparers.DifferencesTruncated | comparers.py:20 | Only the first `min(len)` positions count, as `zip` truncates. |
| RawComparers.PhasingCounts | comparers.py:23 | GT texts are compared as strings, not as allele sets, so `0\|1` against `1\|0` counts as a difference. |
| RawComparers.DefaultCompare | comparers.py:11-26 | An unknown `id1`, then an unknown `id2`, raises. Otherwise the result is the number of positions where the GT texts differ. |
| RawComparers.DefaultCompareSymmetric | comparers.py:20-24 | The result is symmetric in `id1`/`id2`, and 0 for an individual compared with itself. |
| ParseVcf.ValuesForDistinct | parse_vcf.py:38-39 | Under distinct identifiers, an identifier receives its own column of the zip, or nothing when `zip` truncated before it. |
| ParseVcf.AppendColumns | parse_vcf.py:38-39 | The appends never add or remove a key. |
| ParseVcf.AppendColumnsValues | parse_vcf.py:38-39 | Each list receives exactly the values zipped with its identifier, in order, after what it held. |
| ParseVcf.Step | parse_vcf.py:11-39 | A `##` line changes nothing. A data row raises iff no header was read, and then with an unbound-name error. |
| ParseVcf.StepHeader | parse_vcf.py:17-31 | A header splits its columns at `first_individual`, losing none. It resets `meta_values` and gives every identifier an empty list. |
| ParseVcf.StepData | parse_vcf.py:33-39 | A data row appends its first `first_individual` columns to `meta_values` and zips the rest onto the identifiers' lists. It keeps the header and adds no key. |
| ParseVcf.StepDataColumn | parse_vcf.py:38-39 | Under distinct identifiers, the identifier of column `first_individual + j` gets that column when the row has it, and nothing otherwise. |
| ParseVcf.Fold | parse_vcf.py:11-39 | Every identifier of the header has a list. |
| ParseVcf.FoldFails | parse_vcf.py:33-36 | The loop fails iff a data row comes before every header line, and then with an unbound-name error. A header is bound iff some line is one. |
| ParseVcf.ParsedFails | parse_vcf.py:33-45 | `parse` fails, with an unbound-name error, iff a data row comes before every header or there is no header at all. |
| ParseVcf.ListsBounded | parse_vcf.py:36-39 | Under distinct identifiers, no identifier's list is longer than `meta_values`. |
| ParseVcf.Parse | parse_vcf.py:4-45 | The loop computes `Parsed`. |
| ParseVcf.AppendRow | parse_vcf.py:38-39 | The `zip` loop computes `AppendColumns`. |
| ParseVcf.FoldStops | parse_vcf.py:33-36 | After a failure, the rest of the file is not read. |

## Left out

- Command-line parsing and the `main` functions of compare.py, predict.py, extract.py and store_pickle.py: these are plumbing. extract.py (a network download) and store_pickle.py (pickle serialisation) are not part of this model.
- File opening and gzip decompression (parse_vcf.py:10, compare.py and predict.py): every reader takes its file as a sequence of lines.
- `Printer` (vcf/handler.py:130-163), the report printers of compare.py and all `print` output.
- `Model.compute_stats` (vcf/model.py) and the `Model` container: vcf/model.py is not part of this model.
  - `CompareTool.MakeModel` and `CompareTool.CompareTestIndividuals` return the value lists handed to the model and to `compute_stats`, not their statistics.
  - So `compute_stats` raising on an empty list is not modelled.
- `RandomComparer` (vcf/comparer.py:190-217) and `random_compare` (comparers.py:29-30): they depend on `random` and on Python's salted `hash`. The random test split of predict.py is left out for the same reason.
- The INFO-field branch of `get_frequencies` (vcf/predictor.py:157-173) parses floats and iterates over a set in hash order. It is the function parameter `info`; only the `from_info` flag it drives is modelled.
- Floating point: ratios, frequencies and margins are exact `real`s, where Python uses floats.
- The base-class hooks that raise `NotImplementedError` and the identity `Comparer.process_variant`: only the concrete `DefaultComparer`, `PredictorJoao` and `PredictorMariana` behaviour is modelled. The comparer's `init_factory` is fixed to `int`, so counters start at 0.
- Aliasing: `set_populations` copies the population's forward map into the predictor (`Predictors.Predictor.SetPopulations`) instead of sharing the object. The population is read-only while a file is read.
- `terminate_early` is set and modelled, but nothing reads it.
- `process_data` overwrites the comparer's row list in place. The model checks the two ways that loop can raise (`Comparers.CheckColumns`) and then counts on the parsed columns. The mutated list itself is not represented.
- `PredictTool.ReadPolymorphisms` and `CompareTool.ParsePopulation` call `Text.CleanLine` for the newline/comment/strip steps rather than spelling them out in the loop.
- `CompareTool.GroupPairsMeaning`: the `n(n-1)` count is stated only for a group whose identifiers are distinct. With a repeated identifier, the `id1 != id2` filter drops more pairs.
- `CompareTool.ModelOfMeaning`: requires distinct group names, which `groups()` guarantees (`Populations.Population.Groups`).
- `ParseVcf.StepDataColumn` and `ParseVcf.ListsBounded`: stated for headers whose identifiers are distinct. With a repeated identifier, one list receives several columns of the same row.
- `Comparers.DefaultComparer.Run` and `Predictors.Predictor.Run`: these do not restate the final counters or labels in terms of the whole stream. They state per-line agreement with `Handlers.Scan`. The per-hook contracts (`ProcessIndividuals`, `ProcessData`, `Terminate`) and `Comparers.TerminatedCounts` carry the content.
- `Predictors.PredictRow`: its own contract only keeps `from_info` off once off and the set of structures fixed. Its content is stated by `Predictors.PredictRowAppends` and by the contracts of the functions it calls.
- `Predictors.Deal`: its own contract only fixes the keys of the structures. What is appended is stated by `Predictors.DealAppends`.
