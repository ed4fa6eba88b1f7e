# Greedy weighted multicover for kanji reading materials

This project models the core of the `Multicover` tool in Dafny. The tool picks a cheap set of
reading materials (paragraphs of Japanese text) so that every kanji of a syllabus (the N5 list)
is met at least `r` times.

- Each material has a cost (its length in characters) and covers the set of syllabus kanji it contains.
- `Multicover/data_collection.py` produces the materials. It splits pasted text into
  paragraphs, extracts each paragraph's syllabus kanji in first-occurrence order, and writes
  one row `(name, cost, kanji)` per paragraph that holds at least one kanji.
- `Multicover/multicover.py` does the selection:
  - it loads the rows, up to a limit;
  - it counts each kanji's availability (how many materials contain it);
  - it runs a greedy weighted multicover. Each round takes the remaining material with the best
    ratio of still-needed kanji to cost, where the need of each kanji starts at
    `min(r, availability)` and drops by one per selected material that contains it.

The syllabus, which is a hard-coded literal in the source, is a parameter (`universe` / `kanji`)
throughout.

Files:

- `wrappers.dfy`: `Option`.
- `seqs.dfy`: `Distinct`, shared by the solver and the row builder.
- `text.dfy`: Python's `isspace`, `strip`, `replace`, and `str`/`int` on decimal digit strings.
- `catalog.dfy`: `load_materials` and `compute_availability`.
- `greedy.dfy`: `greedy_weighted_multicover`. It is specified by a greedy-trace predicate; the
  loop keeps `need` and `cov` in step with the selection.
- `greedy_props.dfy`: what a solve means.
  - The greedy choice is unique, so the selection is determined.
  - Needs stay within their caps.
  - Coverage is monotone and bounded by availability.
  - The solver always meets the clamped requirement.
- `report.dfy`: the total cost and the scarcity list printed by `main`.
- `paragraphs.dfy`: `split_paragraphs`, with the regular expression `\n\s*\n+` written out.
- `collection.dfy`: `extract_n5_kanji` and the row-building loop of `main` in `data_collection.py`.
- `scenario.dfy`: a worked three-material solve, proved to select `[1, 0]` at total cost 3,
  and the fate of a kanji that no material contains.

How scores are compared:

- Scores (`gain / cost`) are compared exactly, by cross-multiplication through `Greedy.Mul`. This is
  valid because every cost is at least 1.
- `remaining = set(range(m))` holds small integers that are never re-inserted, so CPython
  iterates it in ascending order. It is modelled as an ascending sequence.
- With the strict `>` of the scan, ties therefore go to the lowest index.

Where the code and its natural reading differ, the model follows the code.

- The "no candidate has a positive gain" exit is read as "some requirement is unsatisfiable".
  For `r >= 0` that exit is never taken with an element still needed: each need starts at
  `min(r, avail[u])`, so an element still needed always has a holder that was not selected
  (`GreedyProps.MeetsClampedNeed`).
- With `r < 0`, every need starts negative. Nothing is selected, the solver stops at the
  no-gain exit, and `need` stays negative (`GreedyProps.NegativeRequirementSelectsNothing`).
  So `0 <= need[u]` holds only for `r >= 0` (`GreedyProps.NeedWithinInitial`).
- `load_materials` strips the payload before it takes the universe characters. The model does
  the same. It makes no difference while the universe holds no whitespace.

## Model

| member | source | states |
|---|---|---|
| Text.IsSpace | Multicover/data_collection.py:46-49 | `str.isspace`, and `\s` in a `re` pattern over `str`, by definition: the explicit set of code points CPython treats as whitespace |
| Text.Strip | Multicover/data_collection.py:46 | Python `str.strip()` by definition: whitespace is removed from the front, then from the back; the result is never longer than the input |
| Text.StripSlice | Multicover/data_collection.py:46 | a stripped string is one contiguous slice of its input, and only whitespace lies outside that slice, so no interior character is dropped |
| Text.StripEnds | Multicover/data_collection.py:50 | a stripped string is no longer than its input and is empty or starts and ends with a non-whitespace character |
| Text.StripChars | Multicover/data_collection.py:46-48 | stripping adds no character and keeps every non-whitespace one; the result is empty exactly when the input is whitespace only |
| Text.StripIdempotent | Multicover/data_collection.py:50 | stripping twice equals stripping once |
| Text.Replace | Multicover/data_collection.py:45 | Python `str.replace` by definition: non-overlapping occurrences, found left to right, are replaced; the result holds only characters of the input and of the replacement |
| Text.ReplaceCharRemoves | Multicover/data_collection.py:45 | replacing a character by a different one leaves no occurrence of it |
| Text.Decimal | Multicover/data_collection.py:92-94 | `str(n)` for a natural number: at least one character, digits only, and no leading zero unless `n` is 0 |
| Text.ParseDigits | Multicover/multicover.py:28 | `int(s)` restricted to digit strings: `None` exactly when the text is empty or holds a non-digit |
| Text.DecimalOfParsed | Multicover/multicover.py:28 | the other round trip: writing back the value of a digit string without a leading zero gives the same string (`str(int(s)) == s`) |
| Text.ParseDecimal | Multicover/data_collection.py:93-94 | reading back the decimal text of a natural number (`int(str(n))`) gives `n` |
| Catalog.CoerceCost | Multicover/multicover.py:27-32 | the cost is at least 1; a parsed positive value is kept, and a failed parse or a non-positive value becomes exactly 1 |
| Catalog.Coverage | Multicover/multicover.py:34-35 | a record's coverage lies within the universe |
| Catalog.CoverageChars | Multicover/multicover.py:34-35 | the coverage holds only universe characters of the payload, and every universe character of the payload that is not whitespace (all of them, for a universe without whitespace) |
| Catalog.Cap | Multicover/multicover.py:24 | the bound the loader compares against: the given limit, or `10**12` when there is none |
| Catalog.Outcomes | Multicover/multicover.py:23-41 | one verdict per record, in order: rejected exactly when the record covers no universe element, otherwise carrying the coerced cost and the coverage |
| Catalog.Accept | Multicover/multicover.py:26-41 | a record is rejected exactly when its coverage is empty; an accepted material has cost >= 1 and a non-empty coverage within the universe |
| Catalog.KeepAppend | Multicover/multicover.py:36-41 | filtering preserves order: the materials of two stretches of records are those of the first followed by those of the second |
| Catalog.KeepFrom | Multicover/multicover.py:36-41 | every kept material is the verdict of some record |
| Catalog.AcceptedWellFormed | Multicover/multicover.py:27-41 | every material loaded from the records has cost >= 1 and a non-empty coverage within the universe |
| Catalog.AcceptedStep | Multicover/multicover.py:36-41 | each record appends its material, if any, at the end, so source order is kept and rejected records add nothing |
| Catalog.LoadStep | Multicover/multicover.py:26-41 | one iteration of the loader's loop extends the three parallel lists exactly as the accepted list grows |
| Catalog.LoadMaterials | Multicover/multicover.py:15-43 | the three lists have equal length and, read together, are the accepted materials of the records scanned; scanning stops at the end of the source or as soon as the accepted count reaches the limit |
| Catalog.LoadWithinCap | Multicover/multicover.py:24-25 | the loader returns no more materials than its limit |
| Catalog.StopsOnReachingCap | Multicover/multicover.py:24-25 | for a limit of 0 or more, a load that stops before the end of the source holds exactly `limit` materials (none, for limit 0), so later records are never inspected |
| Catalog.StopsAtUnique | Multicover/multicover.py:23-25 | where scanning stops is determined by the records and the limit |
| Catalog.CapOneStopsAfterFirst | Multicover/multicover.py:24-25 | with limit 1 and an acceptable first record, exactly one record is scanned and it is the one loaded |
| Catalog.HoldersStep | Multicover/multicover.py:48-50 | each set adds one to the count of every element it contains and nothing to the others |
| Catalog.HoldersBound | Multicover/multicover.py:45-51 | an element's availability is at most the number of materials |
| Catalog.HoldersEmpty | Multicover/multicover.py:45-51 | availability is 0 exactly when no material contains the element |
| Catalog.ComputeAvailability | Multicover/multicover.py:45-51 | the map has exactly the universe as keys, and `avail[u]` is the number of indices whose set contains `u` |
| Greedy.NeedAfter | Multicover/multicover.py:101-103 | a non-negative need stays within `[0, init]` and reaches 0 exactly when covered `init` times; a need that is not positive never changes |
| Greedy.RatioStep | Multicover/multicover.py:88-91 | helper for `Greedy.SelectBest`: gain/cost comparisons are transitive when one is strict, so the running best of the scan beats every earlier material |
| Greedy.CountGain | Multicover/multicover.py:81-85 | the counted gain is the number of the material's elements whose need is positive |
| Greedy.SelectBest | Multicover/multicover.py:77-94 | `None` exactly when no remaining material has a positive gain; otherwise the pick has a positive gain and the best ratio among the remaining materials, and the lowest index among those with that ratio |
| Greedy.ApplyExposure | Multicover/multicover.py:100-104 | every element of the selected material has its positive need lowered by one and its coverage raised by one; all other entries are unchanged |
| Greedy.Without | Multicover/multicover.py:98 | removing an index keeps every other index and only them |
| Greedy.WithoutIncreasing | Multicover/multicover.py:68 | `remaining` stays in ascending order after a removal |
| Greedy.WithoutLength | Multicover/multicover.py:98 | removing an index that is present shortens `remaining` by exactly one |
| Greedy.CoveredAppend | Multicover/multicover.py:97-104 | selecting a new material raises the number of selected holders of `u` by one exactly when it contains `u` |
| Greedy.CoveredWithinHolders | Multicover/multicover.py:70 | the selected materials that contain `u` are among all materials that contain it, so `cov[u] <= avail[u]` |
| Greedy.TotalNeedMono | Multicover/multicover.py:101-103 | lowering needs pointwise lowers the total outstanding need |
| Greedy.TotalNeedDrops | Multicover/multicover.py:101-103 | lowering needs pointwise, one of them strictly, strictly lowers the total |
| Greedy.ExposureLowersTotal | Multicover/multicover.py:100-104 | exposing a material with positive gain strictly lowers the total outstanding need |
| Greedy.BookkeptNeedAt | Multicover/multicover.py:63 | kept bookkeeping means `need` is the initial need lowered by each element's exposures |
| Greedy.BookkeptStep | Multicover/multicover.py:97-104 | after one selection and its exposures, `cov[u]` still counts the selected holders of `u` and `need[u] = NeedAfter(init[u], cov[u])` |
| Greedy.PartitionedPool | Multicover/multicover.py:68-69 | the remaining indices are exactly the indices not yet selected |
| Greedy.PartitionedStep | Multicover/multicover.py:97-98 | moving the pick from `remaining` to the selection keeps the two a partition of `0..m-1`, and the selection distinct |
| Greedy.TraceStep | Multicover/multicover.py:80-97 | appending the greedy choice for the current state extends a greedy trace |
| Greedy.SelectStep | Multicover/multicover.py:77-98 | a greedy pick from `remaining` keeps the partition and extends the trace |
| Greedy.ExposeStep | Multicover/multicover.py:100-104 | the exposures of a pick keep the bookkeeping and strictly lower the total need |
| Greedy.AllMetNoGain | Multicover/multicover.py:65-66 | when no element is needed, no material has a positive gain |
| Greedy.Rounds | Multicover/multicover.py:68-104 | the loop ends with the bookkeeping kept; the selection is distinct, in range and a greedy trace; no unselected material has a positive gain; and there are at most `m` and at most Σ initial need rounds |
| Greedy.GreedyWeightedMulticover | Multicover/multicover.py:53-106 | `avail` counts holders; `need` starts at `min(r, avail[u])` and `cov` counts selected holders. The selection is the distinct, in-range greedy trace and ends when no unselected material has a positive gain, within `m` and Σ initial need rounds. When every initial need is 0 it returns nothing selected, the initial need and all-zero coverage |
| GreedyProps.GreedyChoiceUnique | Multicover/multicover.py:86-91 | at most one material is the greedy choice for a given state |
| GreedyProps.TraceAt | Multicover/multicover.py:73-98 | every prefix of a greedy trace is a greedy trace, and the next selection is the greedy choice after it |
| GreedyProps.TracesAgree | Multicover/multicover.py:73-98 | of two greedy traces from the same start, the shorter is a prefix of the longer |
| GreedyProps.TraceEndsAtNoImprovingMove | Multicover/multicover.py:93-94 | a greedy trace that has reached a state without an improving move cannot be extended |
| GreedyProps.SelectionDetermined | Multicover/multicover.py:53-106 | two solves over the same catalog and requirement return the same selection |
| GreedyProps.NeedWithinInitial | Multicover/multicover.py:63 | for `r >= 0`, every need stays within `[0, min(r, avail[u])]` |
| GreedyProps.CoverageWithinAvailability | Multicover/multicover.py:104 | `0 <= cov[u] <= avail[u]` |
| GreedyProps.CoverageMonotone | Multicover/multicover.py:104 | `cov[u]` never decreases as the selection grows |
| GreedyProps.ProperSubsetHasExtra | Multicover/multicover.py:45-51 | helper for `GreedyProps.MeetsClampedNeed`, a fact about finite sets: fewer selected holders than holders means some holder is unselected |
| GreedyProps.UnselectedHolderHelps | Multicover/multicover.py:80-87 | an unselected material containing a still-needed element has a positive gain |
| GreedyProps.MeetsClampedNeed | Multicover/multicover.py:73-94 | on return, no element has a positive need and each is covered at least `min(r, avail[u])` times; for `r >= 0` every need is 0 |
| GreedyProps.NegativeRequirementSelectsNothing | Multicover/multicover.py:63 | with `r < 0`, no greedy selection is possible and every need stays negative |
| Report.TotalCost | Multicover/multicover.py:126 | `sum(costs[i] for i in C_indices)` by definition |
| Report.TotalCostAppend | Multicover/multicover.py:126 | the total cost of two selections in a row is the sum of their totals |
| Report.TotalCostAtLeastCount | Multicover/multicover.py:126 | with every cost at least 1, the total cost is at least the number of selected materials |
| Report.Least | Multicover/multicover.py:133 | the least element of a non-empty set of characters belongs to it and is below all others |
| Report.SortedChars | Multicover/multicover.py:133 | `sorted(U)` by definition: repeatedly take the least remaining element; it has one entry per element of `U` |
| Report.SortedCharsMembers | Multicover/multicover.py:133 | `sorted(U)` lists exactly the elements of `U`, each once |
| Report.SortedCharsOrdered | Multicover/multicover.py:133 | `sorted(U)` is strictly ascending |
| Report.ScarceFrom | Multicover/multicover.py:133 | the filter of the comprehension by definition: keep `(u, avail[u])` when `avail[u] < r`, in order; never longer than its input |
| Report.Scarce | Multicover/multicover.py:133 | `[(u, avail[u]) for u in sorted(U) if avail[u] < r]` by definition; it has at most one entry per element of `U` |
| Report.ScarceFromMembers | Multicover/multicover.py:133 | an entry is kept exactly when its availability is below `r`, and it carries that availability |
| Report.ScarceFromOrdered | Multicover/multicover.py:133 | filtering an ascending list keeps it ascending |
| Report.ScarceSpec | Multicover/multicover.py:133 | the scarcity list names exactly the universe elements with availability below `r`, each with its availability, in strictly ascending order |
| Paragraphs.NormaliseNewlines | Multicover/data_collection.py:45 | the two `replace` calls by definition; no carriage return survives them |
| Paragraphs.ReplaceKeepsBlank | Multicover/data_collection.py:45 | normalising line endings keeps whitespace-only text whitespace-only |
| Paragraphs.SpaceRunEnd | Multicover/data_collection.py:49 | the whitespace run that starts at `i` ends at the first non-whitespace character or the end |
| Paragraphs.LastNewline | Multicover/data_collection.py:49 | finds the last newline in a range, or reports that there is none |
| Paragraphs.SeparatorAt | Multicover/data_collection.py:49 | one step of the `re` search for `\n\s*\n+` at position `p`. A match starts with a newline, is whitespace only and ends with a newline, at least two characters in. There is a match exactly when a second newline lies in the whitespace run after `p`. The match ends just past the last newline of that run, as the greedy `\s*` gives back only that newline |
| Paragraphs.SplitFrom | Multicover/data_collection.py:49 | `re.split(r"\n\s*\n+", s)` by definition: scanning left to right, the text is cut at each match, and the search resumes after it; there is always at least one piece |
| Paragraphs.SeparatorsFrom | Multicover/data_collection.py:49 | the matches that `re.split` cuts out, in order, by the same scan |
| Paragraphs.SplitFromCount | Multicover/data_collection.py:49 | there is one more piece than there are separators |
| Paragraphs.SplitFromRebuilds | Multicover/data_collection.py:49 | the pieces, with the separators put back between them, rebuild the text exactly |
| Paragraphs.SeparatorsAreBlankLines | Multicover/data_collection.py:49 | every separator cut out is a whitespace-only run that starts and ends with a newline |
| Paragraphs.SplitFromPieces | Multicover/data_collection.py:49 | every piece is a slice of the text in which no separator match starts |
| Paragraphs.SpaceRunEndSlice | Multicover/data_collection.py:49 | a whitespace run inside a slice extends at least as far in the whole text |
| Paragraphs.SeparatorInSlice | Multicover/data_collection.py:49 | a blank line inside a slice is a blank line of the whole text |
| Paragraphs.SplitFromChars | Multicover/data_collection.py:49 | every piece of the split is made of characters of the text |
| Paragraphs.SplitFromFirst | Multicover/data_collection.py:49 | the first piece holds the text's first character when that is not a newline |
| Paragraphs.CleanParts | Multicover/data_collection.py:50 | `[p.strip() for p in parts if p.strip()]` by definition |
| Paragraphs.CleanPartsFrom | Multicover/data_collection.py:50 | every kept paragraph is the stripped form of one of the pieces |
| Paragraphs.CleanPartsTrimmed | Multicover/data_collection.py:50 | every kept paragraph is non-empty, with non-whitespace at both ends |
| Paragraphs.CleanPartsKeeps | Multicover/data_collection.py:50 | every piece that is not blank is kept, in its stripped form; with `CleanPartsFrom` this pins the output to exactly the stripped non-blank pieces |
| Paragraphs.SplitParagraphs | Multicover/data_collection.py:44-51 | `split_paragraphs` by definition: normalise line endings, strip, return `[]` for blank text, else split and clean; its properties are the lemmas below |
| Paragraphs.NoParagraphsIffBlank | Multicover/data_collection.py:45-51 | no paragraph is returned exactly when the normalised text is whitespace only |
| Paragraphs.BlankTextHasNoParagraphs | Multicover/data_collection.py:45-48 | whitespace-only (or empty) text yields no paragraph |
| Paragraphs.ParagraphsAreTrimmed | Multicover/data_collection.py:45-50 | every paragraph is non-empty, has no leading or trailing whitespace and contains no `\r` |
| Paragraphs.StrippedSlice | Multicover/data_collection.py:49-50 | stripping a slice of the text leaves a slice of the text lying within it |
| Paragraphs.StrippedPieceHasNoBlankLine | Multicover/data_collection.py:49-50 | stripping a piece without separators leaves a paragraph without a blank line |
| Paragraphs.ParagraphsHaveNoBlankLine | Multicover/data_collection.py:44-51 | the text is split at every blank line: no paragraph contains a newline followed by whitespace holding another newline |
| Paragraphs.JoinChars | Multicover/data_collection.py:49 | a non-whitespace character of pieces joined by whitespace-only separators lies in one of the pieces |
| Paragraphs.ParagraphsKeepContent | Multicover/data_collection.py:44-51 | `split_paragraphs` loses no text: every non-whitespace character of the normalised text lies in some paragraph |
| Collection.FirstIndex | Multicover/data_collection.py:57 | the position of the first occurrence of a character: no earlier position holds it, and it is a real occurrence whenever the character occurs (otherwise the length) |
| Collection.ExtractN5Kanji | Multicover/data_collection.py:54-61 | the loop with `seen` and `ordered` returns the syllabus characters of the paragraph, each at its first occurrence, in order |
| Collection.KeepFirstChars | Multicover/data_collection.py:57-61 | a character is in the output exactly when it occurs in the paragraph and is in the syllabus |
| Collection.KeepFirstDistinct | Multicover/data_collection.py:55-60 | the output has no repeated character |
| Collection.DistinctCard | Multicover/data_collection.py:55-60 | helper for `Collection.KeepFirstShort`: a string without repeats has as many distinct characters as characters |
| Collection.KeepFirstShort | Multicover/data_collection.py:55-60 | the output is no longer than the syllabus |
| Collection.FirstIndexPrefix | Multicover/data_collection.py:57 | a character's first occurrence in a prefix is its first occurrence overall |
| Collection.FirstIndexAt | Multicover/data_collection.py:57-58 | a character not seen before position `m` has its first occurrence at `m` |
| Collection.KeepFirstOrder | Multicover/data_collection.py:57-61 | the output characters come in the order of their first occurrence in the paragraph |
| Collection.KeepFirstFixed | Multicover/data_collection.py:57-61 | a string of distinct syllabus characters is returned unchanged |
| Collection.KeepFirstIdempotent | Multicover/data_collection.py:54-61 | extracting twice equals extracting once |
| Collection.BuildRows | Multicover/data_collection.py:84-94 | the loop builds one row per paragraph with a kanji, in order: named after the 1-based position, priced at its length and holding its extracted kanji |
| Collection.KeptSpec | Multicover/data_collection.py:85-90 | the positions that yield rows are ascending, in range, and exactly the paragraphs with at least one syllabus kanji |
| Collection.RowsOfKept | Multicover/data_collection.py:84-94 | the `j`-th row is the row of the `j`-th paragraph that holds a kanji, so skipped paragraphs leave gaps in the numbering |
| Collection.RowsWellFormed | Multicover/data_collection.py:86-94 | every row has a non-empty kanji field and the cost of a paragraph of length at least 1 |
| Collection.ReadCost | Multicover/multicover.py:28 | `int()` on the cost column, restricted to plain digit strings: a parsed value is non-negative, and the result is `None` exactly when the text is empty or holds a non-digit |
| Collection.RowLoadsAsMaterial | Multicover/data_collection.py:92-94 | the loader accepts every written row with cost equal to its paragraph's length and coverage equal to its kanji, when the syllabus lies in the universe and holds no whitespace |
| Scenario.ExampleAvailability | Multicover/multicover.py:45-51 | in the worked catalog every element is available twice |
| Scenario.FirstRound | Multicover/multicover.py:80-91 | round one of the worked solve picks M2 |
| Scenario.SecondRound | Multicover/multicover.py:80-91 | round two picks M1 over M3 on cost |
| Scenario.Finished | Multicover/multicover.py:93-94 | after M2 and M1 no material has anything to add |
| Scenario.ExampleTrace | Multicover/multicover.py:73-104 | `[M2, M1]` is a greedy trace that ends without an improving move |
| Scenario.WorkedExample | Multicover/multicover.py:53-126 | whatever the solver returns on the worked catalog is `[1, 0]`, with total cost 3 |
| Scenario.UnheldElementIsScarce | Multicover/multicover.py:133 | an element in no material has initial need 0 and is listed as scarce with availability 0 |

## Left out

- File and CSV I/O is left out: `csv.DictReader`, opening and appending to `materials.csv`, `ensure_csv_header`, the existence check on the path, and all printing. A CSV row is a `Catalog.Record`.
- Catalog.LoadMaterials: the cost field is given already converted. It is `Some(n)` when Python's `int()` succeeds and `None` when it raises. `int()`'s full grammar (signs, surrounding whitespace, underscores) is not modelled. `Collection.ReadCost` reads only plain digit strings, which is all the row builder writes.
- Catalog.Cap: `math.inf` is modelled by its stand-in `10**12`, as the source uses it. Only integer limits are modelled.
- Greedy.SelectBest: scores are compared exactly, not as floating-point quotients. Ties that only rounding would create or break are not modelled.
- Greedy.GreedyWeightedMulticover: `remaining` is an ascending sequence, not a CPython set. The unused `names` parameter is dropped. The loops over a material's set visit its elements in an arbitrary order, which changes nothing here.
- Text.IsSpace: whitespace is an explicit list of code points, the ones Python's `str.isspace` accepts. Python's `re` engine is modelled only for the pattern `\n\s*\n+`.
- Unicode NFC normalisation (`unicodedata.normalize`) is left out; the text is taken as already normalised.
- Interactive input (`input`, `read_multiline`) and the `q` quit command are left out. An excerpt's name and text are parameters.
- Timing with `time.perf_counter` is left out.
- `Multicover/kanji_count.py` is not part of this model. It is a reporting script over the CSV.
- `PhonemicDinitz/data_collection.py` is not part of this model. It queries an external phoneme table and is unrelated to the solver.
