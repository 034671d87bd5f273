# KO2Pathway in Dafny

A verified model of `KO2Pathway.py`, a script that maps KEGG Orthology (KO) identifiers
of genes to KEGG pathways and summarises how many KO-to-pathway links each pathway has.
The model covers everything the script computes except the chart drawing:

- **Normalisation** (`preprocess_input`, module `Normalize`): rows whose KO field is
  missing or `-` are dropped. Fields are split at commas and every `ko:` is removed. The
  script keeps a piece when `re.match(r'^K\d{5}$')` accepts it, which also lets through a
  code followed by one newline (see Findings); the model keeps exactly the codes made of
  `K` and five digits, and `Normalize.PieceRecordAsWritten` gives the script's check. The
  distinct codes are then taken in first-occurrence order (`unique()`).
- **Resolution** (`fetch_ko_pathway_mapping`, module `Resolve`): a cached table is
  returned as it is. Otherwise the method loops over the codes and over the lines of each
  usable `link/pathway` response, appending one edge per line. A line gives an edge when it
  has exactly two tab-separated fields and its second field, after removing `path:`,
  starts with `map`.
- **Descriptions** (`fetch_pathway_descriptions`, module `Describe`): the method loops over
  the pathway ids and fills a map. A usable response gives the text between the first and
  second tab of its stripped body. A failed or blank response gives `Unknown`. A usable
  body without a tab stops the run, where the script raises IndexError.
- **Summary** (`main`, modules `Summary` and `Pipeline`):
  - edges are labelled with their description and grouped by (pathway id, description),
    in sorted key order, with a count per group;
  - when an exclusion file is given, groups are dropped whose lowercased description
    contains a term, matched as plain substrings;
  - duplicate descriptions are dropped, keeping the first;
  - rows are sorted by descending count;
  - the first 20 rows form the chart.
  A live lookup that finds no edge stops the run, where the script raises KeyError.

The HTTP service is a parameter: a function from a request key to a `Response` (status
code and body). The cache is an `Option<seq<Edge>>` holding the table already read. The
exclusion file is an `Option<seq<string>>` of its lines. The two fetching steps are
methods with loops, proved equal to functions (`LiveEdges`, `DescriptionMap`). Those
functions, and the pure pandas steps, carry the lemmas. `Pipeline.Run` performs the steps
in the script's order, and is proved to give what the function `Pipeline.Pipeline` gives.

Python's string operations used by the script live in module `Text`:
- `split` with a one-character separator;
- `strip()`, with Python's whitespace set;
- `replace(x, "")`, scanning left to right;
- `startswith`;
- ASCII `lower()`;
- substring search.

Module `Seqs` holds counting, keep-first deduplication (`unique`, `drop_duplicates`) and
a flat map (`explode`, row filters).

Behaviour of the script worth noting, which the model keeps:
- validation accepts only the letter `K`, not any other capital letter;
- the description is the second tab field of the whole stripped body, not of its first line;
- a usable body without a tab stops the run (IndexError) instead of giving `Unknown`;
- a live lookup that finds no edge stops the run (KeyError) instead of giving an empty summary;
- the count sort (`sort_values`, quicksort by default) is not stable, so ties keep no fixed order.

## Model

| member | source | states |
|---|---|---|
| Text.SplitJoin | KO2Pathway.py:20 | `split(',')` cuts at every comma and nowhere else: the pieces joined with commas give the field back, no piece holds a comma, and there is one piece more than commas |
| Text.JoinSplit | KO2Pathway.py:20 | splitting comma-free pieces joined by commas gives back exactly those pieces |
| Text.SecondPiece | KO2Pathway.py:58 | the second piece of a split is the text between the first separator and the next separator, or the end |
| Text.StripSpec | KO2Pathway.py:38 | `strip()` removes only whitespace, and only at the two ends; what remains neither starts nor ends with whitespace |
| Text.RemoveAllAbsent | KO2Pathway.py:22 | `replace('ko:', '')` leaves text without an occurrence unchanged |
| Text.RemoveAllSplice | KO2Pathway.py:22 | `replace` deletes an occurrence in the middle of the text too, keeping the text in front of it |
| Text.LowerIdempotent | KO2Pathway.py:151-153 | lowering twice is lowering once, and the result has no upper-case ASCII letter |
| Seqs.KeepFirstIsFirstOccurrences | KO2Pathway.py:155 | keep-first deduplication equals the reference definition: the elements whose key occurs there for the first time, in input order |
| Seqs.FirstOccurrencesPositions | KO2Pathway.py:155 | each kept element is the first with its key, taken from strictly increasing input positions |
| Seqs.FlatMapPositions | KO2Pathway.py:20 | when each element gives at most one value, the results are the values of the giving elements, one each, in element order |
| Seqs.UniqueSpec | KO2Pathway.py:133 | `unique()` yields no value twice and exactly the input's values, in first-occurrence order |
| Normalize.RowRecordsSpec | KO2Pathway.py:18-24 | a missing or `-` field yields nothing; otherwise at most one record per comma-separated piece, each with the row's gene; a record appears exactly when some piece, with `ko:` removed, is a KO code |
| Normalize.RowRecordsPositions | KO2Pathway.py:18-24 | a kept field gives one record per piece that turns into a KO code, in piece order: the m-th record comes from the m-th such piece, and no such piece is skipped |
| Normalize.PieceRecordAsWrittenDiffers | KO2Pathway.py:22-24 | the script's pattern and the KO-code check disagree on a piece exactly when it is a KO code followed by one newline; the script keeps `K00001` and a newline as a record, the model does not |
| Normalize.PreprocessValid | KO2Pathway.py:18-24 | every surviving record holds `K` and five digits and comes from a non-dropped row with the same gene |
| Normalize.PreprocessAppend | KO2Pathway.py:15-26 | preprocessing works row by row: the records of two row runs are the two record runs in order |
| Normalize.DroppedRowIgnored | KO2Pathway.py:18 | a row with a missing or `-` field contributes nothing wherever it stands |
| Normalize.StripKoTagOfCode | KO2Pathway.py:22 | removing `ko:` keeps a bare code and turns `ko:` plus a code into the bare code |
| Normalize.TwoTaggedCodes | KO2Pathway.py:20-24 | a field `ko:A,ko:B` of two KO codes yields exactly two records, A then B, of the row's gene |
| Normalize.SpaceAfterCommaRejected | KO2Pathway.py:20-24 | in a field `A, B` the blank before `B` is kept, so only `A` yields a record |
| Normalize.UniqueCodesSpec | KO2Pathway.py:133 | the codes to resolve are duplicate-free, exactly the codes of the records, in first-occurrence order |
| Normalize.UniqueCodesValid | KO2Pathway.py:130-133 | every code handed to the resolver is a KO code |
| Normalize.TrailingNewlineAccepted | KO2Pathway.py:24 | the pattern as written accepts `K00001` followed by a newline, which is not a KO code; every KO code passes the pattern |
| Resolve.ResponseEdgesSpec | KO2Pathway.py:37-44 | a failed or blank response yields no edge; otherwise no more edges than lines, and an edge is yielded exactly when it names the queried code and some line has two tab fields whose second, without `path:`, is a `map` pathway |
| Resolve.ResponseEdgesPositions | KO2Pathway.py:37-44 | a usable response gives one edge per line naming a `map` pathway, in line order: the m-th edge comes from the m-th such line, none is skipped, and a repeated line gives a repeated edge |
| Resolve.ResponseEdgesWellFormed | KO2Pathway.py:41-44 | every edge names the queried code and a pathway starting with `map` |
| Resolve.PathLine | KO2Pathway.py:40-44 | a line `field<TAB>path:pw` yields the edge to `pw` exactly when `pw` starts with `map` |
| Resolve.LiveEdgesMember | KO2Pathway.py:35-44 | an edge is in the live table exactly when its code was queried and that code's response yields it |
| Resolve.LiveEdgesAppend | KO2Pathway.py:35-46 | the live table of two code runs is the two tables one after the other |
| Resolve.FetchKoPathwayMapping | KO2Pathway.py:28-50 | with a cache the result is the cached table and nothing is requested; without one every code is requested once, in order, and the result is the concatenation of the per-code edges |
| Describe.DescribeSpec | KO2Pathway.py:56-61 | a failed or blank response gives `Unknown`; a usable one fails exactly when its stripped body has no tab, and otherwise gives the text between the first tab and the next tab or the end |
| Describe.DescriptionMapOk | KO2Pathway.py:53-63 | the map succeeds exactly when every id can be described; its keys are then exactly the ids, each mapped to its own description |
| Describe.DescriptionMapErr | KO2Pathway.py:54-58 | a failure names the first id, in order, whose usable body has no tab |
| Describe.FetchPathwayDescriptions | KO2Pathway.py:52-63 | the loop gives the description map; ids are requested in order up to and including the failing one, and all of them on success |
| Summary.StrLessTransitive | KO2Pathway.py:143 | the key order used to sort groups is transitive |
| Summary.StrLessTotal | KO2Pathway.py:143 | any two distinct keys are ordered one way or the other |
| Summary.KeyLessOrder | KO2Pathway.py:143 | the order on (pathway id, description) keys is irreflexive, transitive and total |
| Summary.GroupKeysSpec | KO2Pathway.py:143 | the group keys are strictly increasing and are exactly the keys of the table |
| Summary.AggregateSpec | KO2Pathway.py:142-146 | one row per distinct (pathway id, description), in increasing key order; each count is the number of edges with that key, at least one; the counts add up to the number of edges |
| Summary.ExclusionTermsSpec | KO2Pathway.py:151 | each term is a non-blank line, stripped and lowercased, so non-empty and free of upper-case ASCII letters |
| Summary.ExcludeSpec | KO2Pathway.py:152-153 | a row survives exactly when the pattern does not match its lowercased description; no survivor contains any term |
| Summary.ExcludeAppend | KO2Pathway.py:153 | the filter keeps row order: filtering two parts gives the two filtered parts |
| Summary.NoTermsDropsAll | KO2Pathway.py:152-153 | an exclusion file without terms gives the empty pattern, which removes every row |
| Summary.DropDuplicateDescriptionsSpec | KO2Pathway.py:155 | descriptions become pairwise distinct; every description is kept; kept rows are input rows, the first with each description, in order |
| Summary.SortByCountSpec | KO2Pathway.py:156 | the sorted rows have non-increasing counts and are a permutation of the input |
| Summary.SortByCountDistinct | KO2Pathway.py:155-156 | sorting keeps descriptions pairwise distinct |
| Summary.SummariseSpec | KO2Pathway.py:142-156 | each summary row is a group with its true count of at least one; the rows are, in some order, exactly the first filtered group of each description, so a shared description is reported under its smallest pathway id with that group's own count; descriptions are distinct and counts non-increasing; no excluded term occurs; an empty exclusion file empties the table; every group the filter lets through keeps its description |
| Summary.SummaryFirstKey | KO2Pathway.py:142-155 | the row kept for a description has no label with that description and a smaller pathway id: groupby lists keys in order and `keep='first'` keeps the first |
| Summary.ExcludeIncreasing | KO2Pathway.py:153 | the filter keeps the rows it lets through in their order, so increasing group keys stay increasing |
| Summary.SummaryCoversLabel | KO2Pathway.py:142-156 | every label whose description the exclusion filter lets through has its description in the summary |
| Pipeline.DescriptionsCover | KO2Pathway.py:137-139 | a successful description map has an entry for every pathway of the table, and it is that pathway's description |
| Pipeline.LabelledCount | KO2Pathway.py:139-146 | labelling through the map merges no pathways: the edges with a pathway's label are exactly the edges to that pathway |
| Pipeline.DescribeFailures | KO2Pathway.py:137-138 | describing fails exactly when some pathway of the table has a usable body without a tab |
| Pipeline.DescribeAndSummariseSpec | KO2Pathway.py:136-164 | it fails exactly when some pathway's usable description body has no tab; otherwise each summary row names a pathway of the table with its description and counts the edges to it; a description shared by several pathways (several `Unknown`s, say) is reported under the smallest of them; a pathway's description is in the summary exactly when the exclusion filter lets it through (so an exclusion file without terms leaves the summary empty), and no excluded term occurs in a reported description; descriptions are distinct, counts non-increasing; with plotting on, the chart is the first min(20, n) rows |
| Pipeline.CachedRunIgnoresInput | KO2Pathway.py:129-133 | with a cache the run is the same whatever the input rows and the `link/pathway` answers, and it never stops for an empty mapping |
| Pipeline.LiveRunRow | KO2Pathway.py:129-156 | without a cache, each summary row of a successful run goes back to a kept input row holding a KO code whose usable response links it to the row's pathway; its count is the number of live edges to that pathway, and its description is that pathway's own |
| Pipeline.Run | KO2Pathway.py:129-165 | the steps run in the script's order, with the fetching loops, give exactly the run the Pipeline function defines |

## Left out

- HTTP requests and URL construction: the service is the `lookup` parameter.
- The 0.2 s pauses between requests: they only affect timing.
- The progress messages, and `argparse`, whose options become parameters.
- Reading the input TSV and the exclusion file: these arrive as parsed rows and lines. `read_csv` NA detection and type inference are not modelled; a missing KO field is `None`.
- Reading and writing the cache file and writing the summary TSV. A cache file written from an empty live result is not modelled either.
- `plot_circular_barplot`: floating-point angles and drawing. Only the rows it would be given (`head(20)`) are modelled. With plotting on and an empty summary (always the case for an exclusion file without terms), the script fails inside the plot at `counts[0]`, after the summary is saved; the model reports the empty chart `Some([])` instead.
- Normalize.IsDigit, Text.Lower: ASCII only; Unicode digits, which `\d` also accepts, and non-ASCII case mapping are not modelled.
- Normalize.PieceRecord: keeps a piece when, without `ko:`, it is exactly `K` and five digits. The script's pattern also keeps such a code followed by one newline, and passes it on to the service; `Normalize.PieceRecordAsWritten` models that check, but the rest of the model uses the corrected one (see Findings).
- Summary.Exclude: requires terms without regular-expression metacharacters. The script compiles `'|'.join(terms)` as a regular expression; only the literal-text case is modelled, including the empty pattern.
- Summary.SortByCount: the model's insertion sort fixes an order among equal counts. The script's sort does not, so only non-increasing counts and permutation are claimed.
- Summary.StrLess: the group key order compares code points. pandas compares Python strings the same way, but its sort internals are not modelled.

## Findings

| source | as written | input that shows it | evidently intended | confidence | as-written member | corrected member |
|---|---|---|---|---|---|---|
| KO2Pathway.py:24 | `str.match(r'^K\d{5}$')`, where `$` also matches just before a final newline | a quoted KO field holding `K00001` and a line break; the piece `K00001\n` passes and a code with a newline is sent to the service | accept exactly `K` and five digits (`fullmatch` or `\Z`) | not executed | Normalize.PieceRecordAsWrittenDiffers | Normalize.PreprocessValid |
