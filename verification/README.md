# duckdb-gdx: verified model of the query side

This project models how the DuckDB GDX extension turns a request into rows, and proves what a
caller relies on. It covers:

- `read_gdx`: the output schema, the `dimension_filters` parameter, filter pushdown out of a
  WHERE clause, compilation of the filters for the GDX library, the streaming scan, and the
  older buffered read it replaced;
- `gdx_domain_values`: the distinct scan, its two cache levels and its cursors;
- `gdx_symbols`: loading symbol metadata and the flattened list column;
- the metadata cache under interleaved calls;
- `RandomAccessAdapter`, and the HTTP header and range logic of the WASM build.

The GDX library appears only through contracts: a finite sequence of records whose keys point
into a table of element texts (UELs), registration of texts and filters, and read, read-done and
close calls that may fail. These contracts are assumptions about that library:

- texts are matched up to case, and one text cannot be registered under two user indices;
- a filtered read keeps record order and yields the original spelling;
- a read compares each record with the one it returned before and reports the first dimension
  that changed, 1 for its first record (`Numbered`);
- a symbol's records come in increasing key order without repeats (`KeySorted`).

Exact statements about pushdown use the last two; `PushdownPreservesStreams` takes records in any
order, each with any number it could have. Where a statement needs a UEL table without repeated
texts, it says so.

`dafny verify dfyconfig.toml` checks everything.

## Files

| file | contents |
|---|---|
| `Text.dfy`, `Sorting.dfy`, `Chunking.dfy`, `Wrappers.dfy` | case folding, trimming, decimal numbers; sorting; chunked cursors; Option and Result |
| `Schema.dfy` | unique column names and the column layout |
| `Records.dfy`, `Expressions.dfy` | records, rows and windows; WHERE clauses and their three-valued meaning |
| `DimensionFilters.dfy` | collecting filters and resolving names to dimensions |
| `Pushdown.dfy`, `PushdownMeaning.dfy`, `PushdownExactness.dfy` | what is pushed down, why queries keep their meaning, and exactly when |
| `FilterCompiler.dfy`, `ReadGdx.dfy` | compiled filter tables; bind, pushdown and read end to end |
| `Scan.dfy`, `BufferedRead.dfy` | the streaming cursor and handle protocol; the buffered callback |
| `MetadataCache.dfy` | interleaved check, load and publish steps |
| `DomainValueFilters.dfy`, `DomainValues.dfy` | filters of `gdx_domain_values`; distinct scan, cache levels, cursors |
| `RandomAccess.dfy`, `HttpHeaders.dfy`, `SymbolsFunction.dfy` | adapter, HTTP, symbol list |

## What does not hold

Each point has a lemma with a counterexample and, beside it, one with the exact condition.

- Pushdown changes query results when a window is set, when two dimension names agree after
  lower-casing and trimming, or when an element text carries outer whitespace. `Faithful` is the
  exact condition on the call (`PushdownPreservesExactly`), in a file with more element texts than
  the window counts.
- Clause by clause, pushdown changes results when a cast makes the clause keep a row that misses
  a pushed equality (`IntegerCastWitness`, `NumberCastWitness`), or when the clause looks at
  `is_sparse_break` or `is_dense_run` and pushdown drops the record that starts a run
  (`MetadataWitness`). `ClausePreservedExactly` is the exact condition, for any casts.
  `ComparisonPreservedExactly` reduces it to the file's texts for one comparison, and
  `SafeComparisonExact` and `LossyComparisonExact` to the casts.
- Where the records stay the same, the sparse/dense cells shown with them may still change, unless
  no record that loses the start of its run is kept (`RowsPreservedExactly`). Equalities on the
  first dimension alone never change them (`FirstDimensionKeepsNumbers`).
- With a one-dimensional symbol over `*`, filtering by both the symbol's name and the generated
  name is rejected even when both ask for the same text (`DuplicateExactly`).
- Filters that spell one text in two ways fail at initialization (`ReadGdxInitGlobal`,
  `TwoSpellingsWitness`); `gdx_domain_values` already fails when one text is requested twice
  (`RegisterAllValues`, `RepeatedTextWitness`).
- With labels `i`, `i` the two table functions resolve the name `i` to different dimensions
  (`ResolversDisagreeWitness`); they agree exactly when no later dimension enters a label as a
  name (`ResolversMeetExactly`).
- A slow load can overwrite a newer metadata entry with an older one (`StaleOverwriteWitness`).
  Versions never fall exactly when at most one call per key is under way at a time
  (`NeverLowersExactly`); for one load, exactly when nothing newer than its start is published yet,
  a guard the code does not have (`GuardExactly`).
- A filtered `gdx_domain_values` request made first poisons later unfiltered answers
  (`PoisonedAnswerWitness`), unless its filters accept every record (`AnswerIsTrueExactly`).
- A filtered cursor can lose values to another request between two chunks (`LostValueWitness`),
  exactly when that request lets other texts through (`FilteredCursorKeepsExactly`).
- `gdx_domain_values` drops a filter with an unknown name without an error, which can turn the
  request into an unfiltered one (`DroppedFilterWitness`, `FiltersDroppedExactly`); `read_gdx`
  rejects such a name.
- The size learned from a response is wrong when it is the length of a partial body or of an
  error page (`OpenTotalWitness`, `ErrorPageWitness`); `LearnedSizeExactly` and `HeadSizeExactly`
  say when it is right.

The code, not the documentation, decides where they differ: name suffixes start at `_1`
(docs/ARCHITECTURE.md says `_2`), and sets have two value columns (a unit test expects one).

## Model

| member | source | states |
|---|---|---|
| Schema.TriesBounded | src/gdx_symbol_utils.cpp:76-80 | however many consecutive suffixes are taken, there are at most one more than used names, so the suffix loop ends |
| Schema.UniqueColumnName | src/gdx_symbol_utils.cpp:76-85 | the suffix loop ends with the first free, non-empty candidate |
| Schema.SuffixesStartAtOne | src/gdx_symbol_utils.cpp:76-81 | three columns of one name become the name, `_1` and `_2`; a nameless column becomes `_1` |
| Schema.AddUniqueColumn | src/gdx_symbol_utils.cpp:82-84 | one more column keeps names, types and used names in step |
| Schema.BuildReadGdxSchema | src/gdx_symbol_utils.cpp:68-105 | names and types are those of the domain, metadata and value columns in order |
| Schema.UniquifyDistinct | src/gdx_symbol_utils.cpp:76-104 | all column names are non-empty and pairwise distinct for any labels and value columns |
| Schema.UniquifyKeeps | src/gdx_symbol_utils.cpp:76-85 | a column keeps the name it asks for unless an earlier column has it |
| Schema.UniquifyKeepsAll | src/gdx_symbol_utils.cpp:87-94 | columns that ask for different names all keep them |
| Schema.LayoutMatchesSchema | src/gdx_read_function.cpp:775-784 | the offsets computed at bind time address exactly the declared columns and types |
| Schema.SelectValueColumns | src/gdx_read_function.cpp:755-773 | value_columns succeeds exactly on duplicate-free known names and keeps the requested order |
| Records.PreloadUelTable | src/gdx_read_function.cpp:276-312 | every entry shows its text or its number, and numbers outside the table show nothing |
| DimensionFilters.ParseDimensionFilters | src/gdx_read_function.cpp:476-516 | succeeds exactly without NULLs, blanks or repeated names, and holds one trimmed value per name and nothing else |
| DimensionFilters.ParameterExactly | src/gdx_read_function.cpp:493-513 | by entries: usable if and only if none is NULL or blank and no two names agree up to case and outer whitespace; kept are each entry's trimmed text under its name, and nothing else |
| DimensionFilters.NameMapLookup | src/gdx_read_function.cpp:424-448 | a key resolves to the last dimension that enters it |
| DimensionFilters.NamesExactly | src/gdx_read_function.cpp:424-448 | a key is known if and only if it is some dimension's column name, label or generated name, or the symbol of a one-dimensional symbol over `*`, and means the last such dimension |
| DimensionFilters.BindFilters | src/gdx_read_function.cpp:450-465 | for every iteration order, succeeds exactly when all names are known and no dimension repeats, and lists the same index-to-value mapping |
| DimensionFilters.ReadGdxBindData.TryAddDimensionFilter | src/gdx_read_function.cpp:380-410 | adds, ignores or rejects a filter; vectors count as stale only after an addition |
| DimensionFilters.ReadGdxBindData.BuildNameMap | src/gdx_read_function.cpp:424-448 | enters column name, label or generated name, and the symbol name of a one-dimensional symbol |
| DimensionFilters.ReadGdxBindData.PrepareDimensionFilters | src/gdx_read_function.cpp:412-468 | succeeds exactly on resolvable filters and then leaves the vectors in step with the map |
| DimensionFilters.ReadGdxBindData.EnsureDimensionFiltersPrepared | src/gdx_read_function.cpp:470-474 | vectors are in step afterwards |
| DimensionFilters.DomainNames | src/gdx_symbol_utils.cpp:87-94 | what domain column names are in terms of the names the dimensions ask for |
| DimensionFilters.ResolutionExact | src/gdx_read_function.cpp:431-448 | every domain column's name resolves to its own dimension if and only if the normalized name bases are pairwise distinct |
| DimensionFilters.ShadowedName | src/gdx_read_function.cpp:437-443 | a name that a later dimension enters does not resolve to its own column |
| DimensionFilters.RepeatedLabelWitness | src/gdx_read_function.cpp:437-440 | with labels i, i the name of column 0 reads dimension 1 |
| DimensionFilters.ResolveDimensionByName | src/gdx_domain_values_function.cpp:344-351 | finds the first label equal up to case |
| DimensionFilters.ResolversAgree | src/gdx_domain_values_function.cpp:339-351 | with distinct bases both table functions resolve every trimmed label to its own dimension |
| DimensionFilters.ResolversMeetExactly | src/gdx_domain_values_function.cpp:339-351 | over any labels, both table functions resolve every trimmed label alike if and only if no later dimension enters it as a name |
| DimensionFilters.ResolversAgreeExactly | src/gdx_read_function.cpp:431-448 | when all labels are trimmed texts, that is if and only if the names are distinct |
| DimensionFilters.ResolversDisagreeWitness | src/gdx_domain_values_function.cpp:344-351 | with labels i, i they disagree |
| Pushdown.FindColumn | src/gdx_read_function.cpp:568-586 | the search over names and projected columns finds the column a reference shows |
| Pushdown.ExtractColumnBinding | src/gdx_read_function.cpp:548-589 | the table column under any casts, for both kinds of reference |
| Pushdown.ExtractComparisonFilter | src/gdx_read_function.cpp:622-640 | offers exactly the equality on a domain column, or nothing |
| Pushdown.ComparisonTakenExactly | src/gdx_read_function.cpp:591-640 | one equality is taken if and only if either side, under casts, is a projected domain column and the other a constant with text; it is that column and the trimmed text, and nothing else is taken |
| Pushdown.ExtractFiltersFromExpression | src/gdx_read_function.cpp:642-660 | collects exactly the equalities among top-level conjuncts, or reports a conflict |
| Pushdown.TakenExactly | src/gdx_read_function.cpp:642-660 | an equality is taken from an expression if and only if it is reached through AND nodes alone |
| Pushdown.ExtractFromAll | src/gdx_read_function.cpp:646-649 | the loop over conjuncts adds each child's filters once, in order, without short-circuiting |
| Pushdown.AllTakenExactly | src/gdx_read_function.cpp:673-677 | and from a filter list if and only if it is taken from one of its members |
| Pushdown.ReadGdxPushdownComplexFilter | src/gdx_read_function.cpp:662-681 | fails exactly on a conflict or unresolvable filters; otherwise the vectors are the image of the extended map |
| PushdownMeaning.SafeComparisonExact | src/gdx_read_function.cpp:540-609 | under casts to text and integers, pushing one comparison is faithful for all clean texts if and only if SafeComparison holds of its casts and constant |
| PushdownMeaning.TextComparisonExact | src/gdx_read_function.cpp:591-609 | without a cast on the column other than to text, it is faithful if and only if the constant's own casts keep its text |
| PushdownMeaning.LossyComparisonExact | src/gdx_read_function.cpp:540-546 | under any conversion that gives every text the value of another, it is faithful if and only if the comparison can never be true |
| PushdownMeaning.NumberCastWitness | src/gdx_read_function.cpp:540-546 | a cast that reads '5' and '5.0' as one number is such a conversion: '5' equals the number although '5.0' is pushed |
| PushdownMeaning.PairMeaning | src/gdx_read_function.cpp:611-620 | the pair found in a comparison is a domain column and a constant, in either order, and the comparison is true exactly when the casts of the cell match those of the constant |
| PushdownMeaning.IntegerCastWitness | src/gdx_read_function.cpp:540-546 | under an integer cast '05' equals 5 although the text '5' is pushed |
| PushdownMeaning.ComparisonSound | src/gdx_read_function.cpp:622-640 | a true comparison satisfies the requirement taken from it |
| PushdownMeaning.RequirementsSound | src/gdx_read_function.cpp:642-660 | a true expression satisfies all requirements taken from it, under AND, OR, NOT and casts |
| PushdownMeaning.AllRequirementsSound | src/gdx_read_function.cpp:672-677 | a record on which the whole filter list is true satisfies every requirement taken from it |
| PushdownMeaning.NoConflict | src/gdx_read_function.cpp:394-402 | a record satisfying all filters and requirements rules out a conflict and satisfies the merged filters |
| PushdownMeaning.SatisfiedStaysAccepted | src/gdx_read_function.cpp:380-410 | a record that passes the filters so far and meets the requirements causes no conflict and passes the extended filters |
| PushdownMeaning.WhereKeepsAccepted | src/gdx_read_function.cpp:662-681 | a record that passes the filters so far and the WHERE clause passes the pushed filters |
| PushdownMeaning.ConflictJustified | src/gdx_read_function.cpp:394-402 | a conflict error implies that no record satisfies both sides |
| PushdownMeaning.ConflictKeepsNothing | src/gdx_read_function.cpp:394-402 | over a sound clause a conflict is reported only when the query is empty |
| PushdownMeaning.SafeFiltersSound | src/gdx_read_function.cpp:622-660 | comparisons safe for all clean texts are sound in a file of clean texts |
| PushdownMeaning.OneRecord | src/gdx_read_function.cpp:662-681 | among records the WHERE clause keeps, the pushed filters accept the same ones |
| PushdownMeaning.ReadsInStep | src/gdx_read_function.cpp:662-681 | over sorted records, the full read and the pushed read go on in step: they keep the same records of a sound and steady clause and show the same rows of a still one |
| PushdownMeaning.NextRow | src/gdx_read_function.cpp:1052-1061 | the next record both reads return shows the same sparse/dense cells, or it continues a run in the full read and starts one in the pushed read |
| PushdownMeaning.FirstDimensionKeepsNumbers | src/gdx_read_function.cpp:1052-1061 | a filter on the first dimension alone leaves every reported dimension of sorted records as it was |
| PushdownMeaning.FirstDimensionIsStill | src/gdx_read_function.cpp:662-681 | so pushing equalities on the first dimension alone changes no row of a sound clause |
| PushdownMeaning.PushdownPreserves | src/gdx_read_function.cpp:662-681 | over a sound clause that ignores the changed dimension, the pushed read and the read it replaces keep the same records, in any order and however numbered |
| PushdownExactness.FaithfulPreserves | src/gdx_read_function.cpp:540-681 | under the checkable condition every allowed clause keeps its meaning, a conflict means an empty result, and a still clause keeps its rows |
| PushdownExactness.SoundPreserves | src/gdx_read_function.cpp:540-681 | without a window and with distinct names every sound and steady clause does |
| PushdownExactness.UncleanText | src/gdx_read_function.cpp:606-607 | an element text with outer whitespace breaks some query |
| PushdownExactness.Misresolved | src/gdx_read_function.cpp:437-440 | colliding dimension names break some query |
| PushdownExactness.WindowShifts | src/gdx_read_function.cpp:1018-1028 | a non-empty window breaks some query |
| PushdownExactness.PushdownPreservesExactly | src/gdx_read_function.cpp:540-681 | all allowed clauses keep their meaning in all calls on a file if and only if the condition Faithful holds of the call's window, names and element texts |
| PushdownExactness.PushedFromNothing | src/gdx_read_function.cpp:412-468 | filters pushed into a call without a parameter always resolve, each under its own column |
| PushdownExactness.UnsoundBreaks | src/gdx_read_function.cpp:622-640 | a row of a file of at most two records that the clause keeps although it misses an equality is lost by pushdown, or a conflict is reported over it |
| PushdownExactness.LostPeerBreaks | src/gdx_read_function.cpp:1052-1061 | in a file of two records of one run, the first of which pushdown drops, the second changes its row, and its fate if the clause can tell |
| PushdownExactness.ClausePreservedExactly | src/gdx_read_function.cpp:540-681 | without a window and with distinct names, a clause with any casts keeps its meaning in all calls if and only if it is sound for all rows over the file's element texts and no record changes sides when it loses the start of its run |
| PushdownExactness.RowsPreservedExactly | src/gdx_read_function.cpp:1052-1061 | whole rows stay the same if and only if, besides, no record that loses the start of its run is kept |
| PushdownExactness.ComparisonPreservedExactly | src/gdx_read_function.cpp:540-640 | for one comparison, if and only if every element text that matches equals the pushed text up to case |
| PushdownMeaning.KeptFromRecords | src/gdx_read_function.cpp:1052-1061 | what a clause that ignores the changed dimension keeps depends on the records only |
| PushdownExactness.MetadataFreeIgnores | src/gdx_read_function.cpp:1052-1061 | a clause that does not refer to the sparse/dense columns ignores the changed dimension |
| PushdownExactness.RenumberingUnseenExactly | src/gdx_read_function.cpp:1052-1061 | how possible rows of the same records are numbered never shows if and only if the clause ignores the changed dimension |
| PushdownExactness.PushdownPreservesStreams | src/gdx_read_function.cpp:1052-1061 | under Faithful, clauses that do not refer to the sparse/dense columns keep the same records whatever their order and numbering |
| PushdownExactness.MetadataWitness | src/gdx_read_function.cpp:1054-1060 | two records share the first key; a filter on the second dimension drops the first, and a clause on is_sparse_break keeps the second instead of nothing |
| PushdownExactness.DuplicateExactly | src/gdx_read_function.cpp:450-462 | with distinct names, known filters fail to bind if and only if symbol name and generated name both filter the only dimension |
| PushdownExactness.AliasClashWitness | src/gdx_read_function.cpp:444-446 | such filters may ask for the same text |
| FilterCompiler.UserIndicesConsecutive | src/gdx_read_function.cpp:844-855 | distinct texts get exactly the indices 1 to n |
| FilterCompiler.FilterRegistration.RegisterValues | src/gdx_read_function.cpp:844-855 | fails exactly when two requested texts differ only in case; otherwise each distinct text is registered once |
| FilterCompiler.RegisterDimensionFilters | src/gdx_read_function.cpp:863-891 | one filter number per filtered dimension holding its value's index; other dimensions stay unfiltered |
| FilterCompiler.ActionsMeaning | src/gdx_read_function.cpp:863-890 | a dimension's action is the number of its last filter, or expand |
| FilterCompiler.DimensionAcceptsExactly | src/gdx_read_function.cpp:875-890 | one dimension passes exactly when it carries the requested text up to case |
| FilterCompiler.CompiledAcceptsExactly | src/gdx_read_function.cpp:837-891 | the compiled table accepts a record if and only if every filtered dimension matches |
| FilterCompiler.CompileFilters | src/gdx_read_function.cpp:837-891 | from bound vectors to the library: the table implements the filter map |
| FilterCompiler.FilteredReadSelects | src/gdx_read_function.cpp:893-904 | the library's read through such a table returns the accepted records in order |
| ReadGdx.CaseConsistencyOrderIndependent | src/gdx_read_function.cpp:844-855 | whether compilation fails depends on the filters, not on their order |
| ReadGdx.TwoSpellingsWitness | src/gdx_read_function.cpp:844-855 | filters a record satisfies may still fail to compile |
| ReadGdx.ReadGdxInitGlobal | src/gdx_read_function.cpp:835-917 | succeeds exactly on consistent texts and reads the accepted records |
| ReadGdx.ReadGdxBind | src/gdx_read_function.cpp:724-785 | succeeds exactly on a usable parameter whose names are known and name different dimensions, and then holds it with vectors in step |
| ReadGdx.ReadWithPushdown | src/gdx_read_function.cpp:662-681 | pushdown, compilation and read together return what the query returns over a read filtered by the parameter alone, when none throws |
| ReadGdx.RunQuery | src/gdx_read_function.cpp:662-1122 | the same through the drained scan, its window and the residual filter: the rows emitted are those of the query |
| Scan.ProtocolCounts | src/gdx_read_function.cpp:332-359 | at most one successful read-done, one successful close and one release |
| Scan.ProtocolExactly | src/gdx_read_function.cpp:332-367 | the protocol call by call: nothing after release, fetches only after fetches, no read-done after a close or a successful read-done, no close after a successful one |
| Scan.EndedCounts | src/gdx_read_function.cpp:332-367 | a finished handle was released once and closed successfully exactly when its last close succeeded |
| Scan.RowFitsSchema | src/gdx_read_function.cpp:1030-1100 | every row has the declared columns, its texts, its sparse/dense flags and its value slots in place |
| Scan.RowShowsSlots | src/gdx_read_function.cpp:1063-1100 | the cell under each selected name is the record's slot of that name: level, marginal, lower, upper, scale, value, description, or membership as TRUE or NULL |
| Scan.ValueColumnNames | src/gdx_symbol_utils.cpp:13-64 | the names and types each symbol type offers, in order |
| Scan.ReadGdxGlobalState.FinishReading | src/gdx_read_function.cpp:332-345 | a started read is ended at most once successfully, an unstarted one never; a failure may throw and leaves the read unfinished |
| Scan.ReadGdxGlobalState.CloseHandle | src/gdx_read_function.cpp:347-359 | closes and releases once; a failure that throws keeps the handle |
| Scan.ReadGdxGlobalState.EndScan | src/gdx_read_function.cpp:1107-1121 | ending a scan keeps the protocol and throws only if the library failed |
| Scan.ReadGdxGlobalState.Advance | src/gdx_read_function.cpp:1000-1028 | one turn of the loop emits the next record of the window, skips one, or finds the window used up |
| Scan.ReadGdxGlobalState.Fill | src/gdx_read_function.cpp:999-1105 | the loop emits the next stretch of the window and stops exactly at a full chunk or the window's end |
| Scan.ReadGdxGlobalState.ReadGdxFunction | src/gdx_read_function.cpp:964-1122 | each call emits the next chunk; after exhaustion nothing is fetched or emitted |
| Scan.ReadGdxGlobalState.Destroy | src/gdx_read_function.cpp:361-367 | destruction at any point, also after a failed initialization, releases an open handle exactly once and fetches nothing |
| Scan.Drain | src/gdx_read_function.cpp:964-1122 | for every vector size the chunks up to the first empty one are the window, and at most one record beyond it is fetched |
| Scan.ReadChunks | src/gdx_read_function.cpp:964-1122 | calls with any, even changing, vector sizes return the chunks of a plain cursor, which concatenate to the window as far as the sizes reach |
| Chunking.ChunkSizeIndependence | src/gdx_read_function.cpp:1000-1105 | the chunks of a plain cursor concatenate to what was selected, whatever their sizes |
| BufferedRead.DataReadRawFast | src/gdx_read_function.cpp:189-226 | the library's loop over the callback |
| BufferedRead.FeedBuffersWindow | src/gdx_read_function.cpp:152-226 | from any running context the callback buffers the window that is left |
| BufferedRead.FeedScans | src/gdx_read_function.cpp:197-208 | how many records the buffered read consumes |
| BufferedRead.StopsExactly | src/gdx_read_function.cpp:205-225 | a running context asks to stop exactly when the records reach its limit, or one is met beyond a limit of zero |
| BufferedRead.StreamingEqualsBuffered | src/gdx_read_function.cpp:191-226 | both reads select the same records; streaming consumes one more exactly when a non-zero limit leaves records over |
| MetadataCache.GdxMetadataCache.GetOrLoad | src/gdx_metadata_cache.cpp:40-150 | an uninterrupted call hits, loads and publishes, or fails; a forced key is then gone and every other entry untouched |
| MetadataCache.RemovesExactly | src/gdx_metadata_cache.cpp:100-155 | invalidating a key or starting a forced call on it removes that key and keeps all others; publishing puts the loaded entry there; no other step touches a key |
| MetadataCache.AbsentUntilPublished | src/gdx_metadata_cache.cpp:94-155 | in every run a removed key stays absent until some call publishes it |
| MetadataCache.ReloadsAfterInvalidate | src/gdx_metadata_cache.cpp:94-155 | an unforced call after an invalidation returns what it loads |
| MetadataCache.StepKeepsInvariant | src/gdx_metadata_cache.cpp:94-149 | every step of every call keeps the cache invariant |
| MetadataCache.RunKeepsInvariant | src/gdx_metadata_cache.cpp:94-149 | so does every interleaving |
| MetadataCache.CallGuarantees | src/gdx_metadata_cache.cpp:94-149 | entries sit under their own path; an unforced call returns exactly the entry it found; any other returns a version the file had between the call's start and its return |
| MetadataCache.LoweringNeedsOverlap | src/gdx_metadata_cache.cpp:145-148 | a publication lowers a version exactly when a newer one is published, and then another one happened during its load |
| MetadataCache.GuardExactly | src/gdx_metadata_cache.cpp:100-148 | whatever a load under way reads, publishing it lowers nothing if and only if nothing newer than its start is published |
| MetadataCache.NeverLowersExactly | src/gdx_metadata_cache.cpp:94-149 | with at most n calls per key under way at a time, versions never fall in any run if and only if n is at most one |
| MetadataCache.AloneIsGetOrLoad | src/gdx_metadata_cache.cpp:94-149 | the steps of a call that nothing interrupts give the entries and the answer of GetOrLoad |
| MetadataCache.SerialStepKeeps | src/gdx_metadata_cache.cpp:94-149 | while calls on a key do not overlap, no step lowers the last published version of any key |
| MetadataCache.SerialRunsNeverLower | src/gdx_metadata_cache.cpp:94-149 | without overlapping calls on a key, cached versions never decrease |
| MetadataCache.StaleOverwriteWitness | src/gdx_metadata_cache.cpp:100-148 | a run of two overlapping forced calls ends with the older entry |
| DomainValues.CollectIndices | src/gdx_domain_values_function.cpp:244-248 | the set of UEL numbers of a dimension |
| DomainValues.SortedTexts | src/gdx_domain_values_function.cpp:256-267 | the sorted list is the same for every hash-set iteration order |
| DomainValues.ScanDimension | src/gdx_domain_values_function.cpp:244-267 | one dimension's list is its canonical distinct values, in whatever order the hash set is read |
| DomainValues.ScanAll | src/gdx_domain_values_function.cpp:244-267 | the canonical distinct values of every dimension |
| DomainValues.DistinctValuesAreColumnTexts | src/gdx_domain_values_function.cpp:244-267 | an unfiltered scan lists, sorted, exactly the texts read_gdx shows in that column |
| DomainValues.DistinctValuesIncrease | src/gdx_domain_values_function.cpp:261-266 | strictly increasing when the UEL table is injective |
| DomainValues.FilteredValuesSubset | src/gdx_domain_values_function.cpp:185-222 | filtered values are a subset of unfiltered ones |
| DomainValues.FilteredValuesCompleteExactly | src/gdx_domain_values_function.cpp:185-222 | a filtered scan finds the values of the unfiltered one in every dimension if and only if the filters drop no record |
| DomainValues.SameValuesExactly | src/gdx_domain_values_function.cpp:244-267 | over a table without repeated texts, two scans list the same values if and only if they show the same texts |
| DomainValues.RegisterAllValues | src/gdx_domain_values_function.cpp:122-133 | registration succeeds exactly when no two texts agree up to case |
| DomainValues.RepeatedTextWitness | src/gdx_domain_values_function.cpp:122-133 | one text for two dimensions is an error here, although read_gdx accepts it |
| DomainValueFilters.BindFilters | src/gdx_domain_values_function.cpp:376-398 | the filters taken from the parameter: untrimmed, each under the first dimension with that label, unknown names dropped |
| DomainValueFilters.FiltersBound | src/gdx_domain_values_function.cpp:379-395 | the filters bound are those of the entries whose name some label equals up to case, in order, each with its own text under the first such dimension |
| DomainValueFilters.LastEntryWins | src/gdx_domain_values_function.cpp:379-395 | a dimension is filtered by the text of the last entry that names it, and not at all when none does |
| DomainValueFilters.FiltersDroppedExactly | src/gdx_domain_values_function.cpp:385-396 | no filter is lost if and only if all names are known, and none is left if and only if no name is |
| DomainValueFilters.DroppedFilterWitness | src/gdx_domain_values_function.cpp:385-396 | a name unknown to both makes the request unfiltered here and an error in read_gdx |
| DomainValues.ReadFiltered | src/gdx_domain_values_function.cpp:113-192 | registration, filter table and read select the records the filters describe |
| DomainValues.MetadataEntry.FindSymbol | src/gdx_domain_values_function.cpp:322-328 | the first symbol equal up to case |
| DomainValues.MetadataEntry.ScanFiltered | src/gdx_domain_values_function.cpp:111-233 | a filtered scan overwrites the second level with its result |
| DomainValues.MetadataEntry.InitGlobal | src/gdx_domain_values_function.cpp:407-452 | hit, hydrate or scan, and the slot the cursor reads |
| DomainValues.ServeChanges | src/gdx_domain_values_function.cpp:407-452 | what one request changes in both levels, and that nothing else changes |
| DomainValues.FirstLevelNeverChanges | src/gdx_domain_values_function.cpp:427-445 | once present, a first-level entry survives every run of requests |
| DomainValues.SecondLevelAfter | src/gdx_domain_values_function.cpp:226-233 | before its first unfiltered request a symbol holds what its last filtered one found |
| DomainValues.FirstUnfiltered | src/gdx_domain_values_function.cpp:427-445 | what the first unfiltered request puts into the first level |
| DomainValues.UnfilteredAnswers | src/gdx_domain_values_function.cpp:427-449 | every later unfiltered request, in any letter case, reads that answer |
| DomainValues.AnswerIsTrueExactly | src/gdx_domain_values_function.cpp:430-438 | the answer is the true list if and only if no filtered request succeeded first, or the last such request's filters accept every record |
| DomainValues.PoisonedAnswerWitness | src/gdx_domain_values_function.cpp:227-232 | a filtered request made first removes a value from the unfiltered answer |
| DomainValues.UnfilteredCursorUndisturbed | src/gdx_domain_values_function.cpp:455-479 | an unfiltered cursor emits exactly its list, as far as it is pulled, however requests interleave with its chunks |
| DomainValues.FilteredCursorUndisturbed | src/gdx_domain_values_function.cpp:455-479 | so does a filtered cursor while requests put nothing else into its slot |
| DomainValues.FilteredCursorKeepsExactly | src/gdx_domain_values_function.cpp:411-424 | a filtered cursor emits its list in all interleavings with a set of requests if and only if each of them that overwrites the symbol lets the same texts through in the cursor's dimension |
| DomainValues.LostValueWitness | src/gdx_domain_values_function.cpp:411-424 | a request between two chunks makes a filtered cursor lose a value |
| RandomAccess.EndedExactlyOnce | src/gdx_random_access_adapter.cpp:27-67 | every accepted resource is ended exactly as often as it was installed, except the one in use |
| RandomAccess.NoUseAfterEnd | src/gdx_random_access_adapter.cpp:251-288 | nothing is asked of a resource after its ending |
| RandomAccess.RandomAccessAdapter.CloseInternal | src/gdx_random_access_adapter.cpp:251-288 | ends what is wrapped, once |
| RandomAccess.RandomAccessAdapter.Reset | src/gdx_random_access_adapter.cpp:27-38 | ends what is wrapped and empties the adapter |
| RandomAccess.RandomAccessAdapter.InitializeFromFileHandle | src/gdx_random_access_adapter.cpp:40-52 | a null handle changes nothing; otherwise the previous resource ends before the new one is installed |
| RandomAccess.RandomAccessAdapter.InitializeFromProvider | src/gdx_random_access_adapter.cpp:54-67 | rejected exactly without read and size callbacks, and then nothing changes |
| RandomAccess.RandomAccessAdapter.ReadAt | src/gdx_random_access_adapter.cpp:139-201 | bytes at the offset, short only at end of file; a provider's bytes and count are passed through; failures leave the buffer alone |
| RandomAccess.RandomAccessAdapter.QuerySize | src/gdx_random_access_adapter.cpp:203-249 | in file mode always the file's length |
| RandomAccess.RandomAccessAdapter.Read | src/gdx_random_access_adapter.cpp:77-96 | the public read in every mode: exactly when it throws what, and what it delivers otherwise |
| RandomAccess.RandomAccessAdapter.Destroy | src/gdx_random_access_adapter.cpp:19-25 | nothing stays open |
| RandomAccess.ReadBlocks | src/gdx_random_access_adapter.cpp:139-201 | successive blocks of any sizes join to a prefix of the file, and an empty block comes exactly when one is asked for after all of it |
| HttpHeaders.FindHeader | src/gdx_wasm_support.cpp:105-128 | the first line with the wanted name decides |
| HttpHeaders.SplitPrinted | src/gdx_wasm_support.cpp:108-118 | a printed line splits into name and value despite spaces and CRLF |
| HttpHeaders.HeaderRoundTrip | src/gdx_wasm_support.cpp:101-128 | printing any header list and parsing it finds the first value of a name in any case |
| HttpHeaders.TotalOfRange | src/gdx_wasm_support.cpp:148-162 | the total of a printed Content-Range value (section 14.4 of RFC 9110) is read back, and an open total as none |
| HttpHeaders.SizeRoundTrip | src/gdx_wasm_support.cpp:101-166 | both parsers return the printed size, or nothing without the header (sections 8.6 and 14.4 of RFC 9110) |
| HttpHeaders.StoullExactly | src/gdx_wasm_support.cpp:119-125 | a number is read after spaces and a sign up to the first other character; 2^64 and more is none, and a minus wraps around |
| HttpHeaders.WasmHttpRandomAccess.PerformFetchLocked | src/gdx_wasm_support.cpp:250-334 | success by status, bytes copied up to the request, size learned once; any other status fails, copies nothing and teaches nothing |
| HttpHeaders.WasmHttpRandomAccess.EnsureContentLengthLocked | src/gdx_wasm_support.cpp:208-220 | a known size stays; HEAD comes before a one-byte range |
| HttpHeaders.FetchDeliversRange | src/gdx_wasm_support.cpp:268-309 | with a conforming server (sections 14.1.2 and 15.3.7 of RFC 9110) a successful fetch delivers the clipped range, or the part sent, which is all of it exactly when the part is complete; an overflowing range never succeeds |
| HttpHeaders.LearnedFromResponse | src/gdx_wasm_support.cpp:311-331 | what is learned from a conforming response: the stated total, else the length of the body, else nothing |
| HttpHeaders.LearnedSizeExactly | src/gdx_wasm_support.cpp:291-331 | over all successful conforming responses the learned size is right if and only if the stated total is taken, or the body whose length is taken is the whole resource, by status, part sent and headers |
| HttpHeaders.HeadSizeExactly | src/gdx_wasm_support.cpp:222-248 | what HEAD teaches is right if and only if the reported total is, or none is reported and the Content-Length sent is |
| HttpHeaders.ErrorPageWitness | src/gdx_wasm_support.cpp:304-316 | past the end of the file the length of a 416 error page becomes its size |
| HttpHeaders.OpenTotalWitness | src/gdx_wasm_support.cpp:317-327 | an answer that leaves the total open makes the length of a one-byte probe the size |
| SymbolsFunction.LoadMetadata | src/gdx_metadata.cpp:79-154 | succeeds exactly when every query is answered; a dimension's label is its domain name, or `*` when the domain is unknown |
| SymbolsFunction.DomainNamesColumn | src/gdx_metadata.cpp:141-147 | a known, real domain name is the name its column asks for |
| SymbolsFunction.ListColumnRoundTrip | src/gdx_symbols_function.cpp:96-111 | reading a list entry back gives that symbol's labels |
| SymbolsFunction.EntriesContiguous | src/gdx_symbols_function.cpp:96-111 | entries are contiguous prefix-sum slices that cover exactly the new strings |
| SymbolsFunction.CountLabels | src/gdx_symbols_function.cpp:85-94 | the space reserved is the number of labels about to be written |
| SymbolsFunction.FillChunk | src/gdx_symbols_function.cpp:85-111 | the child buffer grows by exactly the labels shown |
| SymbolsFunction.GdxSymbolsLocalState.GdxSymbolsFunction | src/gdx_symbols_function.cpp:63-115 | each call shows the next symbols once, in order |
| SymbolsFunction.ReadSymbols | src/gdx_symbols_function.cpp:63-115 | calling the table function once per vector size and reading the list columns gives every symbol's labels once, in order |

## Left out

- The GDX library, handle creation, and the order of UEL entries: only the contracts named above.
- DuckDB's binder, vectors and validity masks: output is modelled as rows, so column-wise buffers and string ownership are not captured.
- Expressions.CastTo: an integer is read from an optional minus sign and digits only, and a cast that fails gives NULL instead of an error; a number becomes the nearest integer, the even one of two; conversions other than to text and integers are arbitrary functions of the value.
- Subqueries, functions and collations in WHERE clauses, and references to other tables.
- Set element text and special values: a record carries the value each slot maps to, or NULL.
- Scan.ReadGdxGlobalState.ReadGdxFunction: a chunk lost to a failing read-done or close is reported as an error without its rows, as the code does; progress reporting is not modelled.
- DomainValues.DomainValuesCursor.DomainValuesFunction: a cursor reads what its slot holds now; that a slot overwritten meanwhile may also be freed memory is not captured.
- Failing opens, symbol lookups and read starts inside `gdx_domain_values`, and its dimension argument given by number.
- MetadataCache.GdxMetadataCache.GetOrLoad: the load itself is one value taken at some moment between its start and its end; the disabled sidecar files are not modelled.
- RandomAccess.RandomAccessAdapter.ReadAt: files do not change while open, and a provider writes no more bytes than requested, whatever count it reports.
- HttpHeaders.LearnedSizeExactly: a total reported by the fetch layer is the length of the body it received.
- RandomAccess.RandomAccessAdapter.CloseInternal: close callbacks that throw are not modelled.
- URL resolution, HTTP header registration and the fetch plumbing around a response.
- Error codes and messages, type names, the preload pragma and extension registration.
