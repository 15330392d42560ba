# PR_EQ_Data ETL core in Dafny

PR_EQ_Data builds a table of earthquakes around Puerto Rico from two sources:

- the USGS event service, which returns GeoJSON;
- the Puerto Rico Seismic Network (PRSN) catalogue, an HTML table.

Both feeds go through the same steps:

1. `clean_data` normalises the rows into one canonical row shape.
2. `get_intersections` tags each event with the named region whose polygon contains it, then reports on that tagging.
3. `load_to_db` writes the batch to a staging table, deletes the stale rows of the final table, inserts the new ones, and prints the row counts.
4. `load_delta_data` decides which time window to fetch next, using the newest stored data.

This project models those four pieces and proves what each one promises.

| file | module | models |
|---|---|---|
| `events.dfy` | `Events` | The canonical event row, the ids of a table, and the natural-key invariant. |
| `text.dfy` | `Text` | The Python string operations the cleaning and window code relies on: `str.lower`, `str.split()`, `re.sub(r'[^\w\s\']', '', …)`, `replace(' ', '')`, `int(…)` and `str(int)`. |
| `clean.dfy` | `Clean` | `clean_data` for both sources. |
| `regions.dfy` | `Regions` | The tagging loop and validation pass of `get_intersections`, as a method with a loop invariant. |
| `merge.dfy` | `Merge` | The set-level effect of the DELETE and INSERT statements of `load_to_db` and its count report. The class `Store` holds the staging and final tables that `Merge` updates. |
| `window.dfy` | `Window` | The USGS `updatedafter` cursor and the PRSN form fields computed by `load_delta_data`. |
| `pipeline.dfy` | `Pipeline` | The tail of `load_delta_data`: clean, tag, validate and merge. |

The geometric containment test is a parameter `within`, and so are the pandas text-to-number and text-to-datetime conversions. Timestamps are whole seconds since the epoch.

## Model

| member | source | states |
|---|---|---|
| Events.UniqueIdsIffNoDuplicates | etl.py:301 | No two rows share an id exactly when pandas' `id.duplicated().any()` is false. |
| Text.Keep | etl.py:193 | A character filter keeps exactly the characters that satisfy the predicate and never lengthens the text. |
| Text.KeepAppend | etl.py:193 | The filter works character by character: filtering a concatenation concatenates the filtered parts. |
| Text.KeepAll | etl.py:193 | Text in which every character passes the filter is left unchanged. |
| Text.StripPunctuation | etl.py:193 | `re.sub(r'[^\w\s\']', '', …)` keeps exactly the word characters, whitespace and apostrophes of the text and never lengthens it. |
| Text.DeleteSpaces | etl.py:193 | `replace(' ', '')` keeps exactly the characters other than the blank, leaves no blank, and never lengthens the text. |
| Text.PrsnId | etl.py:193 | A PRSN id holds exactly those characters of the `UTC Time` text that are word characters, apostrophes or whitespace other than the blank. It has no blanks and is no longer than that text. |
| Text.PrsnIdAppend | etl.py:193 | The id of a concatenation is the concatenation of the ids. |
| Text.PrsnIdIdempotent | etl.py:193 | Deriving an id from an id changes nothing. |
| Text.PrsnIdOfDigits | etl.py:193 | A run of digits is its own id. |
| Text.PrsnIdDropsSeparator | etl.py:193 | A punctuation character or a space between two parts is removed and the parts are joined. |
| Text.PrsnIdOfTriple | etl.py:193 | Three digit runs joined by two punctuation characters have the three runs concatenated as id. |
| Text.PrsnIdOfTimestamp | etl.py:193 | The id of a "Y-M-D h:m:s" timestamp is its digit fields concatenated. |
| Text.LowerChar | etl.py:180 | `str.lower` on one character: an upper-case letter becomes its lower-case form; any other character is unchanged. |
| Text.Lower | etl.py:180 | Lower-casing keeps the length and maps every position through `LowerChar`. |
| Text.LowerSpec | etl.py:180 | Lower-cased text holds no upper-case letter, keeps every other character, and lower-casing it again changes nothing. |
| Text.Word | etl.py:191-192 | The first token runs up to the first whitespace character or to the end of the text. |
| Text.Split | etl.py:191-192 | `str.split()` yields non-empty tokens that contain no whitespace. |
| Text.SplitBlank | etl.py:191-192 | Text made only of whitespace has no tokens. |
| Text.SplitWord | etl.py:191-192 | A non-empty whitespace-free run followed by whitespace or the end is the first token, and splitting continues after it. |
| Text.SplitToken | etl.py:191-192 | A token followed by one whitespace character comes first, and that whitespace character is dropped. |
| Text.SplitConcat | etl.py:191-192 | Splitting loses only whitespace: the tokens joined in order are the text with its whitespace removed. |
| Text.WordOfPrefix | etl.py:191-192 | Text made of one token followed by whitespace or the end reads that token first. |
| Text.SplitPair | etl.py:191-192 | "a b" splits into exactly `[a, b]` when `a` and `b` are non-empty tokens. |
| Text.NatToString | etl.py:332-335 | `str(n)` is a non-empty run of digits with no leading zero. |
| Text.Pad2 | etl.py:332-335 | A two-digit zero-padded field is two digits. |
| Text.Pad4 | etl.py:331 | A four-digit zero-padded year is four digits. |
| Text.ParsePad4 | etl.py:331 | `int` of a zero-padded four-digit year is its value, which fixes what `Pad4` renders. |
| Text.TrimLeft | etl.py:332 | Stripping leading whitespace leaves a suffix of the text: everything before it is whitespace, and it does not start with whitespace. |
| Text.TrimRight | etl.py:332 | Stripping trailing whitespace leaves a prefix of the text: everything after it is whitespace, and it does not end with whitespace. |
| Text.DigitsValueOfNat | etl.py:332 | Reading back the decimal text of `n` gives `n`. |
| Text.TrimDigits | etl.py:332 | A run of digits is unchanged by stripping. |
| Text.ParseNatToString | etl.py:332 | `int(str(n)) == n`. |
| Text.DigitsValuePad2 | etl.py:332-335 | The digits of a zero-padded two-digit field read as its value. |
| Text.ParsePad2 | etl.py:332-335 | `int` of a zero-padded two-digit field is its value. |
| Text.ParseInt | etl.py:332-342 | `int(text)` succeeds exactly when the text, stripped of surrounding whitespace, is an optional sign followed by one or more decimal digits. |
| Text.IntToString | etl.py:332-342 | `str(i)` for any integer reads back: `int(str(i)) == i`. |
| Text.IntToStringReads | etl.py:332-342 | A negative integer's text, a minus sign followed by the digits of its magnitude, reads back as that integer. |
| Text.ParseIntNegated | etl.py:332-342 | A minus sign followed by digits reads as the negated value of the digits. |
| Text.ParseNegative | etl.py:332-342 | `int(str(-n)) == -n` for every natural `n`. |
| Clean.EpochSeconds | etl.py:175-178 | Rendering a millisecond epoch to the second floors it: the result is the whole seconds `s` with `1000 s <= ms < 1000 s + 1000`. |
| Clean.NormalizeUsgs | etl.py:175-185 | A cleaned USGS row keeps its id, magnitude, coordinates, depth, sources, title and url. Its times are the raw milliseconds floored to seconds, its `magType` is lower-cased, and it has no region. |
| Clean.KeepPositive | etl.py:183 | The magnitude filter keeps exactly the rows with `mag > 0`. |
| Clean.KeepPositiveAppend | etl.py:183 | The filter keeps the survivors in their original order. |
| Clean.MapUsgs | etl.py:175-181 | The rows are normalised row by row, in order. |
| Clean.CleanUsgs | etl.py:173-185 | The cleaned USGS batch holds exactly the normalised raw rows with `mag > 0`, all untagged, and is no longer than the raw batch. |
| Clean.KeepPositiveSingle | etl.py:183 | One row passes the magnitude filter exactly when its magnitude is positive. |
| Clean.CleanUsgsAppend | etl.py:175-185 | Cleaning works record by record: the cleaned concatenation of two batches is the concatenation of the cleaned batches, so survivors keep their order. |
| Clean.CleanUsgsSingle | etl.py:175-185 | One record survives, normalised, exactly when its magnitude is positive. |
| Clean.Dedup | etl.py:204 | `drop_duplicates` keeps every distinct row once and leaves no two identical rows. |
| Clean.DedupPrefix | etl.py:204 | The first occurrence is kept: later rows never change the deduplicated prefix. |
| Clean.DedupDistinct | etl.py:204 | A table without repeated rows is left as it is. |
| Clean.HasMagType | etl.py:191 | The magnitude text has a second token, so `x.split()[1]` does not raise; `CleanPrsn` fails exactly when some row lacks one. |
| Clean.NormalizePrsn | etl.py:189-201 | A PRSN row's id comes from its `UTC Time` text alone, `mag` is the parsed first token of the magnitude text, and `magType` is its second token. `date_time` is the parsed `UTC Time` text, `sources` is the network, and the coordinates and depth carry over. It has no revision marker, title, url or region. |
| Clean.MapPrsn | etl.py:189-201 | The rows are normalised row by row, in order. |
| Clean.CleanPrsn | etl.py:187-204 | Cleaning fails exactly when some magnitude text has fewer than two tokens. Otherwise the result is exactly the distinct normalised rows with `mag > 0`, all untagged, no two identical. |
| Clean.NormalizePrsnSplitsMagnitude | etl.py:191-192 | Magnitude text "4.2 Md" gives magnitude `4.2` and type "Md". |
| Clean.FilterPair | etl.py:202-204 | Two different rows with positive magnitude both pass the filter and the deduplication, in order. |
| Clean.CleanPrsnPair | etl.py:187-204 | Two well-formed catalogue rows that normalise to different positive rows clean to exactly those two rows, in order. |
| Clean.PrsnIdsMayCollide | etl.py:193-204 | Two different catalogue rows with the same timestamp both survive cleaning with the same id. |
| Regions.PolygonOf | etl.py:290-293 | The lookup of a region's ring by name; `PolygonOfFirst` states that it is the ring of the first region with that name. |
| Regions.PolygonOfFirst | etl.py:290-293 | A region name resolves to the ring of the first region with that name. |
| Regions.PolygonOfDistinct | etl.py:290-293 | When region names are distinct, each region is tested against its own ring. |
| Regions.Matches | etl.py:293-297 | One region's pass yields exactly the events inside its ring, each tagged with the region's name. |
| Regions.MatchesOfRegion | etl.py:290-297 | The pass over one region yields exactly the input events that region claims, labelled with its name. |
| Regions.TaggedStep | etl.py:288-298 | Each pass appends its rows: a row is in the table after region `j` exactly when it was there before or region `j` labels it. |
| Regions.Tagged | etl.py:287-298 | The table after the first `k` passes; its contents are stated by `TaggedStep`, `TaggedPrefix`, `TaggedSound`, `TaggedComplete` and `TaggedMembership`. |
| Regions.TagAll | etl.py:287-299 | The table after every region has had its pass; `TaggedMembership` and `ValidateById` state what it holds and how it is judged. |
| Regions.TaggedPrefix | etl.py:288-298 | Later passes only append: the table after `m` regions is a prefix of the table after any later count. |
| Regions.TaggedSound | etl.py:288-298 | Every tagged row is an input event labelled by a region that claims it. |
| Regions.TaggedComplete | etl.py:288-298 | Every input event labelled by a region that claims it is a tagged row. |
| Regions.TaggedRows | etl.py:288-298 | Every tagged row carries an input id and a region. |
| Regions.TaggedMembership | etl.py:288-298 | A row is in the tagged table exactly when it is an input event tagged with the name of a region that claims it. |
| Regions.CountIdAppend | etl.py:298 | Appending tables adds their id counts. |
| Regions.CountIdPositive | etl.py:303 | An id occurs in a table exactly when its count is positive. |
| Regions.CountIdOfPair | etl.py:301 | Two rows with one id give that id a count of at least two. |
| Regions.DuplicatedOfCount | etl.py:301 | A count of two or more means `id.duplicated()` flags a row. |
| Regions.CountIdMatches | etl.py:293-297 | For input with distinct ids, one region's pass holds an event once if the event is inside the ring and otherwise not at all. |
| Regions.CountIdStep | etl.py:288-298 | For input with distinct ids, one more pass adds one copy of an event's id if its region claims the event and none otherwise. |
| Regions.CountIdTagged | etl.py:288-298 | For input with distinct ids, an event's id occurs in the tagged table once per claiming region. |
| Regions.Validate | etl.py:300-306 | The verdict is "more than one region" exactly when some tagged id repeats. Otherwise it is "without a region" exactly when some input id is missing from the tagged table, and "no issues" exactly when every input id is there. |
| Regions.DuplicatesIffClaimedTwice | etl.py:301-302 | For input with distinct ids, the tagged table repeats an id exactly when some event is claimed by two or more regions. |
| Regions.ValidateTagged | etl.py:288-306 | For input with distinct ids, the verdict is "more than one region" exactly when some event has two or more claiming regions. It is "without a region" exactly when none has two and some event has none. It is "no issues" exactly when every event has exactly one. |
| Regions.ClaimsOfIdStep | etl.py:288-298 | One more pass adds, for an id, the rows with that id in that region's matches. |
| Regions.ClaimsOfId | etl.py:288-298 | An id carried by no input event has no claims. `CountIdTaggedById` equates the claims with the copies of the id in the tagged table. |
| Regions.CountIdTaggedById | etl.py:288-298 | For any input, an id occurs in the tagged table once per claim on an event that carries it. |
| Regions.ClaimsOfIdAtLeast | etl.py:288-298 | An event's claims count towards the claims of its id. |
| Regions.ClaimsOfIdPair | etl.py:288-298 | Two events that share an id both count towards that id's claims. |
| Regions.DuplicatesIffIdClaimedTwice | etl.py:301-302 | For any input, the tagged table repeats an id exactly when some input id has two or more claims. |
| Regions.ValidateById | etl.py:288-306 | For any input, including events that share an id, the verdict is "more than one region" exactly when some input id has two or more claims. It is "without a region" exactly when none has two and some has none. It is "no issues" exactly when every input id has exactly one. |
| Regions.CollidingIdsReported | etl.py:288-302 | Two events that share an id, each inside some region, are reported as "more than one region", even when each lies in exactly one region. |
| Regions.OverlappingRegionsReported | etl.py:288-302 | An event inside two overlapping regions is reported as "more than one region", whether or not input ids are distinct. |
| Regions.MatchCountAtLeastTwo | etl.py:288-298 | Two claiming regions give a match count of at least two. |
| Regions.MatchCountAtLeastOne | etl.py:288-298 | One claiming region gives a match count of at least one. |
| Regions.MatchCount | etl.py:288-298 | The number of the first `k` regions that claim an event is at most `k`. `MatchCountAtLeastOne` and `MatchCountAtLeastTwo` bound it from below. |
| Regions.Intersections | etl.py:283-309 | The loop builds the tagged table region by region, and the verdict is the validation of that table. |
| Merge.Stale | etl.py:244 | PRSN: a staged row always makes the stored row with its id stale. USGS: exactly when both revision markers are present and differ, so never when either marker is NULL. |
| Merge.EvictedIds | etl.py:227-248 | The DELETE subquery selects the ids that are both staged and stored. For USGS it also requires the two revision markers to differ; a NULL marker never differs. |
| Merge.Without | etl.py:256 | The DELETE keeps exactly the rows whose id is not selected. |
| Merge.AfterDelete | etl.py:241-245 | The DELETE keeps exactly the stored rows whose id the subquery does not select, and never lengthens the table. |
| Merge.MergeResult | etl.py:246-248 | DELETE then INSERT of the staged rows whose id is not stored. `PrsnMergeContents`, `UsgsMergeContents` and `MergeStoresBatch` state the resulting contents. |
| Merge.ReportOf | etl.py:260-267 | The report is "No records to update" exactly when the count is unchanged. Otherwise it prints the given before and after counts and the delta `after - before`, which is non-zero. |
| Merge.WithoutAppend | etl.py:256 | The DELETE works row by row: deleting from a concatenation concatenates the results. |
| Merge.WithoutNone | etl.py:256 | Deleting ids the table does not hold changes nothing. |
| Merge.WithoutCovered | etl.py:256 | Deleting every id a table holds empties it. |
| Merge.WithoutRelevant | etl.py:256 | Only the ids a table holds affect the DELETE. |
| Merge.WithoutUnique | etl.py:256 | Deleting rows keeps ids unique. |
| Merge.UniqueIdsAppend | etl.py:259 | Two tables with unique and disjoint ids append to a table with unique ids. |
| Merge.IdsAppend | etl.py:259 | The ids of appended tables are the union of their ids. |
| Merge.WithoutUnion | etl.py:256 | Deleting two sets of ids at once equals deleting one set and then the other. |
| Merge.WithoutPartition | etl.py:256 | When every row's id is in exactly one of two sets, the rows kept by the two deletes together are the table, as a bag. |
| Merge.PrsnMergeContents | etl.py:227-236 | PRSN: the final table becomes its rows whose id is not staged, followed by every staged row. |
| Merge.UsgsMergeContents | etl.py:238-248 | USGS, with unique ids: a stored row is deleted exactly when a staged row with its id has a different marker. A row is in the new final table exactly when it survived the delete, or it is staged and its id is not among the survivors. |
| Merge.UniqueRowOfId | etl.py:234-236 | In a table with unique ids, an id determines its row. |
| Merge.MergeUnique | etl.py:252-259 | With unique ids in the stored table and the batch, the merged final table has unique ids, for both sources. |
| Merge.StagedDuplicatesBothInserted | etl.py:227-248 | Two staged rows that share a new id are both inserted, and the key is lost. |
| Merge.MergeIdempotent | etl.py:252-259 | Merging the same batch twice gives the same sequence of rows as merging it once, for PRSN always and for USGS when the batch ids are unique. |
| Merge.PrsnMergeIdempotent | etl.py:227-236 | PRSN: a second merge of the same batch changes nothing. |
| Merge.PrsnRemergeStable | etl.py:227-236 | PRSN: re-merging a batch into a table that already ends with it changes nothing. |
| Merge.UsgsMergeIdempotent | etl.py:238-248 | USGS: with unique batch ids, a second merge of the same batch leaves the same sequence of rows. |
| Merge.UsgsRerunEvictsOnlyInserted | etl.py:238-248 | USGS: a second merge of a batch deletes no row that survived the first delete, only rows the first merge inserted. |
| Merge.UsgsRerunShape | etl.py:238-248 | USGS: a second merge keeps the survivors of the first delete, then the inserted rows it does not delete, then the inserted rows it deletes and inserts again. |
| Merge.UsgsMergeBagIdempotent | etl.py:238-248 | USGS, for any batch, even with repeated ids: a second merge of the same batch leaves the same rows, as a bag. |
| Merge.MergeBagIdempotent | etl.py:252-259 | For either source and any batch, a second merge of the same batch leaves the same rows, as a bag. |
| Merge.MergeStoresBatch | etl.py:252-259 | Every staged id is in the final table afterwards. For PRSN, every staged row is. |
| Merge.MergeAll | etl.py:252-259 | The final table after a series of runs; `MergeAllUnique` states that it keeps ids unique. |
| Merge.MergeAllUnique | etl.py:252-259 | Across any series of runs with unique-id batches, ids stay unique. |
| Merge.NewEventInserted | etl.py:252-267 | A batch of one new event is appended, reports a delta of one, and leaves the table unchanged on a re-run. |
| Merge.RevisionReplacesStoredRow | etl.py:238-263 | A USGS revision replaces the stored row, and because the count is unchanged the run prints "No records to update". |
| Merge.Store.constructor | etl.py:225-252 | A store starts with an empty staging table and the given final table. |
| Merge.Store.Merge | etl.py:225-267 | Staging is replaced by the batch. The final table becomes the merge of the old table and the batch. The report compares the counts before and after. Unique ids are kept. For every batch, a re-run with the same batch would leave the same rows as a bag; the sequence itself is unchanged for PRSN or a batch with unique ids (`MergeIdempotent`). |
| Window.MaxUpdated | etl.py:320 | `max(updated_datetime)` skips NULLs: it is NULL exactly when every marker is NULL, and otherwise it is a stored marker that no marker exceeds. |
| Window.UsgsStart | etl.py:320-321 | The USGS cursor fails exactly when no marker is stored. Otherwise it is seven days below a stored marker, and no marker is more than seven days above it. |
| Window.Slice | etl.py:330-335 | Python slicing clamps indices that run past the end. |
| Window.IntField | etl.py:332-335 | `str(int(field))` fails exactly when `int` rejects the field. |
| Window.PrsnStart | etl.py:330-335 | The start year is characters [0,4) of the stored timestamp text. Month, day, hour and minute are `int` of the slices [5,7), [8,10), [11,13) and [14,16). The start fails exactly when one of those slices is not an integer. |
| Window.PrsnEnd | etl.py:339-344 | The end year is characters [0,4) of today's text; month and day are `int` of the slices [5,7) and [8,10); hour and minute are "23" and "59". It fails exactly when the month or day slice is not an integer. |
| Window.PrsnWindow | etl.py:330-344 | The window exists exactly when both ends do; then its start is `PrsnStart` of the stored text and its end is `PrsnEnd` of the clock text, at 23:59. Otherwise it carries the error of the first end that fails. |
| Window.Str | etl.py:330 | A stored datetime renders to 19 characters. |
| Window.StrPositions | etl.py:330-335 | The fixed slices of a rendered datetime are its zero-padded fields. |
| Window.IntFieldOfPad2 | etl.py:332-335 | `str(int(field))` of a zero-padded field is its value without leading zeros. |
| Window.PrsnStartOfStored | etl.py:330-335 | For a stored timestamp, the start is its four-digit year and its month, day, hour and minute without leading zeros. |
| Window.PrsnEndOfNow | etl.py:339-344 | For today's timestamp, with or without a fractional-seconds suffix after the seconds, the end is its date at 23:59. |
| Window.PrsnWindowOfStored | etl.py:330-344 | For a stored timestamp and today's clock text, the window starts at the stored year, month, day, hour and minute and ends today at 23:59. |
| Window.PrsnStartOfEmptyTable | etl.py:330-332 | On an empty table the text is "None", and the month field fails to parse. |
| Window.PrsnIdOfStored | etl.py:193 | The id of a catalogue timestamp in the stored layout is its digits. |
| Pipeline.CleanBatch | etl.py:171-207 | The batch is cleaned by its own source's cleaner: `CleanUsgs` for USGS rows, `CleanPrsn` for PRSN rows. A cleaned batch holds only untagged rows with `mag > 0`. |
| Pipeline.LoadDelta | etl.py:347-354 | A cleaning failure stops the run and leaves the store unchanged. Otherwise the batch is tagged and validated, and it is merged whatever the verdict is. When the verdict is not "duplicates", unique ids are kept. |

## Left out

- Fetching is not modelled:
  - `get_usgs_data` (HTTP requests, JSON from the network, `sys.exit` on an empty answer);
  - `scrap_prsn` (browser automation).
  A batch enters the model as the fetched rows.
- `connect_to_db` and the database connection are not modelled. The tables are `seq`s held by `Store`.
- `get_regions` is not modelled: it parses polygon text with Python `eval`. Regions enter the model as `(name, ring)` pairs.
- The point-in-polygon test (`gdf.within`) and GeoDataFrame construction are floating-point geometry. `within` is a parameter.
- pandas `to_numeric` and `to_datetime` on text are parameters (`Parsers`), and they are total. So a `to_numeric` error on the magnitude token (etl.py:192) and a `to_datetime` error on the `UTC Time` text (etl.py:200) are not modelled. USGS coordinates and magnitudes are taken as numbers already parsed.
- Clean.CleanPrsn: "fails exactly when" describes the model, whose only failure is a magnitude text with fewer than two tokens; the parse errors above would also stop the source.
- A null USGS `mag` or `magType` (NaN in pandas) cannot be represented: `UsgsRaw` holds a number and a string.
- PRSN `lat`, `lon` and `depth` are text parsed by `pd.to_numeric` (etl.py:197-199). They enter the model as reals in `PrsnRaw`, already parsed, so their parse errors are not modelled.
- Clean.EpochSeconds: pandas raises `OutOfBoundsDatetime` for epochs outside the years 1677 to 2262 (etl.py:175-178). The model accepts every epoch, so that error path is not modelled.
- Calendar conversion of epoch seconds is not modelled. Stored times are epoch seconds, and the PRSN window works on the timestamp text the database returns.
- Regions.Matches: row and index order inside one region's pass is kept, but pandas index values are not modelled.
- Window.UsgsStart: the cursor is epoch seconds. Its `strftime` rendering and the request URL with the fixed bounding box are not modelled.
- Window.PrsnEnd: the wall-clock time is a parameter (`now`).
- Pipeline.LoadDelta: the window step is not connected to the merge step. The fetch that links them is I/O. An empty table fails in `Window.UsgsStart` and `Window.PrsnStartOfEmptyTable`.
- Text: word characters (regex `\w`) are ASCII only: letters, digits and underscore. Python also keeps non-ASCII letters and digits such as é, ñ, ² and µ, which the model deletes from a PRSN id. Whitespace covers the first 256 code points, including the Latin-1 additions; whitespace above them is not modelled.
- Text.ParseInt: Python `int()` also accepts digit-group underscores ("1_0") and non-ASCII digits. The model rejects both.
- Text.Lower: only ASCII letters are lower-cased.
- Text.LowerChar: only ASCII upper-case letters are mapped; other cased letters are left as they are.
- `to_sql` chunking, MySQL subquery materialisation, and the unused post-delete count `r_count` are not modelled.
- `reporting.py` is not part of this model. It holds interactive prompts, query assembly and presentation.
- Printed progress messages are not modelled; the validation verdict and the count report are results instead.

## Behaviour worth knowing


- A failed region validation does not stop the run. The three validation messages (etl.py:300-306) are only printed, and `load_to_db` runs afterwards (etl.py:354). `Pipeline.LoadDelta` merges whatever the verdict is. Its only guarantee about ids is conditional: when the verdict is not "duplicates", unique ids are kept.
- PRSN ids are not a key. `drop_duplicates` removes only fully identical rows (etl.py:204). Two catalogue rows with the same timestamp keep the same id (`Clean.PrsnIdsMayCollide`). The validation then reports "more than one region" even when each event lies in exactly one region (`Regions.CollidingIdsReported`). The merge inserts both rows (`Merge.StagedDuplicatesBothInserted`).
- A USGS run that only revises stored events prints "No records to update", even though rows were replaced. The count report compares only the table sizes (`Merge.RevisionReplacesStoredRow`).
