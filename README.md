# RVK notation harvester — a verified model

The harvester reads a column of ISBNs and asks three library catalogues for each one, in this order:

- the German National Library (DNB);
- the Bavarian union catalogue B3Kat;
- the Swiss network swisscovery (SLSP).

Each request is an SRU searchRetrieve query that returns MARC 21 XML. From each record the harvester takes two things:

- the title, from the first 245 field;
- the RVK classification notations, from the 084 fields whose $2 reads `rvk`.

Each notation's label (`benennung`) is looked up in the RVK web service of the Regensburg university library.

The harvester then builds one consolidated row per ISBN:

- the title, by source priority;
- the labelled notations of all three sources, without duplicates;
- six presence flags.

Two helper scripts prepare the input. One keeps the spreadsheet rows that have a non-blank ISBN. The other cuts the shuffled table into files of 5000 rows.

The Dafny modules follow that structure:

| module | file | what it models |
|---|---|---|
| `Wrappers` | wrappers.dfy | `Option` |
| `Text` | text.dfy | Python's `str.strip()`, `str.isspace()` and one-character `replace`, and `sep.join` |
| `Endpoints` | endpoints.dfy | The endpoint table and the URLs of `metadata_query` and `extract_rvk_name`, each with a parser that takes the URL apart again. |
| `Marc` | marc.dfy | `extract_rvk` on the parsed record: specification functions (`Title`, `RvkNotations`, `Extract`) and the loops of the source as methods proved against them (`ReadTitle`, `LabelField`, `ExtractRvk`). |
| `Cells` | cells.dfy | A spreadsheet cell and its `str()` form. |
| `Harvest` | harvest.dfy | `main()`: the collection loop with per-source failure isolation, the consolidation loop, the flag loop that updates each entry in place (an `array`), and the whole run. |
| `Slicing` | slicing.dfy | The chunk comprehension of slice_dataset.py. |
| `IsbnFilter` | isbn_filter.dfy | The boolean-mask row filter of create_table_only_with_isbn.py. |

## How the outside world is modelled

- **The network** is a value, `Harvest.Web`, with two maps:
  - from catalogue query URL to the parsed record the catalogue returns;
  - from RVK node URL to the label the service returns.

  A URL that is not in its map is a request answered with an HTTP error status. The source turns that error into `SystemExit`, which the model writes as `Exit` / `None`.
- **A failed label lookup** raises `SystemExit` out of `extract_rvk` and then out of `metadata_query`. That source's whole answer is lost, its title included. The model does the same.
- **A MARC record** is the already-parsed sequence of datafields, in document order. A subfield without a `code` attribute is one whose code is `""`.
- **An ISBN cell** is either missing (pandas NaN, whose `str()` is `"nan"`) or holds the text `str()` gives for its value.

## Consolidation order

The consolidated title is taken from DNB first, then B3Kat, then swisscovery (main.py:170-176). The duplicate-free notation list is `list(set)` of the collected pairs (main.py:185), so its order is not fixed.

## Model

| member | source | states |
|---|---|---|
| `Text.Strip` | main.py:86 | The result has no whitespace at either end (whitespace is Python's `isspace` set). It is empty exactly when the input is all whitespace. |
| `Text.StripIsInfix` | main.py:86-87 | `strip()` only removes characters: the result is the infix of the input between a whitespace prefix and a whitespace suffix. |
| `Text.StripStripped` | main.py:87 | Stripping a string that is already stripped changes nothing, so `strip()` is idempotent. |
| `Text.Replace` | main.py:50 | `replace(" ", "+")` keeps the length, turns every occurrence of the old character into the new one and changes nothing else. |
| `Text.ReplaceRoundTrip` | main.py:50 | Replacing back restores the string when the new character did not occur in it. |
| `Text.JoinEnds` | main.py:87 | `" : ".join(parts)` starts with the first part and ends with the last part. Joining no parts gives the empty text. |
| `Text.JoinSnoc` | main.py:87 | Joining one more part appends the separator and then that part. |
| `Endpoints.EndpointOf` | main.py:19-23 | The endpoint table has exactly the keys DNB, B3KAT and SLSP. Any other key is the `KeyError` case. |
| `Endpoints.CatalogUrl` | main.py:102-104 | The catalogue URL is exactly as long as the endpoint's prefix, the ISBN text and the endpoint's suffix together. |
| `Endpoints.CatalogUrlRoundTrip` | main.py:101-104 | A catalogue URL (prefix + `str(isbn)` + suffix) can be parsed back: it gives the catalogue key and the ISBN text unchanged. |
| `Endpoints.CatalogUrlInjective` | main.py:101-104 | Two catalogue queries with different keys or different ISBN texts never share a URL. |
| `Endpoints.RvkQuery` | main.py:49-51 | The RVK node URL is exactly as long as the API prefix, the notation and `?json` together. |
| `Endpoints.RvkQueryShape` | main.py:51 | The RVK node URL starts with the API prefix and ends with `?json`. |
| `Endpoints.RvkQueryPath` | main.py:50-51 | Between prefix and suffix, every space of the notation is `+` and every other character is unchanged. |
| `Endpoints.RvkQueryRoundTrip` | main.py:50-51 | For a notation without `+`, the node URL parses back to the notation. |
| `Endpoints.RvkQueryPlusForSpace` | main.py:50-51 | Every notation gives the same node URL as the same notation with its spaces written as `+`. So the round trip needs notations without `+`. |
| `Endpoints.RvkQuerySpaceMeetsPlus` | main.py:50 | For example, `SU 680` and `SU+680` produce the same node URL. |
| `Marc.FirstField` | main.py:80 | `find("datafield", tag=...)` gives the position of the first field with the tag, or the end of the record when there is none. |
| `Marc.FirstSubfield` | main.py:94 | `find("subfield", code=...)` gives the position of the first subfield with the code, or the end when there is none. |
| `Marc.FieldsTagged` | main.py:90 | `find_all` returns only fields with the tag, and every field with the tag is among them. |
| `Marc.SubfieldsCoded` | main.py:92 | `find_all` returns only subfields with the code, and every subfield with the code is among them. |
| `Marc.LabelOf` | main.py:49-60 | A label lookup succeeds exactly when the service answers the notation's node URL. |
| `Marc.WithLabels` | main.py:95-98 | Labelling keeps the number of notations. |
| `Marc.WithLabelsAt` | main.py:95-98 | Position by position, each notation is paired with the label the service answers for it. |
| `Marc.WithLabelsAppend` | main.py:89-98 | Labelling two runs of notations one after the other gives the labelled first run followed by the labelled second run. |
| `Marc.ReadTitle` | main.py:79-87 | The title loop computes `Title`: from the first 245 field, the $a/$b texts, each stripped, joined by " : ", stripped again. It returns `None` when there is no 245 field. |
| `Marc.LabelField` | main.py:91-98 | The loop over one 084 field's $2 subfields succeeds exactly when every notation the field calls for has a label. It then returns those notations with their labels, in order. |
| `Marc.ExtractRvk` | main.py:76-99 | `extract_rvk` computes `Extract`. The result is the title and the labelled notations of all 084 fields in document order, or `SystemExit` as soon as one label lookup fails. |
| `Marc.TitleFromFirst245` | main.py:79-87 | The title is absent exactly when the record has no 245 field. Otherwise it comes from the first 245 field alone and is stripped. |
| `Marc.TitleIgnoresLaterFields` | main.py:80 | Fields appended after a record that already has a 245 field never change its title. |
| `Marc.TitlePartsAppend` | main.py:83-86 | Title parts keep document order: the parts of two runs of subfields are the parts of the first run followed by those of the second. |
| `Marc.TitlePartsCount` | main.py:84-86 | There is one title part per $a or $b subfield, and none for any other subfield. |
| `Marc.TitleWithoutParts` | main.py:80-87 | A 245 field without $a and $b gives the empty title, not an absent one. |
| `Marc.TitleKeepsColonOfBlankFirstPart` | main.py:86-87 | A blank $a before a non-blank $b gives ": " + the stripped $b. The separator's colon survives the final strip. |
| `Marc.RvkNotationsAppend` | main.py:89-98 | Notations come out in document order: a record cut in two yields the notations of the first part, then those of the second. |
| `Marc.OtherFieldsIgnored` | main.py:90 | A field that is not an 084 field contributes no notation, wherever it stands. |
| `Marc.FieldNotationsWhen` | main.py:91-95 | An 084 field yields notations exactly when it has a $a and a $2 whose text is exactly "rvk". Every notation it yields is its first $a, stripped. |
| `Marc.FieldNotationsCount` | main.py:92-94 | An 084 field with a $a yields one notation per $2 reading "rvk". |
| `Marc.RvkNotationSource` | main.py:89-98 | Every notation of a record is the stripped first $a of some 084 field of that record that has a $2 reading "rvk". |
| `Harvest.FirstPresent` | main.py:170-176 | The result is absent exactly when every candidate title is absent. Otherwise it is the first present one. |
| `Harvest.MetadataQuery` | main.py:101-113 | `metadata_query` returns exactly when the catalogue answers the URL built from the endpoint table and every RVK notation of the returned record gets a label. It then gives the record's title and its notations, each with its label, in order. Otherwise it is `SystemExit`. |
| `Harvest.QueryIsbn` | main.py:127-159 | The loop body for one ISBN computes `Collected`. Every source starts with `None` / `[]` and is overwritten only when its own query returns. |
| `Harvest.CollectAll` | main.py:125-162 | The collection loop gives one entry per input ISBN, in input order, each equal to `Collected`. |
| `Harvest.FailureIsolated` | main.py:137-159 | When one catalogue fails for an ISBN, that source keeps `None` / `[]` and the other two sources are recorded exactly as before. |
| `Harvest.UniqueNotations` | main.py:178-184 | The three `add` loops give exactly the set of labelled notations of the three sources. |
| `Harvest.ListOf` | main.py:185 | `list(set)` holds every element of the set once and nothing else. |
| `Harvest.ConsolidateEntry` | main.py:169-197 | The consolidated entry keeps the ISBN and the three sources. It has the priority title and a duplicate-free list of exactly the labelled notations of all three sources. |
| `Harvest.ConsolidateAll` | main.py:167-198 | The consolidation loop gives one consolidated entry per collected entry, in order. |
| `Harvest.PriorityTitleOrder` | main.py:170-176 | The consolidated title is the DNB title if present, else the B3Kat title if present, else the swisscovery title. An empty title counts as present. |
| `Harvest.UniqueBound` | main.py:178-185 | The unique list is never longer than the three source lists together. |
| `Harvest.AddPresenceFlags` | main.py:201-207 | Each entry of the array gains its six flags in place, and nothing else in it changes. A title flag is set iff that source's title is present. A notation flag is set iff that source's list is non-empty. |
| `Harvest.FlagsMatchConsolidation` | main.py:201-207 | No title flag is set exactly when the consolidated title is absent. No notation flag is set exactly when the unique list is empty. |
| `Harvest.Run` | main.py:116-223 | The whole run gives one result row per input ISBN, in input order. Each row carries the ISBN unchanged, the priority title, the deduplicated notations, and the flags of that ISBN's collected entry. |
| `Slicing.ChunkCount` | slice_dataset.py:11 | `range(0, n, size)` has n / size start positions, rounded up. There are none exactly when n is 0. |
| `Slicing.Chunks` | slice_dataset.py:11 | The comprehension has one slice per start position. |
| `Slicing.ChunksConcat` | slice_dataset.py:11 | Concatenating the chunks in order gives back the shuffled table exactly. |
| `Slicing.ChunkRow` | slice_dataset.py:11 | Chunk k starts at row k * size: its j-th row is row k * size + j of the table. |
| `Slicing.RowInChunk` | slice_dataset.py:11 | Every row p of the table is in chunk p / size, at offset p % size. |
| `Slicing.ChunkLengths` | slice_dataset.py:10-11 | Every chunk but the last holds exactly `size` rows. The last holds between 1 and `size` rows. |
| `Slicing.ChunksDisjoint` | slice_dataset.py:11 | Chunk j (starting at row j * size) ends at or before the row where any later chunk k starts, so two chunks never share a row. |
| `Slicing.Slice` | slice_dataset.py:10-11 | With `chunk_size = 5000`, the number of chunks is the number of start positions of `range(0, n, 5000)`. |
| `Slicing.SliceCount` | slice_dataset.py:10-11 | With 5000-row chunks, an empty table gives no chunks. A table of n rows gives n / 5000 chunks, rounded up. |
| `Cells.Str` | main.py:104 | `str()` of a present cell is its text unchanged. `str()` of an empty cell (NaN) is "nan", which is not blank. |
| `IsbnFilter.HasIsbn` | create_table_only_with_isbn.py:11-12 | The mask condition holds exactly when the ISBN is present and its text is not all whitespace. |
| `IsbnFilter.Select` | create_table_only_with_isbn.py:10-13 | Indexing by a boolean mask never adds rows: every kept row is a row of the table, and there are no more of them. |
| `IsbnFilter.Mask` | create_table_only_with_isbn.py:10-13 | The mask is true at exactly the rows whose ISBN is present and is not blank after `str().strip()`. |
| `IsbnFilter.SelectIsSubsequence` | create_table_only_with_isbn.py:10-13 | Masking keeps the rows at strictly increasing positions, so order is kept and nothing is added. A position is kept exactly when the mask is true there. |
| `IsbnFilter.SelectCount` | create_table_only_with_isbn.py:10-13 | A mask keeps as many rows as it has true positions. |
| `IsbnFilter.IsbnOnly` | create_table_only_with_isbn.py:10-13 | Every kept row is a row of the table and has a present ISBN that is non-blank after stripping. There are never more kept rows than table rows. |
| `IsbnFilter.KeepsEveryRowWithIsbn` | create_table_only_with_isbn.py:10-13 | Every row with a present, non-blank ISBN is kept. |
| `IsbnFilter.PrintedCount` | create_table_only_with_isbn.py:15 | The printed row count is the number of table rows that have a present, non-blank ISBN. |
| `IsbnFilter.DroppedRows` | create_table_only_with_isbn.py:11-12 | A row whose ISBN is blank or whitespace-only is dropped. A row without an ISBN is dropped too, although its `str()` is the non-blank "nan". |

## Left out

- HTTP requests, `raise_for_status` and JSON decoding (main.py:53-57, 107-109) are not modelled. The network is the `Web` value of maps described above.
- Exceptions other than `HTTPError` are not modelled: a connection error, or a JSON answer without `node` / `benennung`. In the source they end the program.
- `time.sleep` pacing (main.py:56, 161) is not modelled, because it has no logical effect.
- The error messages printed for a failed source (main.py:143, 151, 159) are not modelled, nor is "Data Collected!" (main.py:164).
- XML parsing by BeautifulSoup is not modelled; records arrive already parsed. The model relies on the fact that a found `Tag` is always truthy, so the `if title_field:` and `if rvk_notation_subfield:` tests are presence tests.
- pandas and file I/O are not modelled: `read_excel`, DataFrame construction, the column projection and `to_csv` / `to_excel`. `Harvest.Run` returns the projected rows as values.
- Harvest.Run: does not model the failure on an empty ISBN column. There, `pd.DataFrame([])` has no columns, and the projection at main.py:211-221 raises `KeyError` before anything is written. For an empty column `Harvest.Run` returns no rows.
- Harvest.Run: does not model answers that change between requests. `Web` is a fixed map, so a URL asked twice always gets the same answer. A transient error status, such as rate limiting, cannot fail one lookup and let another for the same URL pass. The claim that each row is computed from `Collected(isbns[i], web)` rests on this.
- Command-line parsing with `argparse` is not modelled.
- The random shuffle `df.sample(frac=1, random_state=42)` is not modelled. Its output is the input sequence of `Slicing.Slice`.
- The print-and-write loop over the chunks in slice_dataset.py is not modelled.
- adjust_data.py and create_testdata.py are not part of this model. They are a column selection and a prefix slice, followed by file I/O.
- How pandas prints a numeric ISBN is not modelled. A cell holds the text `str()` gives for its value.
- `Harvest.ListOf` does not fix the order of `list(set)`. That order depends on Python's hashing, which the model leaves open.
