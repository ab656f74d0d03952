# NSIDC glacier-photo scraper and citation generator

This project models two scripts.

- **The scraper.** It reads a list of requested photograph file IDs from a spreadsheet. It drops missing cells and then keeps only the first occurrence of each ID, in order. It cuts the IDs into batches of 20 and types each batch, one ID per line, into the NSIDC glacier-photo search page. From every result row it reads five cells.
  - The glacier name, photographer, date and spatial coverage cells are each trimmed.
  - The compound file-info cell is trimmed as a whole and split on line breaks. Its first three lines are the Digital File ID, the photograph number and the GLIMS glacier ID, each trimmed. A line that is missing gives `""`.
  - A record is kept only when its Digital File ID has not been seen before, so the first record wins.
  - A row whose cells cannot be read is skipped, and so is a batch whose search fails. The run goes on in both cases.
  - The records are written out only when there are any.
  - Finally, the run reports, sorted and each once, the requested IDs for which no record was captured.
- **The citation generator.** It looks a Digital File ID up in the merged metadata table and formats an NSIDC photograph citation from the first matching row.
  - It applies defaults for missing cells: "Unknown Glacier" and "Unknown".
  - It removes a "Photograph Number" heading from the photograph number. Only the spellings "Photograph number" and "Photograph Number" are removed, although the test for the heading ignores case (see "## Findings").
  - It shortens a date holding `XX` or `xx` to its year.
  - It chooses one of two templates, depending on whether a photographer is named.
  - When no row matches, it returns an error message.

Files:

- `wrappers.dfy` (`Option`)
- `text.dfy`: Python's `strip`, `lstrip(chars)`, `split`, `join`, `in`, `replace`, `lower` and slicing on `str`, with their lemmas.
- `strorder.dfy`: Python's `<` on `str` and `sorted(set(xs))`.
- `dedup.dfy`: first-seen de-duplication by key. It serves both as `Series.unique()` and as the `scraped_ids` loop.
- `scraper.dfy`
- `citation.dfy`

The browser is a parameter, `Session`.
- For batch `i` and the text typed into the search field, it either fails before any row is read, or it gives the rendered rows.
- Each row either fails when its cells are read, or gives the text of its five cells.

The scraping loops are a method, `Scraper.Harvest`, with the inner row loop in `Scraper.HarvestRows`.
- They grow `allResults` and `scrapedIds` in place.
- The method is proved equal to `Harvested`: the first-seen de-duplication of `Captured`, which is every record parsed during the run.
- The properties of the run are lemmas about those functions.

The loops are stated for any row parser. `Scraper.Run` passes `Scraper.ParseRow`. A missing spreadsheet cell is `None`.

## Model

| member | source | states |
|---|---|---|
| Scraper.Present | nsidc-scraper.py:12 | `dropna`: a value is kept exactly when it is a non-missing cell of the column |
| Scraper.PresentKeepsFirstOrder | nsidc-scraper.py:12 | dropping missing cells keeps the order in which two IDs first appear in the column |
| Scraper.NormalizeIds | nsidc-scraper.py:12 | the requested IDs hold no duplicate and are exactly the non-missing column values, in the order of their first appearance in the column |
| Dedup.DedupBy | nsidc-scraper.py:12 | first-seen de-duplication: the result has pairwise distinct keys and exactly the keys of its input |
| Dedup.DedupFirstSeen | nsidc-scraper.py:12 | each kept element is the first input element with its key, and the kept elements follow the order of their keys' first appearance |
| Dedup.FirstIndex | nsidc-scraper.py:12 | the first position of a key, or the length when the key is absent, with no earlier element having the key |
| Scraper.Batches | nsidc-scraper.py:15-16 | the batches, concatenated in order, give back the ID list; each is non-empty and at most `size` long; all but the last are exactly `size` long |
| Scraper.BatchesFrom | nsidc-scraper.py:16 | the slices from an offset on concatenate to the rest of the list, with the same length bounds |
| Scraper.BatchesPartition | nsidc-scraper.py:15-16 | an ID lies in some batch exactly when it was requested, and never in two batches |
| Scraper.ThreeInBatchesOfTwo | nsidc-scraper.py:16 | three IDs in batches of two give a full batch and then the remainder |
| Scraper.QueryText | nsidc-scraper.py:48 | the text typed into the search field, the batch joined with line breaks by Text.Join, split on line breaks, gives the batch back, one ID per line, when no ID holds a line break |
| Text.Split | nsidc-scraper.py:70 | `split("\n")` gives at least one part, no part holds the separator, and joining the parts gives the text back |
| Text.SplitJoin | nsidc-scraper.py:48 | `sep.join(parts)`, as typed into the search field, is undone by `split(sep)` when no part holds the separator |
| Text.LStripShape | nsidc-scraper.py:64-68 | `lstrip()` drops a leading run of whitespace and keeps the rest, which does not start with whitespace |
| Text.RStripShape | nsidc-scraper.py:64-68 | `rstrip()` drops a trailing run of whitespace and keeps the rest, which does not end with whitespace |
| Text.StripShape | nsidc-scraper.py:64-68 | `strip()` keeps the slice between a whitespace-only margin on each side, and the result neither starts nor ends with whitespace |
| Text.StripIdempotent | nsidc-scraper.py:64-73 | trimming twice is trimming once |
| Scraper.Field | nsidc-scraper.py:71-73 | a sub-field is trimmed and holds no line break, and is `""` when the cell has too few lines |
| Scraper.ParseRow | nsidc-scraper.py:64-73 | parsing a row never fails; every field comes out trimmed, and the three file-info sub-fields hold no line break |
| Scraper.FileInfoFields | nsidc-scraper.py:68-73 | when the first of several lines is not blank, splitting the trimmed cell assigns the lines by position, and later blank lines are lost |
| Scraper.CompoundCellPositional | nsidc-scraper.py:68-73 | a cell of lines `A`, `B`, `C` parses to file ID `A`, photograph number `B` and GLIMS ID `C`, each trimmed; with fewer lines the trailing sub-fields are `""` |
| Scraper.CompoundCellExamples | nsidc-scraper.py:68-73 | `"ID1\nPN2\nGL3"` parses to the three sub-fields, and `"ID1"` alone leaves the other two empty |
| Scraper.BlankFirstLineShifts | nsidc-scraper.py:68-73 | the whole cell is trimmed before the split, so a blank first line vanishes and the photograph number lands in the file-ID column |
| Scraper.BlankLastLineDropped | nsidc-scraper.py:68-70 | a blank last line is lost when the whole cell is trimmed |
| Scraper.IdCellRecord | nsidc-scraper.py:68-71 | a cell that holds only a trimmed ID parses to that file ID |
| Scraper.Harvest | nsidc-scraper.py:28-92 | after the batch loop, `allResults` is the first record captured for each ID; `scrapedIds` is the set of its IDs, which is the set of IDs of everything captured; and the IDs in `allResults` are pairwise distinct |
| Scraper.HarvestRows | nsidc-scraper.py:62-89 | the row loop of one loaded batch extends the first-seen results with the records of the rows that could be read, and keeps `scrapedIds` equal to their IDs |
| Scraper.KeepFirstStep | nsidc-scraper.py:76-86 | one parsed row appends its record exactly when its ID is not in `scrapedIds`, and the ID set grows by that ID |
| Scraper.HarvestAppendOnly | nsidc-scraper.py:76-86 | what is collected after the first `n` batches is a prefix of the final result |
| Dedup.DedupPrefix | nsidc-scraper.py:76-86 | later elements never remove or replace an element already kept |
| Scraper.EarlierBatchWins | nsidc-scraper.py:76-86 | a record that batch `i` yields for some ID leaves a record with that ID in the result, and that record was captured by batch `i` or an earlier one |
| Dedup.DedupKeepsEarliest | nsidc-scraper.py:76-86 | for an element among the first `n`, the kept element with its key is also among the first `n` |
| Scraper.RepeatedIdKeepsFirst | nsidc-scraper.py:76-86 | when two batches each yield a record for the same ID, only the first batch's record is kept |
| Scraper.FailedRowIgnored | nsidc-scraper.py:62-89 | a row whose cells cannot be read contributes nothing, wherever it sits, and the rows around it count as before |
| Scraper.FailedBatchIsEmptyBatch | nsidc-scraper.py:31-92 | a batch that fails before its rows are read counts as a batch with no rows; every other batch contributes as before |
| Scraper.CapturedSameSessions | nsidc-scraper.py:31-92 | two browsers that answer every batch alike capture the same records |
| Scraper.SecondBatchTimesOut | nsidc-scraper.py:31-104 | with three IDs in two batches, a first batch yielding A1 and A2 and a second that fails, A1 and A2 are kept and only A3 is reported missing |
| Scraper.NotCaptured | nsidc-scraper.py:104 | the requested IDs not captured, exactly |
| StringOrder.SortedDistinct | nsidc-scraper.py:104 | `sorted(set(xs))` is strictly increasing and holds exactly the elements of `xs` |
| StringOrder.Insert | nsidc-scraper.py:104 | adding one element to a strictly sorted listing keeps it strictly sorted, with that element added |
| StringOrder.SortedListingUnique | nsidc-scraper.py:104 | two strictly sorted listings with the same elements are equal |
| StringOrder.LessAtFirstDifference | nsidc-scraper.py:104 | Python's `<` on `str`: at the first position where two strings differ, the smaller code point sorts first |
| StringOrder.LessProperPrefix | nsidc-scraper.py:104 | a proper prefix sorts before the longer string |
| StringOrder.LessIrreflexive | nsidc-scraper.py:104 | no string sorts before itself |
| StringOrder.LessTransitive | nsidc-scraper.py:104 | Python's string order is transitive |
| StringOrder.LessTotal | nsidc-scraper.py:104 | Python's string order is total on distinct strings |
| Scraper.MissingIds | nsidc-scraper.py:104-111 | the missing IDs are strictly sorted and duplicate-free; they are exactly the requested IDs not captured; the list is empty exactly when every requested ID was captured |
| Scraper.MissingIdsIsTheSortedDifference | nsidc-scraper.py:104 | any strictly sorted listing of the requested-minus-captured difference is the report |
| Scraper.ThreeMissingOne | nsidc-scraper.py:104 | with A1 and A2 captured out of A1, A2, A3, the report is exactly A3 |
| Scraper.Finish | nsidc-scraper.py:95-104 | records are written exactly when there are some, and then all of them; the missing IDs are sorted and are the requested IDs that no written record carries |
| Scraper.Run | nsidc-scraper.py:12-104 | the script computes the report of `Pipeline`: normalise, batch, harvest, then write and reconcile |
| Scraper.PipelineOutcome | nsidc-scraper.py:95-111 | the output is written exactly when some record was captured; its IDs are distinct; the missing IDs are the sorted requested IDs never captured, empty exactly when all were |
| Scraper.NothingCapturedAllMissing | nsidc-scraper.py:95-111 | when nothing is written, every requested ID is reported missing |
| Citation.FirstMatch | glac_citation.py:22-28 | the index of the first row whose Digital File ID equals the ID; no earlier row matches; the length when none matches |
| Citation.GenerateCitation | glac_citation.py:22-28 | the result is the error message exactly when no row matches, and otherwise the citation of the first matching row |
| Citation.CitationNotError | glac_citation.py:24-25 | no citation can equal the error message, as their endings differ |
| Citation.FirstMatchWins | glac_citation.py:28 | when several rows match, the first matching row gives the citation, whatever follows it |
| Citation.LaterRowsIgnored | glac_citation.py:28 | appending rows does not change the citation of an ID that already matches |
| Citation.CitationOf | glac_citation.py:30-58 | a row's citation opens with the photographer's name or the data center's name, followed by the formatted date; it holds the bracketed glacier name and the cleaned photograph number, with the defaults applied and the number cleaned as written, and ends with the closing link and access note |
| Citation.DefaultsApplied | glac_citation.py:30-33 | a missing glacier name is cited as "[Unknown Glacier]" and a missing photograph number as "Unknown"; a missing or empty photographer selects the data-center template, and a named one opens the citation |
| Citation.UnknownIsKept | glac_citation.py:32-42 | the default "Unknown" holds no heading and comes through the clean-up unchanged |
| Citation.CleanPhotoNumber | glac_citation.py:36-42 | the clean-up as written: a number whose lowered text lacks "photograph number" is unchanged; otherwise the result does not start with ':' or ' ' and does not end in whitespace |
| Citation.CleanRemovesLabel | glac_citation.py:36-42 | either capitalisation of the heading, then ": ", then a trimmed number free of headings, gives back the number |
| Citation.CleanExample | glac_citation.py:36-42 | "Photograph Number: 123" is cleaned to "123", both as written and by the any-case clean-up |
| Citation.RemoveAnyCase | glac_citation.py:37-40 | removing the heading without regard to case leaves a text whose lowered form lacks the heading unchanged |
| Citation.RemoveAnyCaseFirstOccurrence | glac_citation.py:37-40 | the first heading, in any capitalisation, is removed, the text before it is kept, and the scan goes on after it, so every heading is removed |
| Citation.CleanPhotoNumberAnyCase | glac_citation.py:36-42 | the clean-up as the comments describe it: a number whose lowered text lacks "photograph number" is unchanged; otherwise the result does not start with ':' or ' ' and does not end in whitespace |
| Citation.CleanAnyCaseRemovesLabel | glac_citation.py:36-42 | the heading in any capitalisation, then ": ", then a trimmed number free of the heading, is cleaned to the number |
| Citation.CapitalHeadingKept | glac_citation.py:38-40 | "PHOTOGRAPH NUMBER: 12" passes the lowered test but comes back unchanged as written, while the any-case clean-up gives "12" |
| Text.Replace | glac_citation.py:40 | a text without the pattern comes back unchanged |
| Text.ReplaceFirstOccurrence | glac_citation.py:40 | the first occurrence of the pattern is replaced, the text before it is kept, and the scan goes on after it, so every non-overlapping occurrence is replaced |
| Text.ContainsAt | glac_citation.py:38 | Python's `sub in s` holds exactly when `sub` is the slice of `s` at some position |
| Text.Lower | glac_citation.py:38 | `lower()` keeps the length and lowers each character |
| Text.LStripChars | glac_citation.py:42 | `lstrip(': ')` drops only leading characters of the set, and what it keeps is a suffix that starts outside the set |
| Citation.FormatDate | glac_citation.py:45-52 | the date part is empty exactly for a missing or empty date; otherwise it ends with ". " after a prefix of the date; that prefix is four characters long, or the whole of a shorter date, when the date holds "XX" or "xx", and is the whole date otherwise |
| Citation.YearOnlyDate | glac_citation.py:49-50 | a date with an unknown month and day is cited by its year |
| Text.Take | glac_citation.py:50 | `s[:n]` is a prefix of `s` of length `min(n, len(s))` |
| Citation.FormatCitation | glac_citation.py:55-58 | with a truthy photographer the citation opens with the photographer's name, the date part, the bracketed glacier and the data center's name; otherwise it opens with the data center's name, the date part and the bracketed glacier; both forms hold the bracketed glacier and "Photograph Number: " with the number, and end with the closing link and access note |

## Left out

- Driving the browser is not modelled: driver set-up, opening the page, the waits and sleeps, the XPath look-ups, clicks, typing, and re-opening the search panel for every batch after the first (nsidc-scraper.py:19-23, 36-61, 114). These are browser I/O. The `Session` parameter stands for all of it, and it receives the batch index so that it can tell the first batch from the later ones.
- Reading and writing spreadsheets is left out (nsidc-scraper.py:11, 96, 102-103; glac_citation.py:19). The ID column and the metadata table are parameters. The written file is the `written` field of `Scraper.Report`.
- Scraper.Run reconciles against the IDs it captured in memory, not against the file read back at nsidc-scraper.py:102-103.
  - The script still reads the file back when nothing was written. It then fails, or reads a file left by an earlier run. Neither path is modelled.
  - Nor is the read-back's `astype(str)`, which would turn an empty Digital File ID into `"nan"`.
- `astype(str)` on the ID column (nsidc-scraper.py:12) is left out: the column is taken to hold text already.
- Prompts and console messages are left out (nsidc-scraper.py:25-26, 32, 89, 92, 97-99, 107-111; glac_citation.py:66-68). They are interactive I/O. The exception messages the loops print are not modelled either; only their effect, that the loops go on, is.
- The `~` path expansion and the default path (glac_citation.py:4, 16) are file-system details outside the formatting.
- Citation.GenerateCitation takes the already loaded table. A missing cell is `None`, standing for pandas' `notna`.
  - Cells that are not text are not modelled: `isinstance` is then false (glac_citation.py:36), and `str()` of a date value (glac_citation.py:47) does not arise.
- Text.Lower folds ASCII letters only, while Python's `lower()` folds all of Unicode. Text.IsSpace is a fixed set of characters standing for Python's `isspace()`.
- Scraper.Harvest is stated for any row parser, and Scraper.Run passes Scraper.ParseRow. The worked harvest examples (Scraper.SecondBatchTimesOut, Scraper.RepeatedIdKeepsFirst) are stated for any parser, given the IDs it returns.
- Citation.FormatCitation: its contract states how the citation opens, what it holds and how it ends, not the whole formatted string. The full template is the function's body.
- Citation.CleanPhotoNumber: its own contract states only the shape of a cleaned number. The exact result for the usual "Photograph Number: <n>" form is stated by Citation.CleanRemovesLabel.
- Citation.CleanPhotoNumberAnyCase: the same holds; the exact result for the heading in any capitalisation is stated by Citation.CleanAnyCaseRemovesLabel.

## Findings

| source | as written | input that shows it | evidently intended | confidence | as-written member | corrected member |
|---|---|---|---|---|---|---|
| glac_citation.py:38-40 | the test for the heading lowers the text, but only the spellings "Photograph number" and "Photograph Number" are removed | "PHOTOGRAPH NUMBER: 12" passes the test and is cited unchanged (Citation.CapitalHeadingKept) | the heading is removed whatever its capitalisation, as the comments at lines 37 and 39 say, giving "12" | medium, not executed | Citation.CleanPhotoNumber | Citation.CleanPhotoNumberAnyCase |
