# Chronicling America downloader — a Dafny model

`download.py` fetches newspaper-page search results from the Chronicling America archive. It
asks for result pages 1, 2, … of a search URL. For every item that carries OCR text, it writes
that text to a file in `<year>/ocr_texts/` and adds a metadata row to `<year>/metadata.csv`.
At the end it writes a summary to `<year>/searchterms.txt`. This project models the data
handling of that program as pure functions and proves what they do:

- `wrappers.dfy`: `Option` and `Result`.
- `exceptions.dfy`: the `Crash` datatype naming each exception the program can raise on its data.
- `strings.dfy`: `str()` of integers, and `str.split` / `str.join` on a one-character separator.
- `paths.dfy`: `os.path.join` on POSIX, and `os.path.split`, which undoes it.
- `sequences.dfy`: order-preserving selection from a sequence (subsequences).
- `filenames.dfy`: the file-name sanitizer of `process_item`. It turns dots into underscores,
  deletes every character outside `[a-zA-Z0-9_]`, falls back to `default_name`, and appends `.txt`.
- `idfields.dfy`: the two look-around regex searches that take the edition and sequence out of
  an item id. They are modelled with Python's leftmost, greedy, newline-bounded `.*`.
- `items.dfy`: `process_item`. An item becomes nothing, or one OCR file and one CSV row, or an
  exception (possibly after the file was written).
- `driver.dfy`: the pagination loop of `write_csv`, written for any item processor. It also
  holds a corrected loop (see Findings).
- `query.dfy`: the request URL of a page, the year taken from the search URL, the output
  layout, and the text of `searchterms.txt`.

The network is a parameter. Page `p` is answered by `responses[p - 1]`. `None` is a failed
download, and a page past the end of the sequence fails too. Files are not written: a run
returns the list of writes (`FileWrite`) and CSV rows it would produce, in order, together with
`text_counter` and how the loop ended.

Behaviour that follows the code where a plain reading of the program's intent would differ:

- An item with OCR text whose id the regex of line 26 or 27 does not match is not skipped. `.group(1)`
  on `None` raises `AttributeError`, which aborts the whole run (`Crashed(NoMatch(..))`).
- A `city`, `county` or `state` key holding an empty list raises `IndexError` on line 48. This
  happens after the OCR file was written, so the run ends with that file written but without
  its row.
- The `default_name` fallback of lines 37-38 is never taken for an item. The three joining
  underscores of line 30 always survive sanitizing (`FileNames.FileNameNeverDefault`). The
  fallback is modelled, and proved, for the bare sanitizer (`FileNames.SanitizedName`).
- A page that has `items` but lacks `endIndex` or `totalItems` raises `KeyError` on line 82.
  Such a page is not treated like a failed download.

## Model

| member | source | states |
|---|---|---|
| Strings.NatToString | download.py:17 | `str(n)` is a non-empty string of decimal digits with no leading zero that denotes `n` |
| Strings.IntToString | download.py:115 | `str(i)` is non-empty and starts with `-` exactly when `i` is negative; the rest is decimal digits without a leading zero that denote the absolute value of `i` |
| Strings.Split | download.py:123 | `s.split(sep)` has at least one part; no part holds the separator; joining the parts with it gives `s` back |
| Strings.SplitJoin | download.py:123 | splitting a join of separator-free parts returns exactly those parts (the inverse of `Split`'s join law) |
| Strings.SplitSeparatorFree | download.py:124 | a string without the separator splits into itself alone |
| Paths.JoinPath | download.py:42 | `os.path.join(a, b)`: an absolute `b` wins; otherwise one `/` is inserted unless `a` is empty or ends in `/` |
| Paths.SplitPath | download.py:42 | `posixpath.split`, used to read back the join of line 42: the tail is the slash-free end of `p` and follows a `/` when shorter than `p`; the head is a prefix of the rest |
| Paths.SplitJoinPath | download.py:42 | joining a non-empty directory not ending in `/` with a slash-free name and splitting the result gives both back: exactly one `/` lies between them |
| FileNames.ReplaceDots | download.py:33 | same length, every `.` replaced by `_`, every other character kept in place, no `.` left |
| FileNames.StripDisallowed | download.py:34 | the result holds only `[a-zA-Z0-9_]` characters, and a string already made of them is unchanged |
| FileNames.StripDisallowedCounts | download.py:34 | every word character keeps its number of occurrences, and every other character disappears |
| FileNames.StripDisallowedSubsequence | download.py:34 | the surviving characters keep their relative order |
| FileNames.Stem | download.py:33-34 | the stem holds only `[a-zA-Z0-9_]` characters; its contents are stated by `StemContents` |
| FileNames.StemContents | download.py:33-34 | the stem is an in-order subsequence of the dot-replaced name; its `_` count is the base's `_` plus `.` counts; other word characters keep their counts; nothing else appears |
| FileNames.StemFixedPoint | download.py:33-34 | a string is its own stem exactly when it consists of word characters only |
| FileNames.StemIdempotent | download.py:33-34 | sanitizing an already sanitized name changes nothing |
| FileNames.StemConcat | download.py:33-34 | sanitizing distributes over concatenation |
| FileNames.BlankWordString | download.py:37 | a string of word characters is blank for `strip()` exactly when it is empty |
| FileNames.SanitizedName | download.py:33-41 | the name is `default_name.txt` exactly when nothing survives sanitizing, otherwise the stem plus `.txt`; always word characters followed by `.txt` |
| FileNames.BaseName | download.py:30 | the four fields joined by `_`; what sanitizing does to it is stated by `FileNameParts` and `FileNameNeverDefault` |
| FileNames.FileName | download.py:30-41 | an item's file name is word characters followed by `.txt`; its parts are stated by `FileNameParts` |
| FileNames.FileNameParts | download.py:30-41 | an item's file name is the stems of date, title, edition and sequence joined by `_`, plus `.txt` |
| FileNames.FileNameNeverDefault | download.py:30-38 | no item's file name is ever `default_name.txt` |
| IdFields.SearchFrom | download.py:26-27 | the search from a position finds the leftmost match start and, for it, the longest one-line match; `None` exactly when no match starts at or after that position |
| IdFields.Search | download.py:26-27 | `re.search('(?<=pre)(.*)(?=post)', s)` is `None` exactly when no match exists; otherwise its group is the text of the leftmost, longest match |
| IdFields.EditionOf | download.py:26 | the edition search on an id, an instance of `Search`; its result on well-formed ids is stated by `EditionBetweenMarkers` and `WellFormedId` |
| IdFields.SequenceOf | download.py:27 | the sequence search on an id, an instance of `Search`; its result is stated by `SequenceToFinalSlash` and `WellFormedId` |
| IdFields.SearchFinds | download.py:26-27 | whatever match is leftmost and longest is the one the search returns |
| IdFields.EditionBetweenMarkers | download.py:26 | in a one-line id with one `/ed-` and one later `/seq-`, the edition is the text between them |
| IdFields.SequenceToFinalSlash | download.py:27 | with one `/seq-` and a trailing `/`, the greedy sequence runs to the last `/`, across any slashes in between |
| IdFields.WellFormedId | download.py:26-27 | an id `P/ed-E/seq-S/` with unique markers and no newline yields edition `E` and sequence `S` |
| Items.FirstOrEmpty | download.py:48 | an absent key gives `""`; an empty list raises `IndexError` for that key; otherwise the list's first element |
| Items.PageUrl | download.py:49 | the page URL is the archive host followed by the item id, each recoverable from its place |
| Items.ProcessItem | download.py:24-49 | an item is skipped exactly when it has no OCR text; a written file holds the OCR text, its path is the row's first cell, and the row's last cell is the page URL of the id |
| Items.ItemFailure | download.py:25-48 | processing raises exactly for items with OCR text whose id the regex of line 26 or 27 does not match (`AttributeError`, nothing written), or that have an empty place list (`IndexError`, after the OCR file was written) |
| Items.WrittenRow | download.py:30-49 | a written row copies title, date, edition, page and sequence, takes each place as `FirstOrEmpty` gives it, and names the file at `join(dir, FileName(..))` |
| Items.WrittenPath | download.py:30-42 | for a non-empty output directory not ending in `/`, the file lies directly in it and is named after the four stems |
| Driver.Inspect | download.py:82 | the loop stops on a page exactly when the download failed, `items` is absent, or `endIndex >= totalItems`; it raises exactly when `items` is present and a count key is missing, with the `KeyError` for `endIndex` first; otherwise it hands on the page's items |
| Driver.OcrItems | download.py:91 | the items line 91 counts: no more than there are items, each carrying OCR text |
| Driver.OcrItemsCounts | download.py:91 | every item with OCR text is kept as often as it occurs, and no other item is |
| Driver.OcrItemsSubsequence | download.py:86-91 | the kept items appear in the order of the page |
| Driver.OcrItemsConcat | download.py:91 | the items counted on a concatenation of pages are the counted items of each part, in order |
| Driver.ProcessItems | download.py:86-91 | without an exception the counter equals the number of items with OCR text (line 91) and there are as many files as rows; an exception leaves at most one file more than rows |
| Driver.ProcessItemsCrash | download.py:86-88 | a page's batch raises exactly when one of its items makes the processor raise |
| Driver.ProcessItemsRows | download.py:86-91 | without an exception, the batch holds one file and one row per item with OCR text, in order, each being what processing that item produces |
| Driver.RunFrom | download.py:77-97 | never more rows than files, and as many unless the run raised; pages are requested consecutively and fewer than `end_page`; no page before the last one requested stops or raises the loop; an exhausted run's last page stops it; a run that hits the page limit asked for every page |
| Driver.RunCrash | download.py:77-91 | a run raises exactly when line 82 raises on the page where the loop stops, or an item on an earlier page makes the processor raise |
| Driver.RunRows | download.py:77-91 | without an exception, `text_counter` is the number of OCR items on the processed pages, and the files and rows correspond one to one to those items, each being what processing the item writes |
| Driver.NoneFailRaises | download.py:88 | with `process_item`, no item failing means no item satisfies `Raises` |
| Driver.ProcessItemSkipsTextless | download.py:25 | `process_item` does nothing exactly for items without `ocr_eng` |
| Driver.WriteCsv | download.py:62-100 | `write_csv` from page 1 with `process_item`; its results are stated by `RequestedPages`, `WriteCsvCrash`, `WriteCsvRows`, `WriteCsvContents` and `CsvRowPerText` |
| Driver.WriteCsvCrash | download.py:62-100 | `write_csv` raises exactly when line 82 raises on the stopping page or a processed item `Raises` |
| Driver.WriteCsvRows | download.py:62-100 | without an exception, the returned count, rows and files correspond one to one to the OCR items of the processed pages |
| Driver.WriteCsvContents | download.py:62-100 | every file holds its item's OCR text, every row names its file, and every row ends in its item's page URL |
| Driver.TableOfRows | download.py:70-74 | the CSV is the header followed by one line per row, in order |
| Driver.CsvRowPerText | download.py:70-91 | a run that does not raise leaves the header plus exactly `text_counter` data rows, the k-th ending in the page URL of the k-th OCR item |
| Driver.RequestedPages | download.py:77 | with `MAX_PAGES = 100`, the run asks for pages 1, 2, … in order and for at most 99 of them |
| Driver.ProcessedResultSet | download.py:82-83 | on a complete result set, the loop as written reaches the items of every page but the final one |
| Driver.FinalPageDropped | download.py:82-88 | on a complete result set, the run ends at the final page and counts only the OCR items of the earlier pages |
| Driver.SinglePageSearchDownloadsNothing | download.py:82-83 | a single-page search with one OCR item writes no file and no row and returns 0 |
| Driver.RunFromIntended | download.py:77-97 | the corrected loop keeps the page order and bound, and never has more rows than files |
| Driver.IntendedEnding | download.py:77-97 | on a complete result set with no failing item, the corrected loop ends by exhausting the final page |
| Driver.IntendedRows | download.py:77-97 | on such a result set, the corrected loop writes one file and row per OCR item of every page, the final one included |
| Driver.EveryPageRead | download.py:77-100 | the corrected `write_csv` processes every OCR item of every page of a complete result set whose items do not raise |
| Query.RequestUrl | download.py:17 | the requested URL is the search URL, then `&rows=10&format=json&page=`, then digits without a leading zero denoting the page |
| Query.FindYear | download.py:137 | the first position from `k` where `date1=` and four digits start, or `None` when there is none |
| Query.ExtractYear | download.py:137-142 | `None` exactly when no `date1=dddd` occurs; otherwise the four digits after the leftmost occurrence |
| Query.YearOfUrl | download.py:137-142 | a URL whose first `date1=dddd` is the one written yields that year |
| Query.Plan | download.py:137-152 | no year means nothing is planned; otherwise the year names the directory holding `ocr_texts`, `metadata.csv` and `searchterms.txt` |
| Query.SplitSingle | download.py:124 | splitting gives a single part exactly when the separator does not occur |
| Query.SearchTerms | download.py:123-124 | the search-terms section raises `IndexError` exactly when the part before the first `&` has no `?` |
| Query.QuerySplit | download.py:123 | `base?t0&t1&…` splits on `&` into `base?t0`, `t1`, … |
| Query.SearchTermsOfQuery | download.py:123-131 | for `base?t0&t1&…&tn`, the section is the heading, `t0`, and then each later term on its own line |
| Query.WriteSearchterms | download.py:111-131 | the file starts with the download information; it raises exactly when the URL has no `?` before its first `&`; otherwise the terms section follows the information |
| Query.DownloadInfo | download.py:113-119 | the download information; that `text_counter` can be read back from it is stated by `CounterReadBack` |
| Query.CounterReadBack | download.py:113-116 | the digits right after the result count in the download information denote `text_counter`, and a space follows them |

## Left out

- Network access. `urlopen`, JSON decoding and the timeout are replaced by the `responses`
  sequence. Exceptions other than `URLError` inside `download_data` are not modelled.
- File-system effects. Opening, writing and `os.makedirs` are not modelled, and neither is
  `csv.writer`'s quoting. A run returns its file writes and rows as data. An earlier file with
  the same name being overwritten is visible only as two writes to the same path.
- Append mode of `metadata.csv`. Every run appends another header and its rows after the
  content of earlier runs. The model describes one run's output only.
- `time.sleep`, `logging.info` and the `print` calls. They have no effect on the data.
- `input()` and the second download of page 1 in `main` (lines 156-158). `write_searchterms` is
  modelled with `totalItems` and `text_counter` as parameters. `datetime.now()` is a
  `timestamp` string parameter.
- `KeyError` for an item missing `id`, `title`, `date`, `edition`, `page` or `sequence`. These
  keys are taken as present, and as strings.
- JSON values of unexpected types. `endIndex` and `totalItems` are integers, `items` is a list
  of items, and the place keys hold lists of strings.
- Query.ExtractYear: `\d` is read as the ASCII digits `0`-`9`. Python's `re` also accepts other
  Unicode decimal digits in a `str` pattern.

## Findings

| source | as written | input that shows it | evidently intended | confidence | as-written member | corrected member |
|---|---|---|---|---|---|---|
| download.py:82-83 | the loop breaks on `endIndex >= totalItems` before processing that page's items, so the final page of every result set is dropped | one result page `{items: [item with ocr_eng], endIndex: 1, totalItems: 1}`: no file, no row, `text_counter` 0 | process the page's items, then stop | medium, not executed | Driver.SinglePageSearchDownloadsNothing | Driver.EveryPageRead |
