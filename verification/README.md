# School reader of extract_tables, modelled in Dafny

`extract_tables` reads a PDF report on schools in Iraqi governorates. Each
page holds one table. The page's text opens with its title, printed with the
three-digit page number glued to the front ("036Ninevah Governorate ...").
`Reader.process_all` merges the tables of the selected pages into one table
and adds two columns to every row:

- the governorate, read from the title of the row's own page;
- the current district. A row whose first cell mentions "District" is a
  section header: it sets the district and is not emitted itself.

This project models the two pure pieces of that reader:

- `Reader.extract_governorate`, the title heuristic, in `governorate.dfy`.
- The page and row loops of `Reader.process_all`, in `school.dfy`. This
  includes `change_each_field_to_str`, the default page range and the page
  index checks.

The other files hold what the model needs:

- `strings.dfy`: the Python string operations the reader uses. These are
  slicing, `in`, and `str.split()` with no separator over Python's
  whitespace set.
- `cells.dfy`: table cells and Python `str()` of each kind of cell.
- `propagation.dfy`: what `process_all` computes, stated without its loops.
  It is the loops' independent reference definition.

Reading a page is outside the model. The text and table that PyPDF2 and
tabula would extract for each page are inputs (`School.SourcePage`).

Two preconditions come from the code's own failure points:

- `School.ValidRequest` holds when every selected page index lies in
  `0 <= page < no_pages`. The reader asserts this (school.py:79 and :106).
- Every row of a visited page has a first cell. Python's `row[0]` fails
  otherwise.

Cells come in three kinds: text, integers and empty cells. Pandas reads an
empty cell as NaN, which `str()` prints as "nan". An integer cell stands for
an integer that pandas keeps as an integer (see "## Left out" for when it
does not).

The main results:

- `Propagation.FoldPagesStampsLatestDistrict`: the merged table holds
  exactly the non-header rows, in page-then-row order. The k-th record is
  that row's cells as strings, stamped with its page's governorate and with
  the first cell of the latest header row before it, on its own page or an
  earlier one. Before the first header the district is `None`.
- `School.ProcessAll`: the imperative loops compute that fold.
- `Governorate.GovernorateAbsentIff` and
  `Governorate.GovernorateIsFirstWordTail`: the title heuristic.
  - There is no title exactly when no occurrence of "Governorate" lies
    wholly within the first 100 characters.
  - Otherwise the title is the first word of those 100 characters minus its
    first three characters.

## Model

| member | source | states |
|---|---|---|
| Strings.Take | extract_tables/school.py:90 | `text[:100]` keeps `min(100, len)` characters and is a prefix of the text |
| Strings.Drop | extract_tables/school.py:93 | `word[3:]` has `len - min(3, len)` characters, and `word[:3] + word[3:]` is the word |
| Strings.ContainsIff | extract_tables/school.py:91 | the `in` scan finds the needle exactly when it occurs at some index of the text |
| Strings.SplitFirstWord | extract_tables/school.py:92 | `split()[0]` exists and is the first maximal run of non-whitespace whenever the text has one |
| Strings.SplitJoinWords | extract_tables/school.py:92 | `split()` gives back any list of words that were joined with single spaces |
| Governorate.ExtractGovernorate | extract_tables/school.py:84-94 | the title is `None` exactly when the 100-character window does not contain "Governorate"; a title never contains whitespace; the call cannot fail |
| Governorate.GovernorateAbsentIff | extract_tables/school.py:90-94 | the title is `None` exactly when no occurrence of "Governorate" in the text ends at or before index 100 |
| Governorate.StraddlingMarkerIgnored | extract_tables/school.py:90-91 | a text that mentions "Governorate" only across index 100 has no title |
| Governorate.GovernorateHasFirstWord | extract_tables/school.py:91-92 | when the marker is present the window has a first word, so `split()[0]` cannot fail |
| Governorate.GovernorateIsFirstWordTail | extract_tables/school.py:91-93 | the title is the window's first word without its first three characters; a first word of three characters or fewer gives "" |
| Governorate.GovernorateDependsOnWindow | extract_tables/school.py:90 | two texts that agree on their first 100 characters get the same title |
| Governorate.GovernorateIgnoresAppended | extract_tables/school.py:90 | appending to a text of 100 or more characters never changes its title |
| Governorate.TitledPage | extract_tables/school.py:87-88 | a page opening with a three-character page number, a title, a space and "Governorate" within the window is titled by exactly that title |
| Governorate.GovernorateExample | tests/shool_test.py:15-23 | the page text "036Ninevah Governorate\nSchools" is titled "Ninevah" |
| Cells.CellStr | extract_tables/school.py:34 | `str()` of a cell: text as it is, an integer in decimal with a leading '-' exactly when it is negative, an empty (NaN) cell as "nan" |
| Cells.DecimalRoundTrip | extract_tables/school.py:34 | the decimal digits `str()` prints for a natural number read back as that number |
| Cells.NumberStrRoundTrip | extract_tables/school.py:34 | `str()` of an integer cell is non-empty, all digits apart from a leading '-', and reads back as the integer |
| Cells.OnlyTextMentions | extract_tables/school.py:47 | a word of four or more characters that starts with neither a digit nor '-' can occur in a cell's string form only if the cell is text |
| School.IsDistrictRow | extract_tables/school.py:47 | `'District' in str(row[0])`; a row can pass only when its first cell is text containing "District" |
| School.DistrictHeaderIsText | extract_tables/school.py:47-48 | the first cell of a district header row, which becomes the current district, is a text cell |
| School.Stringify | extract_tables/school.py:30-35 | the row keeps its length, and each field is the string form of the cell in the same position |
| School.Stamp | extract_tables/school.py:50-54 | an emitted record holds the row's cells as strings, position by position, plus the page's governorate and the current district as the two added columns |
| School.FoldRows | extract_tables/school.py:46-55 | one page emits its row count minus its header rows; every record carries the page's governorate; the district is only ever unset or a text cell mentioning "District" |
| School.FoldPages | extract_tables/school.py:40-55 | over all pages the district, and every record's district, stays unset or a text cell mentioning "District" |
| School.AllPages | extract_tables/school.py:38 | `range(n)` has n entries and entry k is k |
| School.SelectPages | extract_tables/school.py:37-38 | a non-empty page list is used as given; an empty one means every page 0 .. no_pages-1 in ascending order |
| School.LoadPages | extract_tables/school.py:59-67 | `process` for each selected page, in the order selected: entry k is page k's own table together with the governorate read off page k's own text |
| School.ProcessRows | extract_tables/school.py:46-55 | the row loop over one page returns the records and the district of the row fold |
| School.ProcessAll | extract_tables/school.py:21-57 | given page indices that all lie in `0 <= page < no_pages`, the page loop starts with no district, never resets it, and returns exactly the fold over the selected pages; every record's district is unset or a "District" text cell |
| Propagation.Flatten | extract_tables/school.py:42-46 | the document order has one entry per row of every page |
| Propagation.FlattenPosition | extract_tables/school.py:42-46 | row r of page p sits at position (rows on earlier pages) + r of the document order, tagged with page p's governorate |
| Propagation.RowsBeforeCounts | extract_tables/school.py:42 | the rows before page p are the rows of pages 0 .. p-1; before the position past the last page they are all the rows |
| Propagation.EntriesMarkHeaders | extract_tables/school.py:47 | a page's rows are flagged as headers exactly when their first cell's string form contains "District" |
| Propagation.FlattenMarksHeaders | extract_tables/school.py:47 | across all pages an entry is flagged as a header exactly when its first cell's string form contains "District" |
| Propagation.CountHeadersOfEntries | extract_tables/school.py:47 | counting header entries of a page's rows gives the page's count of "District" rows, so the two counts used for one page and for the whole document agree |
| Propagation.FoldEntriesAppend | extract_tables/school.py:42-55 | folding two runs of rows is folding the first, then the second from the district the first left behind |
| Propagation.FoldRowsAsEntries | extract_tables/school.py:46-55 | the loop over one page's rows equals the document-order fold over that page's entries |
| Propagation.FoldPagesAsEntries | extract_tables/school.py:42-55 | the nested page and row loops equal one fold over all rows in document order |
| Propagation.DataPositions | extract_tables/school.py:47-49 | the non-header positions number (rows − header rows), each is in range, and none is a header |
| Propagation.DataPositionsIncreasing | extract_tables/school.py:55 | the non-header positions are strictly increasing, so records keep the rows' order |
| Propagation.DataPositionsComplete | extract_tables/school.py:47-55 | every non-header row's position is listed, so no data row is dropped |
| Propagation.FoldEntriesDistrict | extract_tables/school.py:47-49 | the fold ends on the latest header's first cell, or the starting district if there is none, and emits (rows − header rows) records |
| Propagation.RecordsStampedStep | extract_tables/school.py:51-55 | appending a row keeps the earlier records unchanged and, for a data row, adds that row stamped with the latest district before it |
| Propagation.FoldEntriesSpec | extract_tables/school.py:47-53 | the k-th record is the k-th non-header row stamped with its governorate and the latest district before it; the final district is the latest of all |
| Propagation.FoldPagesStampsLatestDistrict | extract_tables/school.py:40-55 | the merged table has (total rows − header rows) records; each non-header row appears stringified, stamped with its own page's governorate and the first cell of the most recent header before it on any page (`None` before the first); headers are flagged exactly by the "District" test |
| Propagation.FoldPagesAppend | extract_tables/school.py:40-42 | processing pages a then b emits a's records followed by b's records, with b started from the district a ended with |
| Propagation.MosulIsHeader | extract_tables/school.py:47 | a row whose first cell is "Mosul District" is a header row |
| Propagation.NumberRowIsData | extract_tables/school.py:47 | a row whose first cell is a number is never a header row |
| Propagation.DistrictCarriesAcrossPages | extract_tables/school.py:40-55 | a "Mosul District" header on one page sets the district stamped on the next page's data row `["Al-Noor", 7]`, emitted as `["Al-Noor", "7"]`; the header row itself is not emitted |

## Left out

- `Reader.__init__`, `extract_table`, `extract_text` and `__exit__` (school.py:12-19, 68-82, 96-112) open the PDF and call PyPDF2 and tabula. Each page's text and table are given as inputs instead (`School.SourcePage`). Only their page index assertions are kept, as `School.ValidRequest`. `process` (school.py:59-67) is modelled by `School.LoadPage`.
- Logging calls (school.py:43, 105) have no effect on the result.
- Pandas mechanics are abstracted:
  - A record is its original cells as strings plus the two added columns.
  - `DataFrame.append` aligning rows by column label, and filling absent columns with NaN, is not modelled.
- Floating-point cells are left out. Python's float formatting in `str()` is not modelled; cells are text, integers or empty (NaN).
- Pandas dtypes are not modelled. An integer column that also holds an empty cell is stored as floats, and `iterrows` (school.py:46) hands out each row of a table whose columns are all numeric and include a float column (for instance one with an empty cell) as floats, so such a 7 prints as "7.0", not "7". A `Cells.Number` cell models only an integer that pandas keeps as an integer, as in a row that also holds text.
- `School.ProcessAll`: a row without a first cell makes `row[0]` raise in Python. The model requires every visited row to have a first cell instead of modelling the exception.
- `School.ProcessAll`: the source asserts the page index inside the loop and fails part-way through. The model requires every index to be valid up front.
- extract_tables/positions.py works on pdfminer layout objects and float bounding boxes. It is not part of this model.
- extract_tables/kurdish.py is a stub with no behaviour to state. It is not part of this model.
- scripts/parse_school_pdf.py and setup.py are CSV export and packaging glue.
- Recovery of a page's last row is not implemented: school.py:65 is a TODO, and tests/shool_test.py:33 and :39 call an `extract_last_row` that `Reader` does not define.
