/**
  `Reader.process_all` of the school reader: every selected page's table rows
  are turned into records stamped with the page's governorate and with the
  district most recently announced by a "District" header row. Header rows
  are consumed, not emitted, and the current district carries over from one
  page to the next.
 */
module School {
  import opened Strings
  import opened Cells
  import opened Governorate

  type Row = seq<Cell>

  /** What the reader extracts from one page: its text and its table. */
  datatype SourcePage = SourcePage(text: string, table: seq<Row>)

  /** A page ready for the row loop: its governorate and its table rows. */
  datatype Page = Page(governorate: Option<string>, table: seq<Row>)

  /** An output row: the original cells as strings, plus the two stamped columns. */
  datatype Record = Record(fields: seq<string>, governorate: Option<string>, district: Option<Cell>)

  /** The word that marks a district header row. */
  const DistrictMarker: string := "District"

  /** `row[0]` exists for every row the loop looks at. */
  predicate RowsHaveFirstCell(rows: seq<Row>)
  {
    forall r :: 0 <= r < |rows| ==> |rows[r]| > 0
  }

  predicate PagesHaveFirstCell(pages: seq<Page>)
  {
    forall p :: 0 <= p < |pages| ==> RowsHaveFirstCell(pages[p].table)
  }

  /** `'District' in str(row[0])`: only a text first cell can pass. */
  predicate IsDistrictRow(row: Row)
    requires |row| > 0
    ensures IsDistrictRow(row) ==> row[0].Text? && Contains(row[0].text, DistrictMarker)
  {
    OnlyTextMentions(row[0], DistrictMarker);
    Contains(CellStr(row[0]), DistrictMarker)
  }

  /** The first cell of a district header row is always a text cell. */
  lemma DistrictHeaderIsText(row: Row)
    requires |row| > 0 && IsDistrictRow(row)
    ensures row[0].Text?
  {
    OnlyTextMentions(row[0], DistrictMarker);
  }

  /** `change_each_field_to_str`: every cell replaced by its string form, in place. */
  function Stringify(row: Row): (fields: seq<string>)
    ensures |fields| == |row|
    ensures forall k :: 0 <= k < |row| ==> fields[k] == CellStr(row[k])
  {
    if row == [] then [] else [CellStr(row[0])] + Stringify(row[1..])
  }

  /** A data row as emitted: its cells as strings plus the governorate and district columns. */
  function Stamp(row: Row, governorate: Option<string>, district: Option<Cell>): (r: Record)
    ensures |r.fields| == |row|
    ensures forall k :: 0 <= k < |row| ==> r.fields[k] == CellStr(row[k])
    ensures r.governorate == governorate && r.district == district
  {
    Record(Stringify(row), governorate, district)
  }

  /** The records emitted so far and the current district. */
  datatype Folded = Folded(records: seq<Record>, district: Option<Cell>)

  /** A current district is either unset or the first cell of a header row. */
  predicate IsDistrictValue(d: Option<Cell>)
  {
    d.None? || (d.value.Text? && Contains(d.value.text, DistrictMarker))
  }

  /** The number of district header rows among `rows`. */
  function CountDistrictRows(rows: seq<Row>): nat
    requires RowsHaveFirstCell(rows)
  {
    if rows == [] then 0
    else (if IsDistrictRow(rows[0]) then 1 else 0) + CountDistrictRows(rows[1..])
  }

  /** The inner loop of `process_all` over one page's rows. */
  function FoldRows(governorate: Option<string>, rows: seq<Row>, district: Option<Cell>): (f: Folded)
    requires RowsHaveFirstCell(rows)
    ensures |f.records| == |rows| - CountDistrictRows(rows)
    ensures forall k :: 0 <= k < |f.records| ==> f.records[k].governorate == governorate
    ensures IsDistrictValue(district) ==> IsDistrictValue(f.district)
    ensures IsDistrictValue(district) ==>
      forall k :: 0 <= k < |f.records| ==> IsDistrictValue(f.records[k].district)
    decreases |rows|
  {
    if rows == [] then Folded([], district)
    else if IsDistrictRow(rows[0]) then
      DistrictHeaderIsText(rows[0]);
      FoldRows(governorate, rows[1..], Some(rows[0][0]))
    else
      var rest := FoldRows(governorate, rows[1..], district);
      Folded([Stamp(rows[0], governorate, district)] + rest.records, rest.district)
  }

  /** The outer loop of `process_all`: pages in the given order, one district threaded through. */
  function FoldPages(pages: seq<Page>, district: Option<Cell>): (f: Folded)
    requires PagesHaveFirstCell(pages)
    ensures IsDistrictValue(district) ==> IsDistrictValue(f.district)
    ensures IsDistrictValue(district) ==>
      forall k :: 0 <= k < |f.records| ==> IsDistrictValue(f.records[k].district)
    decreases |pages|
  {
    if pages == [] then Folded([], district)
    else
      var first := FoldRows(pages[0].governorate, pages[0].table, district);
      var rest := FoldPages(pages[1..], first.district);
      Folded(first.records + rest.records, rest.district)
  }

  /** `range(n)`: the page indices `0, 1, ..., n - 1`. */
  function AllPages(n: nat): (pages: seq<int>)
    ensures |pages| == n
    ensures forall k :: 0 <= k < n ==> pages[k] == k
  {
    if n == 0 then [] else AllPages(n - 1) + [n - 1]
  }

  /** The pages `process_all` visits: those asked for, or every page when none are. */
  function SelectPages(pages: seq<int>, pageCount: nat): (selected: seq<int>)
    ensures pages != [] ==> selected == pages
    ensures pages == [] ==> |selected| == pageCount
    ensures pages == [] ==> forall k :: 0 <= k < pageCount ==> selected[k] == k
  {
    if pages == [] then AllPages(pageCount) else pages
  }

  /** `Reader.process` for page `i`: its table and the governorate read off its text. */
  function LoadPage(doc: seq<SourcePage>, i: int): (p: Page)
    requires 0 <= i < |doc|
  {
    Page(ExtractGovernorate(doc[i].text), doc[i].table)
  }

  /** `process` for each selected page in turn: every page keeps its own table and its own title. */
  function LoadPages(doc: seq<SourcePage>, selected: seq<int>): (pages: seq<Page>)
    requires forall k :: 0 <= k < |selected| ==> 0 <= selected[k] < |doc|
    ensures |pages| == |selected|
    ensures forall k :: 0 <= k < |selected| ==>
      pages[k].table == doc[selected[k]].table &&
      pages[k].governorate == ExtractGovernorate(doc[selected[k]].text)
    ensures forall k :: 0 <= k < |selected| ==> pages[k] == LoadPage(doc, selected[k])
  {
    if selected == [] then [] else [LoadPage(doc, selected[0])] + LoadPages(doc, selected[1..])
  }

  /**
    The page indices must name pages of the document (the reader asserts
    `0 <= page < no_pages`), and every row of a visited page has a first cell.
   */
  predicate ValidRequest(doc: seq<SourcePage>, pages: seq<int>)
  {
    var selected := SelectPages(pages, |doc|);
    forall k :: 0 <= k < |selected| ==>
      0 <= selected[k] < |doc| && RowsHaveFirstCell(doc[selected[k]].table)
  }

  /** One turn of the page loop: the fold from page `n` is page `n`'s rows, then the fold from page `n + 1`. */
  lemma FoldPagesStep(pages: seq<Page>, n: nat, district: Option<Cell>)
    requires n < |pages| && PagesHaveFirstCell(pages[n..])
    ensures PagesHaveFirstCell(pages[n + 1..])
    ensures
      var first := FoldRows(pages[n].governorate, pages[n].table, district);
      var rest := FoldPages(pages[n + 1..], first.district);
      FoldPages(pages[n..], district) == Folded(first.records + rest.records, rest.district)
  {
    assert pages[n..][0] == pages[n];
    assert pages[n..][1..] == pages[n + 1..];
  }

  /** What the row loop keeps: the records so far followed by the fold of the rows still to go make up the whole fold. */
  predicate RowsLoopInv(governorate: Option<string>, rows: seq<Row>, district: Option<Cell>,
                        r: nat, records: seq<Record>, last: Option<Cell>)
    requires r <= |rows| && RowsHaveFirstCell(rows)
  {
    var f := FoldRows(governorate, rows[r..], last);
    Folded(records + f.records, f.district) == FoldRows(governorate, rows, district)
  }

  /** One turn of the row loop: a header row moves the district, any other row is stamped and emitted. */
  lemma RowsLoopStep(governorate: Option<string>, rows: seq<Row>, district: Option<Cell>,
                     r: nat, records: seq<Record>, last: Option<Cell>)
    requires r < |rows| && RowsHaveFirstCell(rows)
    requires RowsLoopInv(governorate, rows, district, r, records, last)
    ensures IsDistrictRow(rows[r]) ==>
      RowsLoopInv(governorate, rows, district, r + 1, records, Some(rows[r][0]))
    ensures !IsDistrictRow(rows[r]) ==>
      RowsLoopInv(governorate, rows, district, r + 1, records + [Stamp(rows[r], governorate, last)], last)
  {
    assert rows[r..][0] == rows[r];
    assert rows[r..][1..] == rows[r + 1..];
    if !IsDistrictRow(rows[r]) {
      AppendAssoc(records, [Stamp(rows[r], governorate, last)],
        FoldRows(governorate, rows[r + 1..], last).records);
    }
  }

  lemma AppendAssoc<T>(a: seq<T>, b: seq<T>, c: seq<T>)
    ensures (a + b) + c == a + (b + c)
  {
  }

  /**
    The row loop of `process_all` for one page: header rows set the district,
    every other row is emitted stamped with the page's governorate and the
    district current at that row.
   */
  method ProcessRows(governorate: Option<string>, rows: seq<Row>, district: Option<Cell>)
    returns (records: seq<Record>, last: Option<Cell>)
    requires RowsHaveFirstCell(rows)
    ensures Folded(records, last) == FoldRows(governorate, rows, district)
  {
    records := [];
    last := district;
    var r := 0;
    assert rows[0..] == rows;
    while r < |rows|
      invariant 0 <= r <= |rows|
      invariant RowsLoopInv(governorate, rows, district, r, records, last)
    {
      RowsLoopStep(governorate, rows, district, r, records, last);
      var row := rows[r];
      if IsDistrictRow(row) {
        last := Some(row[0]);
      } else {
        records := records + [Stamp(row, governorate, last)];
      }
      r := r + 1;
    }
    assert rows[r..] == [];
  }

  /**
    `Reader.process_all`: the selected pages are visited in order, one
    district threaded through them, starting unset and never reset.
   */
  method ProcessAll(doc: seq<SourcePage>, pages: seq<int>) returns (results: seq<Record>)
    requires ValidRequest(doc, pages)
    ensures results == FoldPages(LoadPages(doc, SelectPages(pages, |doc|)), None).records
    ensures forall k :: 0 <= k < |results| ==> IsDistrictValue(results[k].district)
  {
    var selected := SelectPages(pages, |doc|);
    ghost var loaded := LoadPages(doc, selected);
    var district: Option<Cell> := None;
    results := [];
    var n := 0;
    assert loaded[0..] == loaded;
    while n < |selected|
      invariant 0 <= n <= |selected|
      invariant PagesHaveFirstCell(loaded[n..])
      invariant
        var f := FoldPages(loaded[n..], district);
        Folded(results + f.records, f.district) == FoldPages(loaded, None)
    {
      var page := LoadPage(doc, selected[n]);
      FoldPagesStep(loaded, n, district);
      var records;
      records, district := ProcessRows(page.governorate, page.table, district);
      AppendAssoc(results, records, FoldPages(loaded[n + 1..], district).records);
      results := results + records;
      n := n + 1;
    }
  }
}
