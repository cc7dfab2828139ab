/**
  What `process_all` computes, stated without its loops: walk the rows of all
  selected pages in document order; each non-header row becomes one record,
  stamped with its own page's governorate and with the first cell of the
  latest header row before it (anywhere earlier in the document).
 */
module Propagation {
  import opened Strings
  import opened Cells
  import opened School

  /**
    One table row in document order, tagged with the governorate of its page
    and with whether it is a district header row.
   */
  datatype Entry = Entry(governorate: Option<string>, row: Row, header: bool)

  predicate EntriesHaveFirstCell(es: seq<Entry>)
  {
    forall i :: 0 <= i < |es| ==> |es[i].row| > 0
  }

  /** The rows of one page, tagged with the page's governorate. */
  function Entries(governorate: Option<string>, rows: seq<Row>): (es: seq<Entry>)
    requires RowsHaveFirstCell(rows)
    ensures |es| == |rows|
    ensures forall r :: 0 <= r < |rows| ==> es[r].governorate == governorate && es[r].row == rows[r]
    ensures EntriesHaveFirstCell(es)
  {
    if rows == [] then []
    else [Entry(governorate, rows[0], IsDistrictRow(rows[0]))] + Entries(governorate, rows[1..])
  }

  lemma FirstCellConcat(a: seq<Entry>, b: seq<Entry>)
    requires EntriesHaveFirstCell(a) && EntriesHaveFirstCell(b)
    ensures EntriesHaveFirstCell(a + b)
  {
    assert forall i :: |a| <= i < |a| + |b| ==> (a + b)[i] == b[i - |a|];
  }

  /** The number of rows in all of `pages`. */
  function TotalRows(pages: seq<Page>): nat
  {
    if pages == [] then 0 else |pages[0].table| + TotalRows(pages[1..])
  }

  /** Every entry has a first cell, and its flag says whether it is a district header row. */
  predicate HeadersMarked(es: seq<Entry>)
  {
    forall i :: 0 <= i < |es| ==> |es[i].row| > 0 && es[i].header == IsDistrictRow(es[i].row)
  }

  lemma HeadersMarkedConcat(a: seq<Entry>, b: seq<Entry>)
    requires HeadersMarked(a) && HeadersMarked(b)
    ensures HeadersMarked(a + b)
  {
    assert forall i :: |a| <= i < |a| + |b| ==> (a + b)[i] == b[i - |a|];
  }

  /** All rows of all pages: pages in the given order, each page's rows in table order. */
  function Flatten(pages: seq<Page>): (es: seq<Entry>)
    requires PagesHaveFirstCell(pages)
    ensures |es| == TotalRows(pages)
    ensures EntriesHaveFirstCell(es)
  {
    if pages == [] then []
    else
      var first := Entries(pages[0].governorate, pages[0].table);
      var rest := Flatten(pages[1..]);
      FirstCellConcat(first, rest);
      first + rest
  }

  /** The rows of a page are flagged as headers exactly when they are district header rows. */
  lemma {:induction false} EntriesMarkHeaders(governorate: Option<string>, rows: seq<Row>)
    requires RowsHaveFirstCell(rows)
    ensures HeadersMarked(Entries(governorate, rows))
    decreases |rows|
  {
    if rows != [] {
      var head := Entry(governorate, rows[0], IsDistrictRow(rows[0]));
      EntriesMarkHeaders(governorate, rows[1..]);
      HeadersMarkedConcat([head], Entries(governorate, rows[1..]));
    }
  }

  /** Every entry of the document order is flagged as a header exactly when it is a district header row. */
  lemma {:induction false} FlattenMarksHeaders(pages: seq<Page>)
    requires PagesHaveFirstCell(pages)
    ensures HeadersMarked(Flatten(pages))
    decreases |pages|
  {
    if pages != [] {
      var first := Entries(pages[0].governorate, pages[0].table);
      FlattenMarksHeaders(pages[1..]);
      EntriesMarkHeaders(pages[0].governorate, pages[0].table);
      HeadersMarkedConcat(first, Flatten(pages[1..]));
    }
  }

  /** The document order starts with the first page's rows. */
  lemma FlattenFirstPage(pages: seq<Page>)
    requires PagesHaveFirstCell(pages) && pages != []
    ensures PagesHaveFirstCell(pages[1..])
    ensures Flatten(pages) == Entries(pages[0].governorate, pages[0].table) + Flatten(pages[1..])
  {
  }

  /** The number of rows on the pages before page `p`. */
  function RowsBefore(pages: seq<Page>, p: nat): nat
    requires p <= |pages|
  {
    if p == 0 then 0 else |pages[0].table| + RowsBefore(pages[1..], p - 1)
  }

  /** Counting the rows before page `p` also counts the rows of every page before it, page by page. */
  lemma {:induction false} RowsBeforeCounts(pages: seq<Page>, p: nat)
    requires p <= |pages|
    ensures RowsBefore(pages, p) == TotalRows(pages[..p])
    ensures p == |pages| ==> RowsBefore(pages, p) == TotalRows(pages)
    decreases p
  {
    if p > 0 {
      RowsBeforeCounts(pages[1..], p - 1);
      assert pages[..p][0] == pages[0];
      assert pages[..p][1..] == pages[1..][..p - 1];
    } else {
      assert pages[..0] == [];
    }
    assert pages[..|pages|] == pages;
  }

  /** Position `|a| + i` of `a + b` holds `b[i]`. */
  lemma IndexAfter(a: seq<Entry>, b: seq<Entry>, i: nat)
    requires i < |b|
    ensures |a| + i < |a + b| && (a + b)[|a| + i] == b[i]
  {
  }

  /** The first page's rows open the document order. */
  lemma FlattenHead(pages: seq<Page>, r: nat)
    requires PagesHaveFirstCell(pages) && pages != [] && r < |pages[0].table|
    ensures r < |Flatten(pages)|
    ensures Flatten(pages)[r].governorate == pages[0].governorate
    ensures Flatten(pages)[r].row == pages[0].table[r]
  {
    var first := Entries(pages[0].governorate, pages[0].table);
    FlattenFirstPage(pages);
    assert Flatten(pages)[r] == first[r];
  }

  /** The later pages' rows follow the first page's rows in the document order. */
  lemma FlattenTail(pages: seq<Page>, i: nat)
    requires PagesHaveFirstCell(pages) && pages != []
    requires PagesHaveFirstCell(pages[1..]) && i < |Flatten(pages[1..])|
    ensures |pages[0].table| + i < |Flatten(pages)|
    ensures Flatten(pages)[|pages[0].table| + i] == Flatten(pages[1..])[i]
  {
    var first := Entries(pages[0].governorate, pages[0].table);
    FlattenFirstPage(pages);
    IndexAfter(first, Flatten(pages[1..]), i);
  }

  /** Row `r` of page `p` sits at position `RowsBefore(pages, p) + r` of the document order. */
  lemma {:induction false} FlattenPosition(pages: seq<Page>, p: nat, r: nat)
    requires PagesHaveFirstCell(pages)
    requires p < |pages| && r < |pages[p].table|
    ensures RowsBefore(pages, p) + r < |Flatten(pages)|
    ensures Flatten(pages)[RowsBefore(pages, p) + r].governorate == pages[p].governorate
    ensures Flatten(pages)[RowsBefore(pages, p) + r].row == pages[p].table[r]
    decreases p
  {
    if p > 0 {
      var later := pages[1..];
      assert later[p - 1] == pages[p];
      FlattenPosition(later, p - 1, r);
      FlattenTail(pages, RowsBefore(later, p - 1) + r);
    } else {
      FlattenHead(pages, r);
    }
  }

  /** The row loop run over the whole document order at once. */
  function FoldEntries(es: seq<Entry>, district: Option<Cell>): Folded
    requires EntriesHaveFirstCell(es)
    decreases |es|
  {
    if es == [] then Folded([], district)
    else if es[0].header then FoldEntries(es[1..], Some(es[0].row[0]))
    else
      var rest := FoldEntries(es[1..], district);
      Folded([Stamp(es[0].row, es[0].governorate, district)] + rest.records, rest.district)
  }

  /** Folding `a + b` is folding `a`, then folding `b` from the district `a` left behind. */
  lemma {:induction false} FoldEntriesAppend(a: seq<Entry>, b: seq<Entry>, district: Option<Cell>)
    requires EntriesHaveFirstCell(a) && EntriesHaveFirstCell(b)
    ensures EntriesHaveFirstCell(a + b)
    ensures
      var fa := FoldEntries(a, district);
      var fb := FoldEntries(b, fa.district);
      FoldEntries(a + b, district) == Folded(fa.records + fb.records, fb.district)
    decreases |a|
  {
    if a != [] {
      assert (a + b)[0] == a[0];
      assert (a + b)[1..] == a[1..] + b;
      if a[0].header {
        FoldEntriesAppend(a[1..], b, Some(a[0].row[0]));
      } else {
        FoldEntriesAppend(a[1..], b, district);
      }
    } else {
      assert a + b == b;
    }
  }

  /** The loop over one page's rows is the whole-document fold over that page's entries. */
  lemma {:induction false} FoldRowsAsEntries(governorate: Option<string>, rows: seq<Row>, district: Option<Cell>)
    requires RowsHaveFirstCell(rows)
    ensures EntriesHaveFirstCell(Entries(governorate, rows))
    ensures FoldRows(governorate, rows, district) == FoldEntries(Entries(governorate, rows), district)
    decreases |rows|
  {
    if rows != [] {
      var es := Entries(governorate, rows);
      assert es[1..] == Entries(governorate, rows[1..]);
      if IsDistrictRow(rows[0]) {
        FoldRowsAsEntries(governorate, rows[1..], Some(rows[0][0]));
      } else {
        FoldRowsAsEntries(governorate, rows[1..], district);
      }
    }
  }

  /** The nested page and row loops compute the single fold over the document order. */
  lemma {:induction false} FoldPagesAsEntries(pages: seq<Page>, district: Option<Cell>)
    requires PagesHaveFirstCell(pages)
    ensures FoldPages(pages, district) == FoldEntries(Flatten(pages), district)
    decreases |pages|
  {
    if pages != [] {
      var first := Entries(pages[0].governorate, pages[0].table);
      FoldRowsAsEntries(pages[0].governorate, pages[0].table, district);
      var fr := FoldRows(pages[0].governorate, pages[0].table, district);
      FoldPagesAsEntries(pages[1..], fr.district);
      FoldEntriesAppend(first, Flatten(pages[1..]), district);
    }
  }

  /** The first cell of the latest header row among `es`, or `init` when there is none. */
  function LatestDistrict(es: seq<Entry>, init: Option<Cell>): Option<Cell>
    requires EntriesHaveFirstCell(es)
  {
    if es == [] then init
    else if es[|es| - 1].header then Some(es[|es| - 1].row[0])
    else LatestDistrict(es[..|es| - 1], init)
  }

  /** The number of header rows among `es`. */
  function CountHeaders(es: seq<Entry>): nat
    requires EntriesHaveFirstCell(es)
  {
    if es == [] then 0
    else CountHeaders(es[..|es| - 1]) + (if es[|es| - 1].header then 1 else 0)
  }

  /** Counting headers splits over a concatenation. */
  lemma {:induction false} CountHeadersAppend(a: seq<Entry>, b: seq<Entry>)
    requires EntriesHaveFirstCell(a) && EntriesHaveFirstCell(b)
    ensures EntriesHaveFirstCell(a + b)
    ensures CountHeaders(a + b) == CountHeaders(a) + CountHeaders(b)
    decreases |b|
  {
    FirstCellConcat(a, b);
    if b == [] {
      assert a + b == a;
    } else {
      var n := |b| - 1;
      assert (a + b)[..|a + b| - 1] == a + b[..n];
      assert (a + b)[|a + b| - 1] == b[n];
      CountHeadersAppend(a, b[..n]);
    }
  }

  /**
    The header count of a page's entries is the page's count of district
    header rows: the two ways of counting the rows the loop consumes agree.
   */
  lemma {:induction false} CountHeadersOfEntries(governorate: Option<string>, rows: seq<Row>)
    requires RowsHaveFirstCell(rows)
    ensures CountHeaders(Entries(governorate, rows)) == CountDistrictRows(rows)
    decreases |rows|
  {
    if rows != [] {
      var head := Entry(governorate, rows[0], IsDistrictRow(rows[0]));
      var tail := Entries(governorate, rows[1..]);
      assert Entries(governorate, rows) == [head] + tail;
      CountHeadersOfEntries(governorate, rows[1..]);
      CountHeadersAppend([head], tail);
      assert [head][..0] == [];
    }
  }

  /** The positions of the non-header rows of `es`, in increasing order. */
  function DataPositions(es: seq<Entry>): (pos: seq<nat>)
    requires EntriesHaveFirstCell(es)
    ensures |pos| == |es| - CountHeaders(es)
    ensures forall k :: 0 <= k < |pos| ==> pos[k] < |es| && !es[pos[k]].header
  {
    if es == [] then []
    else
      var n := |es| - 1;
      var prefix := es[..n];
      assert forall i :: 0 <= i < n ==> prefix[i] == es[i];
      var prev := DataPositions(prefix);
      if es[n].header then
        prev
      else
        var pos := prev + [n];
        assert forall k :: 0 <= k < |prev| ==> pos[k] == prev[k];
        pos
  }

  /** The positions are listed in increasing order, so the records keep the rows' order. */
  lemma {:induction false} DataPositionsIncreasing(es: seq<Entry>)
    requires EntriesHaveFirstCell(es)
    ensures forall k, l :: 0 <= k < l < |DataPositions(es)| ==> DataPositions(es)[k] < DataPositions(es)[l]
    decreases |es|
  {
    if es != [] {
      var n := |es| - 1;
      var prefix := es[..n];
      DataPositionsIncreasing(prefix);
      var pp := DataPositions(prefix);
      if !es[n].header {
        var pos := DataPositions(es);
        assert pos == pp + [n];
        assert pos[|pp|] == n;
        forall k, l | 0 <= k < l < |pos|
          ensures pos[k] < pos[l]
        {
          assert pos[k] == pp[k];
          if l < |pp| {
            assert pos[l] == pp[l];
          }
        }
      }
    }
  }

  /** Every non-header row has its position listed. */
  lemma {:induction false} DataPositionsComplete(es: seq<Entry>, i: nat)
    requires EntriesHaveFirstCell(es)
    requires i < |es| && !es[i].header
    ensures i in DataPositions(es)
    decreases |es|
  {
    var n := |es| - 1;
    if i < n {
      var prefix := es[..n];
      assert prefix[i] == es[i];
      DataPositionsComplete(prefix, i);
    }
  }

  /** Folding the entries ends on the latest district among them. */
  lemma {:induction false} FoldEntriesDistrict(es: seq<Entry>, init: Option<Cell>)
    requires EntriesHaveFirstCell(es)
    ensures FoldEntries(es, init).district == LatestDistrict(es, init)
    ensures |FoldEntries(es, init).records| == |es| - CountHeaders(es)
    decreases |es|
  {
    if es != [] {
      var n := |es| - 1;
      var prefix := es[..n];
      assert prefix + [es[n]] == es;
      FoldEntriesDistrict(prefix, init);
      FoldEntriesAppend(prefix, [es[n]], init);
      assert [es[n]][1..] == [];
    }
  }

  /**
    The record for the k-th non-header row of `es` is that row, stamped with
    its own governorate and the latest district before it.
   */
  ghost predicate RecordsStamped(es: seq<Entry>, init: Option<Cell>)
    requires EntriesHaveFirstCell(es)
  {
    var records := FoldEntries(es, init).records;
    var pos := DataPositions(es);
    && |records| == |pos|
    && forall k :: 0 <= k < |pos| ==>
         records[k] == Stamp(es[pos[k]].row, es[pos[k]].governorate, LatestDistrict(es[..pos[k]], init))
  }

  /** Appending one entry leaves the records of the earlier rows as they were. */
  lemma EarlierRecordsKept(prefix: seq<Entry>, e: Entry, init: Option<Cell>)
    requires EntriesHaveFirstCell(prefix) && |e.row| > 0
    requires RecordsStamped(prefix, init)
    ensures EntriesHaveFirstCell(prefix + [e])
    ensures
      var es := prefix + [e];
      var f := FoldEntries(es, init).records;
      var pp := DataPositions(prefix);
      && |pp| <= |f|
      && forall k :: 0 <= k < |pp| ==>
           pp[k] < |prefix| && f[k] == Stamp(es[pp[k]].row, es[pp[k]].governorate, LatestDistrict(es[..pp[k]], init))
  {
    var es := prefix + [e];
    FoldEntriesAppend(prefix, [e], init);
    var fp := FoldEntries(prefix, init).records;
    var f := FoldEntries(es, init).records;
    var pp := DataPositions(prefix);
    assert f[..|fp|] == fp;
    forall k | 0 <= k < |pp|
      ensures f[k] == Stamp(es[pp[k]].row, es[pp[k]].governorate, LatestDistrict(es[..pp[k]], init))
    {
      assert f[k] == fp[k];
      assert es[..pp[k]] == prefix[..pp[k]];
      assert es[pp[k]] == prefix[pp[k]];
    }
  }

  /** Appending one entry keeps the records of the earlier ones and, for a data row, adds its own. */
  lemma RecordsStampedStep(prefix: seq<Entry>, e: Entry, init: Option<Cell>)
    requires EntriesHaveFirstCell(prefix) && |e.row| > 0
    requires RecordsStamped(prefix, init)
    ensures EntriesHaveFirstCell(prefix + [e])
    ensures RecordsStamped(prefix + [e], init)
  {
    var es := prefix + [e];
    var n := |prefix|;
    assert es[..n] == prefix && es[n] == e;
    EarlierRecordsKept(prefix, e, init);
    FoldEntriesAppend(prefix, [e], init);
    FoldEntriesDistrict(prefix, init);
    assert [e][1..] == [];
    var pp := DataPositions(prefix);
    var pos := DataPositions(es);
    assert forall k :: 0 <= k < |pp| ==> pos[k] == pp[k];
  }

  /**
    The record for the k-th non-header row is that row, stamped with its own
    governorate and the latest district before it; the district left at the
    end is the latest one in the whole sequence.
   */
  lemma {:induction false} FoldEntriesSpec(es: seq<Entry>, init: Option<Cell>)
    requires EntriesHaveFirstCell(es)
    ensures
      var f := FoldEntries(es, init);
      var pos := DataPositions(es);
      && |f.records| == |pos|
      && (forall k :: 0 <= k < |pos| ==>
            f.records[k] == Stamp(es[pos[k]].row, es[pos[k]].governorate, LatestDistrict(es[..pos[k]], init)))
      && f.district == LatestDistrict(es, init)
    decreases |es|
  {
    FoldEntriesDistrict(es, init);
    if es != [] {
      var n := |es| - 1;
      assert es[..n] + [es[n]] == es;
      FoldEntriesSpec(es[..n], init);
      RecordsStampedStep(es[..n], es[n], init);
    }
  }

  /**
    `process_all` over `pages`: exactly the non-header rows are emitted, in
    document order; the k-th record is its row's cells as strings, stamped
    with the governorate of the row's own page and with the first cell of the
    latest header row before it (on this page or any earlier one), or with
    the starting district when there is none. The district left at the end is
    the latest header of all.
   */
  lemma FoldPagesStampsLatestDistrict(pages: seq<Page>, init: Option<Cell>)
    requires PagesHaveFirstCell(pages)
    ensures
      var f := FoldPages(pages, init);
      var es := Flatten(pages);
      var pos := DataPositions(es);
      && |f.records| == |pos| == TotalRows(pages) - CountHeaders(es)
      && (forall k :: 0 <= k < |pos| ==>
            f.records[k] == Stamp(es[pos[k]].row, es[pos[k]].governorate, LatestDistrict(es[..pos[k]], init)))
      && f.district == LatestDistrict(es, init)
      && HeadersMarked(es)
  {
    FlattenMarksHeaders(pages);
    FoldPagesAsEntries(pages, init);
    FoldEntriesSpec(Flatten(pages), init);
  }

  /**
    The loop handles a run of pages one after another: the records for
    `a + b` are those for `a` followed by those for `b`, the latter started
    from the district `a` ended with. In particular the output for a prefix of
    the pages is a prefix of the output.
   */
  lemma {:induction false} FoldPagesAppend(a: seq<Page>, b: seq<Page>, district: Option<Cell>)
    requires PagesHaveFirstCell(a) && PagesHaveFirstCell(b)
    ensures PagesHaveFirstCell(a + b)
    ensures
      var fa := FoldPages(a, district);
      var fb := FoldPages(b, fa.district);
      FoldPages(a + b, district) == Folded(fa.records + fb.records, fb.district)
    decreases |a|
  {
    if a != [] {
      assert (a + b)[0] == a[0];
      assert (a + b)[1..] == a[1..] + b;
      var fr := FoldRows(a[0].governorate, a[0].table, district);
      FoldPagesAppend(a[1..], b, fr.district);
      var fa := FoldPages(a[1..], fr.district);
      var fb := FoldPages(b, fa.district);
      AppendAssoc(fr.records, fa.records, fb.records);
    } else {
      assert a + b == b;
    }
  }

  lemma MosulIsHeader()
    ensures IsDistrictRow([Text("Mosul District")])
  {
    var text := "Mosul District";
    assert text[6..14] == DistrictMarker;
    OccursAtContains(text, DistrictMarker, 6);
  }

  lemma NumberRowIsData(n: int, rest: Row)
    ensures !IsDistrictRow([Number(n)] + rest)
  {
    OnlyTextMentions(Number(n), DistrictMarker);
  }

  /** Header rows on one page set the district for the next page's rows. */
  lemma DistrictCarriesAcrossPages()
    ensures
      var header: Row := [Text("Mosul District")];
      var data: Row := [Text("Al-Noor"), Number(7)];
      var pages := [Page(Some("Ninevah"), [header]), Page(Some("Salaheldin"), [data])];
      FoldPages(pages, None).records
        == [Record(["Al-Noor", "7"], Some("Salaheldin"), Some(Text("Mosul District")))]
  {
    var header: Row := [Text("Mosul District")];
    var data: Row := [Text("Al-Noor"), Number(7)];
    MosulIsHeader();
    ContainsIff("Al-Noor", DistrictMarker);
    assert !IsDistrictRow(data);
    assert CellStr(Number(7)) == "7";
    assert Stringify(data) == ["Al-Noor", "7"];
    var district := Some(Text("Mosul District"));
    var first := Page(Some("Ninevah"), [header]);
    var second := Page(Some("Salaheldin"), [data]);
    assert [header][1..] == [] && [data][1..] == [];
    assert FoldRows(first.governorate, first.table, None) == Folded([], district);
    var stamped := Record(["Al-Noor", "7"], Some("Salaheldin"), district);
    assert FoldRows(second.governorate, second.table, district) == Folded([stamped], district);
    assert [first, second][1..] == [second] && [second][1..] == [];
    assert FoldPages([second], district) == Folded([stamped], district);
  }
}
