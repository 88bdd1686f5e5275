/** The sheet import of the Django site (events/eventsite/models.py
    `Event.pull`): every registration of the event is dropped, the header
    row is read again, and the rows below it are read page by page and
    turned into fresh registrations. Only the "confirmed" flag survives, and
    only by row number. */
module Pull {
  import opened Wrappers
  import opened Strings
  import opened Google
  import opened Models

  // ---------------------------------------------------------------------
  // One row: header labels zipped with cells

  /** The row loop as written, over the label map `columns` (the import
      uses `ColumnMap`). `j` walks the cells and `i` the header; a cell
      under a label whose field is already filled is skipped WITHOUT
      advancing `i`, so every later cell meets the same label and is
      skipped too. */
  function ReadCells(columns: map<string, string>, header: seq<string>, row: Row, j: nat, i: nat,
                     data: map<string, string>): map<string, string>
    requires i <= j <= |row|
    decreases |row| - j
  {
    if j == |row| || i >= |header| then data
    else if header[i] in columns && columns[header[i]] in data then ReadCells(columns, header, row, j + 1, i, data)
    else if header[i] in columns then ReadCells(columns, header, row, j + 1, i + 1, data[columns[header[i]] := row[j]])
    else ReadCells(columns, header, row, j + 1, i + 1, data)
  }

  /** The `data` of the registration made from `row`. */
  function RowData(header: seq<string>, row: Row): map<string, string> {
    ReadCells(ColumnMap, header, row, 0, 0, map[])
  }

  /** The fields named by the mapped labels among the first `p` header cells. */
  function FieldsBefore(columns: map<string, string>, header: seq<string>, p: nat): (r: set<string>)
    requires p <= |header|
    ensures forall f :: f in r <==> exists q :: 0 <= q < p && header[q] in columns && columns[header[q]] == f
  {
    if p == 0 then {}
    else if header[p - 1] in columns then FieldsBefore(columns, header, p - 1) + {columns[header[p - 1]]}
    else FieldsBefore(columns, header, p - 1)
  }

  /** Header position `p` names a field an earlier position already named. */
  predicate RepeatsField(columns: map<string, string>, header: seq<string>, p: nat)
    requires p < |header|
  {
    header[p] in columns && columns[header[p]] in FieldsBefore(columns, header, p)
  }

  /** How many cells of `row` the loop reads normally: it stops at the end
      of the row, at the end of the header, or at the first repeated field. */
  function ReadLength(columns: map<string, string>, header: seq<string>, row: Row, p: nat): (k: nat)
    requires p <= |row| && p <= |header|
    ensures p <= k <= |row| && k <= |header|
    ensures k < |row| && k < |header| ==> RepeatsField(columns, header, k)
    ensures forall q :: p <= q < k ==> !RepeatsField(columns, header, q)
    decreases |row| - p
  {
    if p == |row| || p == |header| || RepeatsField(columns, header, p) then p
    else ReadLength(columns, header, row, p + 1)
  }

  /** Independent reading of a row: each of the first `p` cells is stored
      under its label's field, later cells overwriting earlier ones. */
  function Fields(columns: map<string, string>, header: seq<string>, row: Row, p: nat): map<string, string>
    requires p <= |header| && p <= |row|
  {
    if p == 0 then map[]
    else if header[p - 1] in columns then Fields(columns, header, row, p - 1)[columns[header[p - 1]] := row[p - 1]]
    else Fields(columns, header, row, p - 1)
  }

  lemma {:induction false} FieldsKeys(columns: map<string, string>, header: seq<string>, row: Row, p: nat)
    requires p <= |header| && p <= |row|
    ensures Fields(columns, header, row, p).Keys == FieldsBefore(columns, header, p)
    decreases p
  {
    if p > 0 {
      FieldsKeys(columns, header, row, p - 1);
    }
  }

  /** Once the loop meets a repeated field, the row contributes nothing more. */
  lemma {:induction false} ReadCellsStuck(columns: map<string, string>, header: seq<string>, row: Row, j: nat, i: nat,
                                          data: map<string, string>)
    requires i <= j <= |row| && i < |header|
    requires header[i] in columns && columns[header[i]] in data
    ensures ReadCells(columns, header, row, j, i, data) == data
    decreases |row| - j
  {
    if j < |row| {
      ReadCellsStuck(columns, header, row, j + 1, i, data);
    }
  }

  lemma {:induction false} ReadCellsFromFields(columns: map<string, string>, header: seq<string>, row: Row, p: nat, k: nat)
    requires p <= |row| && p <= |header|
    requires p <= k == ReadLength(columns, header, row, p)
    ensures ReadCells(columns, header, row, p, p, Fields(columns, header, row, p)) == Fields(columns, header, row, k)
    decreases k - p
  {
    FieldsKeys(columns, header, row, p);
    if p < k {
      assert !RepeatsField(columns, header, p);
      assert ReadLength(columns, header, row, p + 1) == k;
      ReadCellsFromFields(columns, header, row, p + 1, k);
    } else if p < |row| && p < |header| {
      ReadCellsStuck(columns, header, row, p, p, Fields(columns, header, row, p));
    }
  }

  /** Within the normally read prefix no field repeats, so each field holds
      the cell of the one position that names it. */
  lemma {:induction false} FieldsValues(columns: map<string, string>, header: seq<string>, row: Row, k: nat)
    requires k <= |header| && k <= |row|
    requires forall q :: 0 <= q < k ==> !RepeatsField(columns, header, q)
    ensures forall q :: 0 <= q < k && header[q] in columns ==>
      columns[header[q]] in Fields(columns, header, row, k) && Fields(columns, header, row, k)[columns[header[q]]] == row[q]
    decreases k
  {
    if k > 0 {
      FieldsValues(columns, header, row, k - 1);
      FieldsKeys(columns, header, row, k - 1);
      forall q | 0 <= q < k - 1 && header[q] in columns
        ensures Fields(columns, header, row, k)[columns[header[q]]] == row[q]
      {
        if header[k - 1] in columns {
          assert !RepeatsField(columns, header, k - 1);
          assert columns[header[q]] in FieldsBefore(columns, header, k - 1);
          assert columns[header[q]] != columns[header[k - 1]];
          assert Fields(columns, header, row, k)
              == Fields(columns, header, row, k - 1)[columns[header[k - 1]] := row[k - 1]];
        } else {
          assert Fields(columns, header, row, k) == Fields(columns, header, row, k - 1);
        }
      }
    }
  }

  /** What a row becomes: read up to `k` cells (the end of the row or the
      header, or the first label whose field repeats); the keys are exactly
      the fields of the mapped labels among those cells -- so neither a cell
      past the header nor one under an unmapped label leaves a trace -- and
      each field holds the cell under its label. */
  lemma RowDataCharacterised(header: seq<string>, row: Row)
    ensures var d := RowData(header, row);
      var k := ReadLength(ColumnMap, header, row, 0);
      k <= |row| && k <= |header|
      && (k < |row| && k < |header| ==> RepeatsField(ColumnMap, header, k))
      && d.Keys == FieldsBefore(ColumnMap, header, k)
      && forall q :: 0 <= q < k && header[q] in ColumnMap ==> d[ColumnMap[header[q]]] == row[q]
  {
    var k := ReadLength(ColumnMap, header, row, 0);
    ReadCellsFromFields(ColumnMap, header, row, 0, k);
    FieldsKeys(ColumnMap, header, row, k);
    FieldsValues(ColumnMap, header, row, k);
  }

  /** With a label map that gives different labels different fields and no
      label twice in the header, the whole row up to the end of the header
      is read. */
  lemma DistinctLabelsReadAll(columns: map<string, string>, header: seq<string>, row: Row)
    requires Injective(columns)
    requires forall a, b :: 0 <= a < b < |header| && header[a] in columns && header[b] in columns ==> header[a] != header[b]
    ensures ReadLength(columns, header, row, 0) == if |row| < |header| then |row| else |header|
  {
    forall p | 0 <= p < |header| && header[p] in columns
      ensures columns[header[p]] !in FieldsBefore(columns, header, p)
    {
      assert forall q :: 0 <= q < p && header[q] in columns ==> columns[header[q]] != columns[header[p]];
    }
  }

  /** The import's map is such a map: a header naming each column at most
      once is read to its end. */
  lemma DistinctLabelsReadWholeRow(header: seq<string>, row: Row)
    requires forall a, b :: 0 <= a < b < |header| && header[a] in ColumnMap && header[b] in ColumnMap ==> header[a] != header[b]
    ensures ReadLength(ColumnMap, header, row, 0) == if |row| < |header| then |row| else |header|
  {
    ColumnMapShape();
    DistinctLabelsReadAll(ColumnMap, header, row);
  }

  /** A repeated label freezes the row: with labels A, B, A the third cell is
      not read, and neither is the fourth, under a fresh label. */
  lemma RepeatStopsRow(a: string, b: string, c: string)
    requires a in ColumnMap && b in ColumnMap && c in ColumnMap
    requires a != b && a != c && b != c
    ensures RowData([a, b, a, c], ["1", "2", "3", "4"]) == map[ColumnMap[a] := "1", ColumnMap[b] := "2"]
  {
    ColumnMapDistinct(a, b);
    var cm := ColumnMap;
    var header := [a, b, a, c];
    var row: Row := ["1", "2", "3", "4"];
    var d1 := map[cm[a] := "1"];
    var d := d1[cm[b] := "2"];
    assert cm[b] !in d1;
    assert ReadCells(cm, header, row, 0, 0, map[]) == ReadCells(cm, header, row, 1, 1, d1);
    assert ReadCells(cm, header, row, 1, 1, d1) == ReadCells(cm, header, row, 2, 2, d);
    assert header[2] in cm && cm[header[2]] in d;
    ReadCellsStuck(cm, header, row, 2, 2, d);
  }

  // ---------------------------------------------------------------------
  // Paging

  /** The range of one page: 31 rows of columns A to T from `start`. */
  function PageRange(list: string, start: int): string {
    RangeString(list, "A" + IntToString(start) + ":T" + IntToString(start + 30))
  }

  /** The page ranges of sheet `list`, by first row. */
  function PagesOf(list: string): int -> string {
    start => PageRange(list, start)
  }

  /** One read page: its first row number and the rows returned. */
  datatype Page = Page(start: int, rows: seq<Row>)

  /** The rows of one page, each with its sheet row number. */
  function NumberPage(pg: Page): (r: seq<(int, Row)>)
    ensures |r| == |pg.rows|
    ensures forall k :: 0 <= k < |r| ==> r[k] == (pg.start + k, pg.rows[k])
  {
    seq(|pg.rows|, k requires 0 <= k < |pg.rows| => (pg.start + k, pg.rows[k]))
  }

  /** Every row of the pages, with its sheet row number. */
  function NumberedRows(pages: seq<Page>): seq<(int, Row)>
    decreases |pages|
  {
    if pages == [] then [] else NumberPage(pages[0]) + NumberedRows(pages[1..])
  }

  /** How many rows the pages hold together. */
  function RowCount(pages: seq<Page>): nat
    decreases |pages|
  {
    if pages == [] then 0 else |pages[0].rows| + RowCount(pages[1..])
  }

  lemma {:induction false} RowCountNumbered(pages: seq<Page>)
    ensures |NumberedRows(pages)| == RowCount(pages)
    decreases |pages|
  {
    if pages != [] {
      RowCountNumbered(pages[1..]);
    }
  }

  /** Each page starts where the rows of the previous one left off. */
  predicate Chained(pages: seq<Page>, start: int)
    decreases |pages|
  {
    pages == [] || (pages[0].start == start && Chained(pages[1..], start + |pages[0].rows|))
  }

  lemma ConsPage(pg: Page, rest: seq<Page>)
    requires Chained(rest, pg.start + |pg.rows|)
    ensures Chained([pg] + rest, pg.start)
    ensures RowCount([pg] + rest) == |pg.rows| + RowCount(rest)
  {
    assert ([pg] + rest)[1..] == rest;
  }

  /** The `while True` page loop: a page is requested from the current row
      number, which then advances by the number of rows the page returned;
      the loop ends at the first `None`. `ranges` gives the range string of
      the page from a row (`PagesOf(list)` in the import). The source loops
      for ever while pages keep coming, so the model reads at most `fuel`
      pages and reports whether it saw the end (`.1`). */
  function ReadPages(fetch: Fetch, ranges: int -> string, start: int, fuel: nat): (r: (seq<Page>, bool))
    ensures Chained(r.0, start)
    ensures forall p :: 0 <= p < |r.0| ==> fetch(ranges(r.0[p].start)) == Some(r.0[p].rows)
    ensures r.1 ==> fetch(ranges(start + RowCount(r.0))) == None
    ensures !r.1 ==> |r.0| == fuel
    decreases fuel
  {
    if fuel == 0 then ([], false)
    else match fetch(ranges(start))
      case None => ([], true)
      case Some(rows) =>
        var rest := ReadPages(fetch, ranges, start + |rows|, fuel - 1);
        var pages := [Page(start, rows)] + rest.0;
        ConsPage(Page(start, rows), rest.0);
        assert forall p :: 0 < p < |pages| ==> pages[p] == rest.0[p - 1];
        (pages, rest.1)
  }

  /** Row numbers rise by one per returned row, empty rows included, with
      no gap between pages. */
  lemma {:induction false} NumberedRowsConsecutive(pages: seq<Page>, start: int)
    requires Chained(pages, start)
    ensures forall k :: 0 <= k < |NumberedRows(pages)| ==> NumberedRows(pages)[k].0 == start + k
    decreases |pages|
  {
    if pages != [] {
      NumberedRowsConsecutive(pages[1..], start + |pages[0].rows|);
    }
  }

  // ---------------------------------------------------------------------
  // The import

  /** An event together with its registrations, the part of the database
      the import touches. */
  datatype EventState = EventState(event: Event, registrations: seq<Registration>)

  datatype PullOutcome =
    | Pulled        // the page loop met the end of the data
    | HeaderMissing // the `[0]` of the header read failed, after the deletion
    | PagingCut     // `fuel` pages were read and the end was not reached

  datatype PullResult = PullResult(state: EventState, outcome: PullOutcome)

  /** The rows of the registrations that were confirmed before the import. */
  function ConfirmedRows(regs: seq<Registration>): (r: set<int>)
    ensures forall n :: n in r <==> exists k :: 0 <= k < |regs| && regs[k].confirmed && regs[k].row == n
  {
    set k | 0 <= k < |regs| && regs[k].confirmed :: regs[k].row
  }

  /** One fresh registration per numbered row: never verified, without
      answers, and confirmed when its row is one of `confirmedRows`. */
  function NewRegistrations(header: seq<string>, rows: seq<(int, Row)>, confirmedRows: set<int>, nextId: nat): (r: seq<Registration>)
    ensures |r| == |rows|
    ensures forall k :: 0 <= k < |rows| ==>
      r[k] == Registration(nextId + k, rows[k].0, RowData(header, rows[k].1), false, rows[k].0 in confirmedRows, [])
  {
    seq(|rows|, k requires 0 <= k < |rows| =>
      Registration(nextId + k, rows[k].0, RowData(header, rows[k].1), false, rows[k].0 in confirmedRows, []))
  }

  /** The header range `'list'!A1:T1`. */
  function HeaderRange(event: Event): string {
    RangeString(event.listName, "A1:T1")
  }

  /** `Event.pull`. New registrations get the ids `nextId`, `nextId + 1`, ...
      (the database's choice in the source). */
  function Pull(s: EventState, fetch: Fetch, fuel: nat, nextId: nat): (r: PullResult)
    ensures r.outcome == HeaderMissing <==> fetch(HeaderRange(s.event)).GetOr([]) == []
    ensures r.outcome == HeaderMissing ==> r.state == EventState(s.event, [])
    ensures r.outcome != HeaderMissing ==>
      var header := fetch(HeaderRange(s.event)).value[0];
      r.state.event == s.event.(header := header)
      && forall k :: 0 <= k < |r.state.registrations| ==>
        var reg := r.state.registrations[k];
        reg.id == nextId + k
        && reg.row == 2 + s.event.skipRows + k
        && !reg.verified && reg.answers == []
        && (reg.confirmed <==> exists m :: 0 <= m < |s.registrations| && s.registrations[m].confirmed && s.registrations[m].row == reg.row)
    ensures r.outcome != HeaderMissing ==>
      var header := fetch(HeaderRange(s.event)).value[0];
      var rows := NumberedRows(ReadPages(fetch, PagesOf(s.event.listName), 2 + s.event.skipRows, fuel).0);
      |r.state.registrations| == |rows|
      && forall k :: 0 <= k < |rows| ==> r.state.registrations[k].data == RowData(header, rows[k].1)
  {
    var confirmedRows := ConfirmedRows(s.registrations);
    var headerRows := fetch(HeaderRange(s.event)).GetOr([]);
    if headerRows == [] then PullResult(EventState(s.event, []), HeaderMissing)
    else
      var header := headerRows[0];
      var start := 2 + s.event.skipRows;
      var (pages, ended) := ReadPages(fetch, PagesOf(s.event.listName), start, fuel);
      var rows := NumberedRows(pages);
      NumberedRowsConsecutive(pages, start);
      var regs := NewRegistrations(header, rows, confirmedRows, nextId);
      PullResult(EventState(s.event.(header := header), regs), if ended then Pulled else PagingCut)
  }

  /** The import as a composition: after a header is found, the state is the
      new header and one registration per row of the pages read. */
  lemma PullUnfolds(s: EventState, fetch: Fetch, fuel: nat, nextId: nat)
    requires fetch(HeaderRange(s.event)).GetOr([]) != []
    ensures var header := fetch(HeaderRange(s.event)).value[0];
      var (pages, ended) := ReadPages(fetch, PagesOf(s.event.listName), 2 + s.event.skipRows, fuel);
      Pull(s, fetch, fuel, nextId)
      == PullResult(EventState(s.event.(header := header),
                               NewRegistrations(header, NumberedRows(pages), ConfirmedRows(s.registrations), nextId)),
                    if ended then Pulled else PagingCut)
  {
    var headerRows := fetch(HeaderRange(s.event)).GetOr([]);
    assert headerRows != [] && headerRows[0] == fetch(HeaderRange(s.event)).value[0];
  }

  /** A completed import stopped because the read after its last row found
      no values. */
  lemma PulledMeansEndOfData(s: EventState, fetch: Fetch, fuel: nat, nextId: nat)
    requires Pull(s, fetch, fuel, nextId).outcome == Pulled
    ensures var start := 2 + s.event.skipRows;
      var pages := ReadPages(fetch, PagesOf(s.event.listName), start, fuel).0;
      fetch(PageRange(s.event.listName, start + |NumberedRows(pages)|)) == None
  {
    var pages := ReadPages(fetch, PagesOf(s.event.listName), 2 + s.event.skipRows, fuel).0;
    PullUnfolds(s, fetch, fuel, nextId);
    RowCountNumbered(pages);
  }
}
