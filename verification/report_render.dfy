/** `parse_record` itself: the per-city sheets it builds row by row with its
    `current_row` counter, and the cell addresses it styles. */
module ReportRender {
  import opened Wrappers
  import opened QualityRecords
  import opened ReportLayout
  import StringOrder

  /** openpyxl's cell address: 1-based row and column. */
  datatype Coord = Coord(row: int, col: int)

  /** One worksheet: its title, its rows in append order (row `i` of the
      sequence is sheet row `i + 1`) and the style set on each styled cell. */
  datatype Sheet = Sheet(title: string, rows: seq<Row>, styles: map<Coord, Style>)

  /** `value_list[row['month'] - 1]` raised `IndexError`. */
  datatype ReportError = MonthIndexError

  /** Every styled cell holds a value and carries the style its own row's rule
      chooses for it, and every cell whose row's rule chooses a style has it. */
  ghost predicate StylesMatch(rows: seq<Row>, styles: map<Coord, Style>)
  {
    && (forall p :: p in styles ==> 1 <= p.row <= |rows| && RowCellStyle(rows[p.row - 1], p.col - 1) == Some(styles[p]))
    && (forall r, c :: 0 <= r < |rows| && RowCellStyle(rows[r], c).Some? ==> Coord(r + 1, c + 1) in styles)
  }

  /** Appending a header row, which no rule styles, keeps the styles matched. */
  lemma StylesMatchHeader(rows: seq<Row>, styles: map<Coord, Style>, year: int)
    requires StylesMatch(rows, styles)
    ensures StylesMatch(rows + [DateLine(year)], styles)
  {
    var rows' := rows + [DateLine(year)];
    forall p | p in styles
      ensures 1 <= p.row <= |rows'| && RowCellStyle(rows'[p.row - 1], p.col - 1) == Some(styles[p])
    {
      assert rows'[p.row - 1] == rows[p.row - 1];
    }
    forall r, c | 0 <= r < |rows'| && RowCellStyle(rows'[r], c).Some?
      ensures Coord(r + 1, c + 1) in styles
    {
      assert r < |rows| && rows'[r] == rows[r];
    }
  }

  /** The styling loop of `parse_record` for one metric row: `rowLine` has just
      been appended below `rows`, at sheet row `current_row + pid + 1`, and
      each month cell `i` that is not `'/'` gets the font or fill its value
      calls for at column `i + 1`. */
  method StyleMetricRow(styles: map<Coord, Style>, rows: seq<Row>, rowLine: Row, pro: Metric, currentRow: int, pid: int)
    returns (styled: map<Coord, Style>)
    requires |rows| == currentRow + pid
    requires StylesMatch(rows, styles)
    requires |rowLine| == 1 + MonthsPerYear && rowLine[0] == Text(Name(pro))
    requires forall i :: 1 <= i <= MonthsPerYear ==> rowLine[i] == Placeholder || rowLine[i].Num?
    ensures StylesMatch(rows + [rowLine], styled)
  {
    var rows' := rows + [rowLine];
    assert MetricNamed(rowLine[0].s) == Some(pro);
    styled := styles;
    var i := 1;
    while i < 1 + MonthsPerYear
      invariant 1 <= i <= 1 + MonthsPerYear
      invariant forall p :: p in styled ==>
        || (p in styles && styled[p] == styles[p])
        || (p.row == |rows'| && 1 <= p.col - 1 < i && RowCellStyle(rowLine, p.col - 1) == Some(styled[p]))
      invariant forall p :: p in styles ==> p in styled
      invariant forall c :: 1 <= c < i && RowCellStyle(rowLine, c).Some? ==> Coord(|rows'|, c + 1) in styled
    {
      if rowLine[i] != Placeholder {
        var v := rowLine[i].x;
        var at := Coord(currentRow + pid + 1, i + 1);
        if IsCloudRatio(pro) {
          if v > CloudHighThreshold {
            styled := styled[at := CloudHigh];
          } else if v < CloudLowThreshold {
            styled := styled[at := CloudLow];
          } else {
            styled := styled[at := CloudMedian];
          }
        } else {
          if v < CoverThreshold {
            styled := styled[at := CoverLow];
          } else {
            styled := styled[at := CoverHigh];
          }
        }
      }
      i := i + 1;
    }
    forall p | p in styled
      ensures 1 <= p.row <= |rows'| && RowCellStyle(rows'[p.row - 1], p.col - 1) == Some(styled[p])
    {
      if p in styles && styled[p] == styles[p] {
        assert rows'[p.row - 1] == rows[p.row - 1];
      }
    }
    forall r, c | 0 <= r < |rows'| && RowCellStyle(rows'[r], c).Some?
      ensures Coord(r + 1, c + 1) in styled
    {
      if r < |rows| {
        assert rows'[r] == rows[r];
      }
    }
  }

  /** Metric `pid`'s row in the block of the `index`-th listed year pivots the
      city's records of that year. */
  lemma LayoutMetric(recs: seq<QualityRecord>, city: string, index: int, pid: int)
    requires YearsIndexable(recs, city) && 0 <= index < YearCount && 0 <= pid < |Metrics|
    ensures AllIndexable(Select(recs, city, FirstYear + index))
    ensures BlockRow(recs, city, index, pid + 1)
      == MetricRow(Metrics[pid], Pivot(Select(recs, city, FirstYear + index), Metrics[pid]))
  {
    SelectIndexable(recs, city, FirstYear + index);
  }

  /** Record `r` belongs to `city`'s sheet, in `year`, at list position `j`. */
  ghost predicate Fills(r: QualityRecord, city: string, year: int, j: int)
  {
    r.city == city && r.year == year && Indexable(r.month) && Slot(r.month) == j
  }

  /** Some record of `records` belongs at position `j` of `city`'s `year`. */
  ghost predicate SomeFills(records: seq<QualityRecord>, city: string, year: int, j: int)
  {
    exists r :: r in records && Fills(r, city, year, j)
  }

  /** `w` is the last record of `records`, in input order, with its own
      city, year and month. */
  ghost predicate LastWithKey(records: seq<QualityRecord>, w: QualityRecord)
  {
    var ks := KeyRecords(records, w.city, w.year, w.month);
    |ks| > 0 && ks[|ks| - 1] == w
  }

  /** `w` is the record whose value the source leaves at position `j` of
      `city`'s `year`: among the records that belong there, it has the
      greatest month (months 0 and 12 both land in December, and the sort
      puts 12 after 0), and among those with that month it comes last in the
      input. */
  ghost predicate Latest(w: QualityRecord, records: seq<QualityRecord>, city: string, year: int, j: int)
  {
    && w in records
    && Fills(w, city, year, j)
    && (forall r :: r in records && Fills(r, city, year, j) ==> r.month <= w.month)
    && LastWithKey(records, w)
  }

  /** `cell` shows metric `m` of the record the source leaves there. */
  ghost predicate ShowsLatest(cell: SheetCell, records: seq<QualityRecord>, city: string, year: int, j: int, m: Metric)
  {
    exists w :: Latest(w, records, city, year, j) && cell == Num(MetricValue(w, m))
  }

  /** In one city's sorted records of one year, the last record that writes
      position `j` has the greatest month among those that write it. */
  lemma LastAtGreatestMonth(sel: seq<QualityRecord>, city: string, year: int, j: int, k: int)
    requires Sorted(sel) && AllIndexable(sel) && LastAt(sel, k, j)
    requires forall i :: 0 <= i < |sel| ==> sel[i].city == city && sel[i].year == year
    ensures forall i :: 0 <= i < |sel| && Slot(sel[i].month) == j ==> sel[i].month <= sel[k].month
  {
    StringOrder.LessIrreflexive(city);
    forall i | 0 <= i < |sel| && Slot(sel[i].month) == j
      ensures sel[i].month <= sel[k].month
    {
      if i < k {
        assert KeyLe(sel[i], sel[k]);
      }
    }
  }

  /** The last record that writes position `j` is also the last with its own
      key, since every record with that key writes the same position. */
  lemma LastAtLastWithKey(sel: seq<QualityRecord>, j: int, k: int)
    requires AllIndexable(sel) && LastAt(sel, k, j)
    ensures LastWithKey(sel, sel[k])
  {
    KeyRecordsLast(sel, k);
  }

  /** The last selected record that writes position `j` is the record the
      source leaves there. */
  lemma LastAtIsLatest(records: seq<QualityRecord>, city: string, year: int, j: int, k: int)
    requires YearsIndexable(SortRecords(records), city) && InYearRange(year)
    requires AllIndexable(Select(SortRecords(records), city, year))
    requires LastAt(Select(SortRecords(records), city, year), k, j)
    ensures Latest(Select(SortRecords(records), city, year)[k], records, city, year, j)
  {
    var sorted := SortRecords(records);
    var sel := Select(sorted, city, year);
    var w := sel[k];
    SortKeepsRecords(records);
    assert w in sel;
    assert forall i :: 0 <= i < |sel| ==> sel[i].month <= w.month || Slot(sel[i].month) != j by {
      SelectSorted(sorted, city, year);
      assert forall i :: 0 <= i < |sel| ==> sel[i] in sel;
      LastAtGreatestMonth(sel, city, year, j, k);
    }
    forall r | r in records && Fills(r, city, year, j)
      ensures r.month <= w.month
    {
      assert r in sel;
    }
    assert LastWithKey(records, w) by {
      LastAtLastWithKey(sel, j, k);
      SelectKeyRecords(sorted, city, year, w.month);
      SortStable(records, city, year, w.month);
    }
  }

  /** The pivoted cell at position `j` of a year's metric row, read back
      against the unsorted records. */
  lemma SelectedCell(records: seq<QualityRecord>, city: string, year: int, m: Metric, j: int)
    requires YearsIndexable(SortRecords(records), city) && InYearRange(year) && 0 <= j < MonthsPerYear
    ensures AllIndexable(Select(SortRecords(records), city, year))
    ensures var cell := Pivot(Select(SortRecords(records), city, year), m)[j];
      && (cell == Placeholder <==> !SomeFills(records, city, year, j))
      && (cell != Placeholder ==> ShowsLatest(cell, records, city, year, j, m))
  {
    var sorted := SortRecords(records);
    SortKeepsRecords(records);
    SelectIndexable(sorted, city, year);
    var sel := Select(sorted, city, year);
    var cells := Pivot(sel, m);
    PivotCells(sel, m);
    if exists r :: r in records && Fills(r, city, year, j) {
      var r :| r in records && Fills(r, city, year, j);
      assert r in sel;
      var k :| 0 <= k < |sel| && sel[k] == r;
      assert HasSlot(sel, j);
    }
    if HasSlot(sel, j) {
      LastAtExists(sel, j);
      var k :| LastAt(sel, k, j);
      LastAtIsLatest(records, city, year, j, k);
      assert Latest(sel[k], records, city, year, j);
    }
  }

  /** The rows built so far are the first rows of the layout: the block of
      the `index`-th listed year starts at 0-based row `5 * index`. */
  ghost predicate FollowsLayout(rows: seq<Row>, recs: seq<QualityRecord>, city: string)
    requires YearsIndexable(recs, city)
  {
    && |rows| <= RowsPerYear * YearCount
    && forall index, offset {:trigger BlockRow(recs, city, index, offset)} ::
         0 <= index < YearCount && 0 <= offset < RowsPerYear && RowsPerYear * index + offset < |rows| ==>
           rows[RowsPerYear * index + offset] == BlockRow(recs, city, index, offset)
  }

  lemma FollowsLayoutAppend(rows: seq<Row>, recs: seq<QualityRecord>, city: string, index: int, offset: int, row: Row)
    requires YearsIndexable(recs, city) && 0 <= index < YearCount && 0 <= offset < RowsPerYear
    requires FollowsLayout(rows, recs, city) && |rows| == RowsPerYear * index + offset
    requires row == BlockRow(recs, city, index, offset)
    ensures FollowsLayout(rows + [row], recs, city)
  {
    var rows' := rows + [row];
    forall i, o | 0 <= i < YearCount && 0 <= o < RowsPerYear && RowsPerYear * i + o < |rows'|
      ensures rows'[RowsPerYear * i + o] == BlockRow(recs, city, i, o)
    {
      if RowsPerYear * i + o < |rows| {
        assert rows'[RowsPerYear * i + o] == rows[RowsPerYear * i + o];
      } else {
        assert i == index && o == offset;
      }
    }
  }

  /** The sheet `parse_record` builds for one city from its sorted records. */
  ghost predicate CitySheet(sheet: Sheet, recs: seq<QualityRecord>, city: string)
    requires YearsIndexable(recs, city)
  {
    && sheet.title == city
    && |sheet.rows| == RowsPerYear * YearCount
    && FollowsLayout(sheet.rows, recs, city)
    && StylesMatch(sheet.rows, sheet.styles)
  }

  /** Metric `pid`'s row in the block of year `index` of a sheet laid out from
      `recs` is the metric's name followed by that year's pivoted cells. */
  lemma MetricRowAt(sheet: Sheet, recs: seq<QualityRecord>, city: string, index: int, pid: int)
    requires YearsIndexable(recs, city)
    requires FollowsLayout(sheet.rows, recs, city) && |sheet.rows| == RowsPerYear * YearCount
    requires 0 <= index < YearCount && 0 <= pid < |Metrics|
    ensures AllIndexable(Select(recs, city, FirstYear + index))
    ensures sheet.rows[RowsPerYear * index + pid + 1]
      == MetricRow(Metrics[pid], Pivot(Select(recs, city, FirstYear + index), Metrics[pid]))
  {
    LayoutMetric(recs, city, index, pid);
    assert sheet.rows[RowsPerYear * index + pid + 1] == BlockRow(recs, city, index, pid + 1);
  }

  /** The month cells of a rendered sheet, read back against the unsorted
      records: the cell in column `month + 1` of metric `pid`'s row in the
      block of year `index` shows `'/'` exactly when no record of that city
      and year has a month that indexes position `month - 1`, and otherwise
      the metric value of the record the source leaves there (`ShowsLatest`). */
  lemma RenderedCell(sheet: Sheet, records: seq<QualityRecord>, city: string, index: int, pid: int, month: int)
    requires YearsIndexable(SortRecords(records), city)
    requires FollowsLayout(sheet.rows, SortRecords(records), city) && |sheet.rows| == RowsPerYear * YearCount
    requires 0 <= index < YearCount && 0 <= pid < |Metrics| && 1 <= month <= MonthsPerYear
    ensures var row := sheet.rows[RowsPerYear * index + pid + 1];
      && |row| == 1 + MonthsPerYear
      && row[0] == Text(Name(Metrics[pid]))
      && (row[month] == Placeholder <==> !SomeFills(records, city, FirstYear + index, month - 1))
      && (row[month] != Placeholder ==> ShowsLatest(row[month], records, city, FirstYear + index, month - 1, Metrics[pid]))
  {
    var sorted := SortRecords(records);
    var year, j, m := FirstYear + index, month - 1, Metrics[pid];
    MetricRowAt(sheet, sorted, city, index, pid);
    var cells := Pivot(Select(sorted, city, year), m);
    var row := sheet.rows[RowsPerYear * index + pid + 1];
    assert row[month] == cells[j];
    SelectedCell(records, city, year, m, j);
  }

  /** One year's block, as the body of the source's year loop appends it: the
      `date_line` at sheet row `current_row`, then metric `pid`'s row at
      `current_row + pid + 1`, styled there. */
  method AppendYear(rows: seq<Row>, styles: map<Coord, Style>, recs: seq<QualityRecord>, city: string, index: int, currentRow: int)
    returns (rows': seq<Row>, styles': map<Coord, Style>)
    requires YearsIndexable(recs, city) && 0 <= index < YearCount
    requires currentRow == 1 + RowsPerYear * index && |rows| == currentRow - 1
    requires FollowsLayout(rows, recs, city) && StylesMatch(rows, styles)
    ensures |rows'| == |rows| + RowsPerYear
    ensures FollowsLayout(rows', recs, city) && StylesMatch(rows', styles')
  {
    var year := FirstYear + index;
    StylesMatchHeader(rows, styles, year);
    FollowsLayoutAppend(rows, recs, city, index, 0, DateLine(year));
    rows' := rows + [DateLine(year)];
    styles' := styles;
    var yearData := Select(recs, city, year);
    SelectIndexable(recs, city, year);
    var pid := 0;
    while pid < |Metrics|
      invariant 0 <= pid <= |Metrics|
      invariant |rows'| == currentRow + pid
      invariant FollowsLayout(rows', recs, city)
      invariant StylesMatch(rows', styles')
    {
      var pro := Metrics[pid];
      var rowLine := MetricRow(pro, Pivot(yearData, pro));
      LayoutMetric(recs, city, index, pid);
      FollowsLayoutAppend(rows', recs, city, index, pid + 1, rowLine);
      styles' := StyleMetricRow(styles', rows', rowLine, pro, currentRow, pid);
      rows' := rows' + [rowLine];
      pid := pid + 1;
    }
  }

  /** One city's sheet, built as the source builds it: `current_row` starts at 1
      and grows by 5 per year. */
  method RenderCity(city: string, recs: seq<QualityRecord>) returns (sheet: Sheet)
    requires YearsIndexable(recs, city)
    ensures CitySheet(sheet, recs, city)
  {
    var rows: seq<Row> := [];
    var styles: map<Coord, Style> := map[];
    var currentRow := 1;
    var index := 0;
    while index < YearCount
      invariant 0 <= index <= YearCount
      invariant currentRow == 1 + RowsPerYear * index
      invariant |rows| == currentRow - 1
      invariant FollowsLayout(rows, recs, city)
      invariant StylesMatch(rows, styles)
    {
      rows, styles := AppendYear(rows, styles, recs, city, index, currentRow);
      currentRow := currentRow + RowsPerYear;
      index := index + 1;
    }
    sheet := Sheet(city, rows, styles);
  }

  /** The sheet for `city` was rendered from the sorted records `sorted`. */
  ghost predicate SheetFor(sheet: Sheet, sorted: seq<QualityRecord>, city: string)
  {
    YearsIndexable(sorted, city) && CitySheet(sheet, sorted, city)
  }

  /** The workbook `parse_record` saves: one sheet per city of the sorted
      records, in `unique()` order. */
  ghost predicate Workbook(sheets: seq<Sheet>, records: seq<QualityRecord>)
  {
    var sorted := SortRecords(records);
    var cities := Cities(sorted);
    && |sheets| == |cities|
    && forall t :: 0 <= t < |sheets| ==> sheets[t].title == cities[t] && SheetFor(sheets[t], sorted, cities[t])
  }

  ghost predicate HasSheet(sheets: seq<Sheet>, title: string)
  {
    exists t :: 0 <= t < |sheets| && sheets[t].title == title
  }

  ghost predicate HasCity(records: seq<QualityRecord>, city: string)
  {
    exists r :: r in records && r.city == city
  }

  /** A record `parse_record` reads, of a listed year, whose month cannot index
      the 12-cell list. */
  ghost predicate HasBadMonth(records: seq<QualityRecord>)
  {
    exists r :: r in records && InYearRange(r.year) && !Indexable(r.month)
  }

  /** A city whose sheet cannot be built has a record of its own, of a listed
      year, with a bad month. */
  lemma BadCityHasBadMonth(records: seq<QualityRecord>, city: string)
    requires !YearsIndexable(SortRecords(records), city)
    ensures exists r :: r in records && r.city == city && InYearRange(r.year) && !Indexable(r.month)
    ensures HasBadMonth(records)
  {
    SortKeepsRecords(records);
  }

  /** When every city's sheet can be built, no record has a bad month. */
  lemma NoBadMonth(records: seq<QualityRecord>, sheets: seq<Sheet>)
    requires Workbook(sheets, records)
    ensures !HasBadMonth(records)
  {
    var sorted := SortRecords(records);
    var cities := Cities(sorted);
    SortKeepsRecords(records);
    forall r | r in records && InYearRange(r.year)
      ensures Indexable(r.month)
    {
      var i :| 0 <= i < |sorted| && sorted[i] == r;
      assert r.city in cities;
      var s :| 0 <= s < |cities| && cities[s] == r.city;
      assert SheetFor(sheets[s], sorted, cities[s]);
    }
  }

  /** The workbook has exactly one sheet per distinct city of the records, and
      lists them in ascending order. */
  lemma WorkbookCities(records: seq<QualityRecord>, sheets: seq<Sheet>)
    requires Workbook(sheets, records)
    ensures forall c :: HasSheet(sheets, c) <==> HasCity(records, c)
    ensures forall s, t :: 0 <= s < t < |sheets| ==> StringOrder.Less(sheets[s].title, sheets[t].title)
    ensures forall s, t :: 0 <= s < t < |sheets| ==> sheets[s].title != sheets[t].title
  {
    var sorted := SortRecords(records);
    var cities := Cities(sorted);
    SortKeepsRecords(records);
    CitiesAscending(sorted);
    forall c
      ensures HasSheet(sheets, c) <==> HasCity(records, c)
    {
      if HasCity(records, c) {
        var r :| r in records && r.city == c;
        var i :| 0 <= i < |sorted| && sorted[i] == r;
        assert c in cities;
        var s :| 0 <= s < |cities| && cities[s] == c;
        assert sheets[s].title == c;
      }
      if HasSheet(sheets, c) {
        var t :| 0 <= t < |sheets| && sheets[t].title == c;
        assert cities[t] in cities;
        var i :| 0 <= i < |sorted| && sorted[i].city == c;
        assert sorted[i] in sorted;
      }
    }
    forall s, t | 0 <= s < t < |sheets|
      ensures StringOrder.Less(sheets[s].title, sheets[t].title)
    {
      assert sheets[s].title == cities[s] && sheets[t].title == cities[t];
    }
    forall s, t | 0 <= s < t < |sheets|
      ensures sheets[s].title != sheets[t].title
    {
      StringOrder.LessIrreflexive(sheets[s].title);
    }
  }

  /** `parse_record`: sort the records, then build one sheet per city. A record
      of a listed year whose month cannot index the 12-cell list raises, and
      then no workbook is saved. */
  method ParseRecord(records: seq<QualityRecord>) returns (result: Result<seq<Sheet>, ReportError>)
    ensures result.Failure? <==> HasBadMonth(records)
    ensures result.Success? ==> Workbook(result.value, records)
    ensures result.Success? ==> forall c :: HasSheet(result.value, c) <==> HasCity(records, c)
    ensures result.Success? ==> forall s, t :: 0 <= s < t < |result.value| ==>
      StringOrder.Less(result.value[s].title, result.value[t].title)
  {
    var sorted := SortRecords(records);
    var cities := Cities(sorted);
    var sheets: seq<Sheet> := [];
    var t := 0;
    while t < |cities|
      invariant 0 <= t <= |cities|
      invariant |sheets| == t
      invariant forall s :: 0 <= s < t ==> sheets[s].title == cities[s] && SheetFor(sheets[s], sorted, cities[s])
    {
      var city := cities[t];
      if !YearsIndexable(sorted, city) {
        BadCityHasBadMonth(records, city);
        return Failure(MonthIndexError);
      }
      var sheet := RenderCity(city, sorted);
      sheets := sheets + [sheet];
      t := t + 1;
    }
    assert Workbook(sheets, records);
    NoBadMonth(records, sheets);
    WorkbookCities(records, sheets);
    return Success(sheets);
  }
}
