/** What `parse_record` writes into one city's sheet: the `[year, 1..12]` header
    row, the four metric rows pivoted from the records, and the threshold rules
    that choose a font or fill for each filled metric cell. */
module ReportLayout {
  import opened Wrappers
  import opened QualityRecords

  /** `range(1986, 2024)`: the years every sheet lists, ascending. */
  const FirstYear: int := 1986
  const EndYear: int := 2024
  const YearCount: int := EndYear - FirstYear

  /** One header row plus one row per metric. */
  const RowsPerYear: int := 5
  const MonthsPerYear: int := 12

  /** A spreadsheet cell value: the year and month numbers of a header row, the
      metric name or the `'/'` placeholder, or a metric value. */
  datatype SheetCell = Int(i: int) | Text(s: string) | Num(x: real)

  /** What a month without a record shows. */
  const Placeholder: SheetCell := Text("/")

  type Row = seq<SheetCell>

  /** The four columns of `property_list`, in its order. */
  datatype Metric = ToaImageProportion | SrImageProportion | ToaCloudRatio | SrCloudRatio

  const Metrics: seq<Metric> := [ToaImageProportion, SrImageProportion, ToaCloudRatio, SrCloudRatio]

  /** The column names as the source spells them, which is also the text of the
      first cell of each metric row. */
  function Name(m: Metric): string
  {
    match m
    case ToaImageProportion => "toa_image_porpotion"
    case SrImageProportion => "sr_image_porpotion"
    case ToaCloudRatio => "toa_cloud_ratio"
    case SrCloudRatio => "sr_cloud_ratio"
  }

  /** The metric a row name stands for, if any. */
  function MetricNamed(name: string): (r: Option<Metric>)
    ensures r.Some? ==> Name(r.value) == name
    ensures forall m :: Name(m) == name ==> r == Some(m)
  {
    if name == Name(ToaImageProportion) then Some(ToaImageProportion)
    else if name == Name(SrImageProportion) then Some(SrImageProportion)
    else if name == Name(ToaCloudRatio) then Some(ToaCloudRatio)
    else if name == Name(SrCloudRatio) then Some(SrCloudRatio)
    else None
  }

  /** `row[pro]`: the record's value in the metric's column. */
  function MetricValue(r: QualityRecord, m: Metric): real
  {
    match m
    case ToaImageProportion => r.toaImageProportion
    case SrImageProportion => r.srImageProportion
    case ToaCloudRatio => r.toaCloudRatio
    case SrCloudRatio => r.srCloudRatio
  }

  predicate IsCloudRatio(m: Metric)
  {
    m == ToaCloudRatio || m == SrCloudRatio
  }

  /** A cell's font colour or solid fill colour, as an RGB hex string. */
  datatype Style = FontColor(rgb: string) | SolidFill(rgb: string)

  const CloudHigh: Style := FontColor("FF0000")
  const CloudMedian: Style := FontColor("0000FF")
  const CloudLow: Style := SolidFill("00FF00")
  const CoverHigh: Style := SolidFill("00FF00")
  const CoverLow: Style := SolidFill("FFFF00")

  const CloudHighThreshold: real := 10.0
  const CloudLowThreshold: real := 5.0
  const CoverThreshold: real := 0.9

  /** A cloud ratio above 10 is written in red, one below 5 is filled green, and
      one in between is written in blue: exactly one of the three. */
  function CloudStyle(v: real): (s: Style)
    ensures s == CloudHigh <==> v > CloudHighThreshold
    ensures s == CloudLow <==> v < CloudLowThreshold
    ensures s == CloudMedian <==> CloudLowThreshold <= v <= CloudHighThreshold
  {
    if v > CloudHighThreshold then CloudHigh
    else if v < CloudLowThreshold then CloudLow
    else CloudMedian
  }

  /** A coverage proportion below 0.9 is filled yellow, any other green. */
  function CoverStyle(v: real): (s: Style)
    ensures s == CoverLow <==> v < CoverThreshold
    ensures s == CoverHigh <==> v >= CoverThreshold
  {
    if v < CoverThreshold then CoverLow else CoverHigh
  }

  /** The style the cell at index `i` of a sheet row receives: none for the
      name cell, a header row or a placeholder, and otherwise the rule of the
      metric the row is named after. */
  function RowCellStyle(row: Row, i: int): Option<Style>
  {
    if 1 <= i < |row| && row[0].Text? && row[i].Num? then
      match MetricNamed(row[0].s)
      case Some(m) => Some(if IsCloudRatio(m) then CloudStyle(row[i].x) else CoverStyle(row[i].x))
      case None => None
    else None
  }

  /** `date_line(year)`: the year followed by the month numbers 1 to 12. */
  function DateLine(year: int): (r: Row)
    ensures |r| == 1 + MonthsPerYear
    ensures r[0] == Int(year)
    ensures forall i :: 1 <= i <= MonthsPerYear ==> r[i] == Int(i)
  {
    [Int(year)] + seq(MonthsPerYear, i => Int(i + 1))
  }

  /** `value_list[month - 1]` on a 12-element Python list is valid for an index
      in -12..11; a negative index counts from the end, so month 0 lands in
      December. Any other month raises `IndexError`. */
  predicate Indexable(month: int)
  {
    -MonthsPerYear <= month - 1 < MonthsPerYear
  }

  /** The list position `value_list[month - 1]` refers to. */
  function Slot(month: int): (j: int)
    requires Indexable(month)
    ensures 0 <= j < MonthsPerYear
    ensures (j - (month - 1)) % MonthsPerYear == 0
  {
    if month - 1 < 0 then month - 1 + MonthsPerYear else month - 1
  }

  predicate InYearRange(year: int)
  {
    FirstYear <= year < EndYear
  }

  /** Every record the sheet for `city` reads has a month it can index with;
      the others make `parse_record` raise. */
  predicate YearsIndexable(recs: seq<QualityRecord>, city: string)
  {
    forall r :: r in recs && r.city == city && InYearRange(r.year) ==> Indexable(r.month)
  }

  ghost predicate AllIndexable(recs: seq<QualityRecord>)
  {
    forall k :: 0 <= k < |recs| ==> Indexable(recs[k].month)
  }

  /** Some record fills list position `j`. */
  ghost predicate HasSlot(recs: seq<QualityRecord>, j: int)
  {
    exists k :: 0 <= k < |recs| && Indexable(recs[k].month) && Slot(recs[k].month) == j
  }

  /** Record `k` is the last one that fills position `j`. */
  ghost predicate LastAt(recs: seq<QualityRecord>, k: int, j: int)
  {
    && 0 <= k < |recs|
    && Indexable(recs[k].month)
    && Slot(recs[k].month) == j
    && forall k' :: k < k' < |recs| && Indexable(recs[k'].month) ==> Slot(recs[k'].month) != j
  }

  /** `this_city_data[this_city_data['year'] == year]`, keeping the record order. */
  function Select(recs: seq<QualityRecord>, city: string, year: int): (sel: seq<QualityRecord>)
    ensures forall r {:trigger r in sel} :: r in sel <==> r in recs && r.city == city && r.year == year
    ensures |sel| <= |recs|
  {
    if |recs| == 0 then []
    else
      assert recs == [recs[0]] + recs[1..];
      var rest := Select(recs[1..], city, year);
      if recs[0].city == city && recs[0].year == year then [recs[0]] + rest else rest
  }

  /** The selection keeps, for every month, the city's records of that year
      in their input order. */
  lemma {:induction false} SelectKeyRecords(recs: seq<QualityRecord>, city: string, year: int, month: int)
    ensures KeyRecords(Select(recs, city, year), city, year, month) == KeyRecords(recs, city, year, month)
  {
    if |recs| > 0 {
      SelectKeyRecords(recs[1..], city, year, month);
      var rest := Select(recs[1..], city, year);
      if recs[0].city == city && recs[0].year == year {
        assert ([recs[0]] + rest)[1..] == rest;
      }
    }
  }

  /** A selection from sorted records is sorted. */
  lemma {:induction false} SelectSorted(recs: seq<QualityRecord>, city: string, year: int)
    requires Sorted(recs)
    ensures Sorted(Select(recs, city, year))
  {
    if |recs| > 0 {
      var tail := recs[1..];
      assert Sorted(tail) by {
        forall i, j | 0 <= i < j < |tail|
          ensures KeyLe(tail[i], tail[j])
        {
          assert tail[i] == recs[i + 1] && tail[j] == recs[j + 1];
        }
      }
      SelectSorted(tail, city, year);
      var rest := Select(tail, city, year);
      if recs[0].city == city && recs[0].year == year {
        forall j | 0 <= j < |rest|
          ensures KeyLe(recs[0], rest[j])
        {
          assert rest[j] in rest;
          var i :| 0 <= i < |tail| && tail[i] == rest[j];
          assert recs[i + 1] == rest[j];
        }
        PrependSorted(recs[0], rest);
      }
    }
  }

  lemma SelectIndexable(recs: seq<QualityRecord>, city: string, year: int)
    requires YearsIndexable(recs, city) && InYearRange(year)
    ensures AllIndexable(Select(recs, city, year))
  {
    var sel := Select(recs, city, year);
    forall k | 0 <= k < |sel|
      ensures Indexable(sel[k].month)
    {
      assert sel[k] in sel;
    }
  }

  /** The twelve month cells of one metric row: `'/'` by default, and each
      record in turn overwrites the cell of its month. */
  function Pivot(recs: seq<QualityRecord>, m: Metric): (cells: seq<SheetCell>)
    requires AllIndexable(recs)
    ensures |cells| == MonthsPerYear
    ensures forall j :: 0 <= j < MonthsPerYear ==> cells[j] == Placeholder || cells[j].Num?
  {
    if |recs| == 0 then seq(MonthsPerYear, _ => Placeholder)
    else
      var r := recs[|recs| - 1];
      Pivot(recs[..|recs| - 1], m)[Slot(r.month) := Num(MetricValue(r, m))]
  }

  /** A pivoted cell stays `'/'` exactly when no record's month indexes it,
      and otherwise holds the value of the last record whose month does. */
  lemma {:induction false} PivotCells(recs: seq<QualityRecord>, m: Metric)
    requires AllIndexable(recs)
    ensures var cells := Pivot(recs, m);
      && (forall j :: 0 <= j < MonthsPerYear ==> (cells[j] == Placeholder <==> !HasSlot(recs, j)))
      && (forall j, k :: 0 <= j < MonthsPerYear && LastAt(recs, k, j) ==> cells[j] == Num(MetricValue(recs[k], m)))
  {
    var cells := Pivot(recs, m);
    if |recs| > 0 {
      var init := recs[..|recs| - 1];
      var r := recs[|recs| - 1];
      assert forall k :: 0 <= k < |init| ==> init[k] == recs[k];
      PivotCells(init, m);
      var prev := Pivot(init, m);
      assert cells == prev[Slot(r.month) := Num(MetricValue(r, m))];
      forall j | 0 <= j < MonthsPerYear
        ensures cells[j] == Placeholder <==> !HasSlot(recs, j)
      {
        if j == Slot(r.month) {
          assert HasSlot(recs, j) by {
            assert Indexable(recs[|recs| - 1].month) && Slot(recs[|recs| - 1].month) == j;
          }
        } else {
          if HasSlot(recs, j) {
            var k :| 0 <= k < |recs| && Indexable(recs[k].month) && Slot(recs[k].month) == j;
            assert HasSlot(init, j) by {
              assert init[k] == recs[k];
            }
          }
          if HasSlot(init, j) {
            var k :| 0 <= k < |init| && Indexable(init[k].month) && Slot(init[k].month) == j;
            assert recs[k] == init[k];
          }
        }
      }
      forall j, k | 0 <= j < MonthsPerYear && LastAt(recs, k, j)
        ensures cells[j] == Num(MetricValue(recs[k], m))
      {
        if k < |init| {
          assert j != Slot(r.month);
          assert LastAt(init, k, j);
        }
      }
    }
  }

  /** Whenever some record fills position `j`, one of them is the last. */
  lemma {:induction false} LastAtExists(recs: seq<QualityRecord>, j: int)
    requires HasSlot(recs, j)
    ensures exists k :: LastAt(recs, k, j)
  {
    var n := |recs| - 1;
    if Indexable(recs[n].month) && Slot(recs[n].month) == j {
      assert LastAt(recs, n, j);
    } else {
      var init := recs[..n];
      var k0 :| 0 <= k0 < |recs| && Indexable(recs[k0].month) && Slot(recs[k0].month) == j;
      assert init[k0] == recs[k0];
      assert HasSlot(init, j);
      LastAtExists(init, j);
      var k :| LastAt(init, k, j);
      assert init[k] == recs[k];
      assert LastAt(recs, k, j);
    }
  }

  lemma ConcatIndexable(x: seq<QualityRecord>, y: seq<QualityRecord>)
    requires AllIndexable(x) && AllIndexable(y)
    ensures AllIndexable(x + y)
  {
    forall k | 0 <= k < |x + y|
      ensures Indexable((x + y)[k].month)
    {
      if k < |x| {
        assert (x + y)[k] == x[k];
      } else {
        assert (x + y)[k] == y[k - |x|];
      }
    }
  }

  /** A record appended to the records writes its own month's cell. */
  lemma PivotSnoc(s: seq<QualityRecord>, x: QualityRecord, m: Metric)
    requires AllIndexable(s) && Indexable(x.month)
    ensures AllIndexable(s + [x])
    ensures Pivot(s + [x], m) == Pivot(s, m)[Slot(x.month) := Num(MetricValue(x, m))]
  {
    ConcatIndexable(s, [x]);
    assert (s + [x])[..|s + [x]| - 1] == s;
  }

  /** A record changes only the cell of its own month: taking it out of the
      records leaves every other cell of the pivoted row as it was. */
  lemma {:induction false} PivotOnlyOwnSlot(a: seq<QualityRecord>, r: QualityRecord, b: seq<QualityRecord>, m: Metric, j: int)
    requires AllIndexable(a) && Indexable(r.month) && AllIndexable(b)
    requires 0 <= j < MonthsPerYear && j != Slot(r.month)
    ensures AllIndexable(a + [r] + b) && AllIndexable(a + b)
    ensures Pivot(a + [r] + b, m)[j] == Pivot(a + b, m)[j]
    decreases |b|
  {
    ConcatIndexable(a, [r]);
    ConcatIndexable(a + [r], b);
    ConcatIndexable(a, b);
    if |b| == 0 {
      assert a + [r] + b == a + [r];
      assert a + b == a;
      PivotSnoc(a, r, m);
    } else {
      var b', x := b[..|b| - 1], b[|b| - 1];
      assert AllIndexable(b') by {
        forall k | 0 <= k < |b'|
          ensures Indexable(b'[k].month)
        {
          assert b'[k] == b[k];
        }
      }
      PivotOnlyOwnSlot(a, r, b', m, j);
      assert a + [r] + b == (a + [r] + b') + [x];
      assert a + b == (a + b') + [x];
      PivotSnoc(a + [r] + b', x, m);
      PivotSnoc(a + b', x, m);
    }
  }

  /** `[pro] + value_list`. */
  function MetricRow(m: Metric, cells: seq<SheetCell>): Row
  {
    [Text(Name(m))] + cells
  }

  /** Row `offset` of the block of the `index`-th listed year: the `date_line`
      first, then the four metric rows in `property_list` order, each pivoting
      the city's records of that year. */
  function BlockRow(recs: seq<QualityRecord>, city: string, index: int, offset: int): Row
    requires YearsIndexable(recs, city)
    requires 0 <= index < YearCount && 0 <= offset < RowsPerYear
  {
    var year := FirstYear + index;
    if offset == 0 then DateLine(year)
    else
      SelectIndexable(recs, city, year);
      MetricRow(Metrics[offset - 1], Pivot(Select(recs, city, year), Metrics[offset - 1]))
  }
}
