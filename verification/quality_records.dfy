/** The flat quality records that `parse_record` reads back from its CSV store,
    the `(city, year, month)` sort applied to them, and the list of cities the
    workbook gets one sheet for. */
module QualityRecords {
  import StringOrder

  /** One CSV row: `city, year, month, toa_image_proportion, sr_image_proportion,
      toa_cloud_ratio, sr_cloud_ratio, day`. The metric values are only ever
      compared against thresholds, so they are reals. */
  datatype QualityRecord = QualityRecord(
    city: string,
    year: int,
    month: int,
    toaImageProportion: real,
    srImageProportion: real,
    toaCloudRatio: real,
    srCloudRatio: real,
    day: int)

  /** The key order of `sort_values(by=['city', 'year', 'month'])`. */
  predicate KeyLe(a: QualityRecord, b: QualityRecord)
  {
    || StringOrder.Less(a.city, b.city)
    || (a.city == b.city && (a.year < b.year || (a.year == b.year && a.month <= b.month)))
  }

  lemma KeyLeTotal(a: QualityRecord, b: QualityRecord)
    ensures KeyLe(a, b) || KeyLe(b, a)
  {
    StringOrder.LessTrichotomous(a.city, b.city);
  }

  lemma KeyLeTransitive(a: QualityRecord, b: QualityRecord, c: QualityRecord)
    requires KeyLe(a, b) && KeyLe(b, c)
    ensures KeyLe(a, c)
  {
    if StringOrder.Less(a.city, b.city) && StringOrder.Less(b.city, c.city) {
      StringOrder.LessTransitive(a.city, b.city, c.city);
    }
  }

  ghost predicate Sorted(s: seq<QualityRecord>)
  {
    forall i, j :: 0 <= i < j < |s| ==> KeyLe(s[i], s[j])
  }

  /** Putting `y` in front of a sorted sequence whose elements are all at least `y`
      keeps it sorted. */
  lemma PrependSorted(y: QualityRecord, t: seq<QualityRecord>)
    requires Sorted(t)
    requires forall j :: 0 <= j < |t| ==> KeyLe(y, t[j])
    ensures Sorted([y] + t)
  {
    var s := [y] + t;
    forall i, j | 0 <= i < j < |s|
      ensures KeyLe(s[i], s[j])
    {
      if i > 0 {
        assert s[i] == t[i - 1] && s[j] == t[j - 1];
      }
    }
  }

  function Insert(x: QualityRecord, s: seq<QualityRecord>): (r: seq<QualityRecord>)
    requires Sorted(s)
    ensures Sorted(r)
    ensures multiset(r) == multiset(s) + multiset{x}
  {
    if |s| == 0 then [x]
    else if KeyLe(x, s[0]) then
      assert forall j :: 0 <= j < |s| ==> KeyLe(x, s[j]) by {
        forall j | 0 <= j < |s|
          ensures KeyLe(x, s[j])
        {
          if j > 0 {
            KeyLeTransitive(x, s[0], s[j]);
          }
        }
      }
      PrependSorted(x, s);
      [x] + s
    else
      var t := Insert(x, s[1..]);
      assert forall j :: 0 <= j < |t| ==> KeyLe(s[0], t[j]) by {
        forall j | 0 <= j < |t|
          ensures KeyLe(s[0], t[j])
        {
          assert t[j] in multiset(t);
          if t[j] == x {
            KeyLeTotal(x, s[0]);
          } else {
            assert t[j] in multiset(s[1..]);
            var k :| 0 <= k < |s[1..]| && s[1..][k] == t[j];
            assert s[k + 1] == t[j];
          }
        }
      }
      PrependSorted(s[0], t);
      assert s == [s[0]] + s[1..];
      [s[0]] + t
  }

  /** `df.sort_values(by=['city', 'year', 'month'])`: a sorted permutation of the
      records. Records with equal keys keep their input order. */
  function SortRecords(s: seq<QualityRecord>): (r: seq<QualityRecord>)
    ensures Sorted(r)
    ensures multiset(r) == multiset(s)
  {
    if |s| == 0 then []
    else
      assert s == [s[0]] + s[1..];
      Insert(s[0], SortRecords(s[1..]))
  }

  predicate HasKey(r: QualityRecord, city: string, year: int, month: int)
  {
    r.city == city && r.year == year && r.month == month
  }

  /** The records of `s` with key `(city, year, month)`, in the order of `s`. */
  function KeyRecords(s: seq<QualityRecord>, city: string, year: int, month: int): seq<QualityRecord>
  {
    if |s| == 0 then []
    else (if HasKey(s[0], city, year, month) then [s[0]] else []) + KeyRecords(s[1..], city, year, month)
  }

  /** `Insert` puts `x` ahead of every record with the same key. */
  lemma {:induction false} InsertKeyRecords(x: QualityRecord, s: seq<QualityRecord>, city: string, year: int, month: int)
    requires Sorted(s)
    ensures KeyRecords(Insert(x, s), city, year, month)
      == (if HasKey(x, city, year, month) then [x] else []) + KeyRecords(s, city, year, month)
  {
    var own := if HasKey(x, city, year, month) then [x] else [];
    if |s| == 0 {
      assert Insert(x, s) == [x];
      assert [x][1..] == [];
    } else if KeyLe(x, s[0]) {
      assert Insert(x, s) == [x] + s;
      assert ([x] + s)[1..] == s;
    } else {
      var t := Insert(x, s[1..]);
      assert Insert(x, s) == [s[0]] + t;
      assert ([s[0]] + t)[1..] == t;
      InsertKeyRecords(x, s[1..], city, year, month);
      // `x` and `s[0]` cannot share a key, or `x` would have gone first.
      assert !(HasKey(x, city, year, month) && HasKey(s[0], city, year, month));
    }
  }

  /** The sort is stable: for every key, the records with that key come out
      in their input order. */
  lemma {:induction false} SortStable(s: seq<QualityRecord>, city: string, year: int, month: int)
    ensures KeyRecords(SortRecords(s), city, year, month) == KeyRecords(s, city, year, month)
  {
    if |s| > 0 {
      SortStable(s[1..], city, year, month);
      InsertKeyRecords(s[0], SortRecords(s[1..]), city, year, month);
    }
  }

  /** The last record of `s` with its key is the one at position `k` when no
      later record shares that key. */
  lemma {:induction false} KeyRecordsLast(s: seq<QualityRecord>, k: int)
    requires 0 <= k < |s|
    requires forall k' :: k < k' < |s| ==> !HasKey(s[k'], s[k].city, s[k].year, s[k].month)
    ensures var ks := KeyRecords(s, s[k].city, s[k].year, s[k].month);
      |ks| > 0 && ks[|ks| - 1] == s[k]
  {
    var x := s[k];
    if k == 0 {
      KeyRecordsNone(s[1..], x.city, x.year, x.month);
    } else {
      assert forall k' :: k - 1 < k' < |s[1..]| ==> s[1..][k'] == s[k' + 1];
      KeyRecordsLast(s[1..], k - 1);
    }
  }

  lemma {:induction false} KeyRecordsNone(s: seq<QualityRecord>, city: string, year: int, month: int)
    requires forall k :: 0 <= k < |s| ==> !HasKey(s[k], city, year, month)
    ensures KeyRecords(s, city, year, month) == []
  {
    if |s| > 0 {
      assert forall k :: 0 <= k < |s[1..]| ==> s[1..][k] == s[k + 1];
      KeyRecordsNone(s[1..], city, year, month);
    }
  }

  /** Sorting neither adds nor drops a record. */
  lemma SortKeepsRecords(s: seq<QualityRecord>)
    ensures forall r :: r in SortRecords(s) <==> r in s
  {
    var sorted := SortRecords(s);
    forall r
      ensures r in sorted <==> r in s
    {
      assert r in sorted <==> r in multiset(sorted);
      assert r in s <==> r in multiset(s);
    }
  }

  /** `df['city'].unique()`: each city once, in order of first appearance. */
  function Cities(s: seq<QualityRecord>): (cs: seq<string>)
    ensures forall i, j :: 0 <= i < j < |cs| ==> cs[i] != cs[j]
    ensures forall c :: c in cs <==> exists i :: 0 <= i < |s| && s[i].city == c
  {
    if |s| == 0 then []
    else
      var prev := Cities(s[..|s| - 1]);
      assert forall i :: 0 <= i < |s| - 1 ==> s[..|s| - 1][i] == s[i];
      if s[|s| - 1].city in prev then prev else prev + [s[|s| - 1].city]
  }

  ghost predicate StrictlyAscending(cs: seq<string>)
  {
    forall i, j :: 0 <= i < j < |cs| ==> StringOrder.Less(cs[i], cs[j])
  }

  /** On records sorted by key, `unique()` lists the cities in strictly ascending order. */
  lemma {:induction false} CitiesAscending(s: seq<QualityRecord>)
    requires Sorted(s)
    ensures StrictlyAscending(Cities(s))
  {
    if |s| > 0 {
      var init := s[..|s| - 1];
      var x := s[|s| - 1];
      assert Sorted(init) by {
        forall i, j | 0 <= i < j < |init|
          ensures KeyLe(init[i], init[j])
        {
          assert init[i] == s[i] && init[j] == s[j];
        }
      }
      CitiesAscending(init);
      var prev := Cities(init);
      if x.city !in prev {
        assert Cities(s) == prev + [x.city];
        forall i | 0 <= i < |prev|
          ensures StringOrder.Less(prev[i], x.city)
        {
          assert prev[i] in prev;
          var k :| 0 <= k < |init| && init[k].city == prev[i];
          assert init[k] == s[k];
          assert KeyLe(s[k], x);
        }
        var cs := prev + [x.city];
        forall i, j | 0 <= i < j < |cs|
          ensures StringOrder.Less(cs[i], cs[j])
        {
          assert cs[i] == prev[i];
          if j < |prev| {
            assert cs[j] == prev[j];
          } else {
            assert cs[j] == x.city;
          }
        }
      } else {
        assert Cities(s) == prev;
      }
    }
  }
}
