/** prepareChartData: the records pivoted into one series per zone, aligned on a
    shared ascending year axis, plus the distinct-zone list of the zone dropdown. */
module SeriesBuilder {
  import opened Options
  import opened Records

  /** populationData.map(item => item.annee) */
  function Years<P>(recs: seq<Record<P>>): (r: seq<int>)
    ensures |r| == |recs| && forall k :: 0 <= k < |recs| ==> r[k] == recs[k].year
  {
    seq(|recs|, k requires 0 <= k < |recs| => recs[k].year)
  }

  /** populationData.map(item => item.zone) */
  function Zones<P>(recs: seq<Record<P>>): (r: seq<string>)
    ensures |r| == |recs| && forall k :: 0 <= k < |recs| ==> r[k] == recs[k].zone
  {
    seq(|recs|, k requires 0 <= k < |recs| => recs[k].zone)
  }

  predicate StrictlyIncreasing(s: seq<int>) {
    forall i, j :: 0 <= i < j < |s| ==> s[i] < s[j]
  }

  /** Adds y to a strictly increasing sequence, keeping it strictly increasing. */
  function InsertYear(axis: seq<int>, y: int): (r: seq<int>)
    requires StrictlyIncreasing(axis)
    ensures StrictlyIncreasing(r)
    ensures forall x :: x in r <==> x in axis || x == y
  {
    if axis == [] then [y]
    else if y < axis[0] then [y] + axis
    else if y == axis[0] then axis
    else
      var rest := InsertYear(axis[1..], y);
      assert forall x :: x in rest ==> axis[0] < x;
      [axis[0]] + rest
  }

  /** [...new Set(ys)].sort((a, b) => a - b): the distinct values of ys, ascending. */
  function SortedDistinct(ys: seq<int>): (r: seq<int>)
    ensures StrictlyIncreasing(r)
    ensures forall y :: y in r <==> y in ys
  {
    if ys == [] then [] else InsertYear(SortedDistinct(ys[1..]), ys[0])
  }

  /** Two strictly increasing sequences with the same elements are equal: the
      year axis is the sorted set of years, however it is built. */
  lemma {:induction false} StrictlyIncreasingUnique(a: seq<int>, b: seq<int>)
    requires StrictlyIncreasing(a) && StrictlyIncreasing(b)
    requires forall x :: x in a <==> x in b
    ensures a == b
  {
    if a != [] {
      assert a[0] in a;
    }
    if b != [] {
      assert b[0] in b;
    }
    if a != [] && b != [] {
      assert a[0] in b && b[0] in a;
      assert a[0] == b[0];
      forall x ensures x in a[1..] <==> x in b[1..] {
        if x in a[1..] {
          assert x in b && x != b[0];
        }
        if x in b[1..] {
          assert x in a && x != a[0];
        }
      }
      StrictlyIncreasingUnique(a[1..], b[1..]);
      assert a == [a[0]] + a[1..] && b == [b[0]] + b[1..];
    }
  }

  /** The position of the first occurrence of x in s. */
  function FirstIndex<T(==)>(s: seq<T>, x: T): (k: nat)
    requires x in s
    ensures k < |s| && s[k] == x && x !in s[..k]
  {
    if s[0] == x then 0 else 1 + FirstIndex(s[1..], x)
  }

  /** An occurrence with no earlier one is the first occurrence. */
  lemma FirstIndexUnique<T>(s: seq<T>, x: T, k: nat)
    requires k < |s| && s[k] == x && x !in s[..k]
    ensures FirstIndex(s, x) == k
  {
    var f := FirstIndex(s, x);
    assert forall m :: 0 <= m < k ==> s[..k][m] == s[m];
    assert forall m :: 0 <= m < f ==> s[..f][m] == s[m];
  }

  /** [...new Set(s)]: the distinct elements of s, each once, in the order of
      their first occurrence (a JavaScript Set iterates in insertion order). */
  function Distinct<T(==,!new)>(s: seq<T>): (r: seq<T>)
    ensures forall x :: x in r <==> x in s
    ensures forall i, j :: 0 <= i < j < |r| ==> r[i] != r[j]
    ensures forall i, j :: 0 <= i < j < |r| ==> FirstIndex(s, r[i]) < FirstIndex(s, r[j])
  {
    if s == [] then []
    else
      var init := s[..|s| - 1];
      var d := Distinct(init);
      var x := s[|s| - 1];
      assert s == init + [x];
      FirstIndexOfPrefix(init, x);
      if x in d then d
      else
        assert x !in init;
        FirstIndexUnique(s, x, |s| - 1);
        d + [x]
  }

  /** Appending an element does not move the first occurrence of anything
      already present. */
  lemma FirstIndexOfPrefix<T>(init: seq<T>, x: T)
    ensures forall y :: y in init ==> FirstIndex(init + [x], y) == FirstIndex(init, y)
  {
    forall y | y in init ensures FirstIndex(init + [x], y) == FirstIndex(init, y) {
      var k := FirstIndex(init, y);
      assert (init + [x])[..k] == init[..k];
      FirstIndexUnique(init + [x], y, k);
    }
  }

  /** The zones of the dropdown, and of the chart when no zone is selected. */
  function DistinctZones<P>(recs: seq<Record<P>>): (r: seq<string>)
    ensures forall z :: z in r <==> exists k :: 0 <= k < |recs| && recs[k].zone == z
    ensures forall i, j :: 0 <= i < j < |r| ==> r[i] != r[j]
  {
    var zones := Zones(recs);
    assert forall z :: z in zones <==> exists k :: 0 <= k < |recs| && recs[k].zone == z by {
      forall z ensures z in zones ==> exists k :: 0 <= k < |recs| && recs[k].zone == z {
        if z in zones {
          var k :| 0 <= k < |zones| && zones[k] == z;
        }
      }
    }
    Distinct(zones)
  }

  predicate IsEntry<P>(e: Record<P>, zone: string, year: int) {
    e.zone == zone && e.year == year
  }

  /** recs[k] is the first record for (zone, year). */
  predicate FirstEntryAt<P>(recs: seq<Record<P>>, zone: string, year: int, k: int) {
    && 0 <= k < |recs| && IsEntry(recs[k], zone, year)
    && forall m :: 0 <= m < k ==> !IsEntry(recs[m], zone, year)
  }

  /** No record is for (zone, year). */
  predicate NoEntry<P>(recs: seq<Record<P>>, zone: string, year: int) {
    forall m :: 0 <= m < |recs| ==> !IsEntry(recs[m], zone, year)
  }

  /** recs.find(item => item.zone === zone && item.annee === year), as the index
      of the record found. */
  function Find<P>(recs: seq<Record<P>>, zone: string, year: int): (k: Option<nat>)
    ensures k.Some? ==> FirstEntryAt(recs, zone, year, k.value)
    ensures k.None? ==> NoEntry(recs, zone, year)
  {
    if recs == [] then None
    else if IsEntry(recs[0], zone, year) then Some(0)
    else
      match Find(recs[1..], zone, year)
      case Some(k) => Some(k + 1)
      case None => None
  }

  /** One point of a series: `entry ? entry.population : 0`. */
  function PointValue<P>(recs: seq<Record<P>>, zone: string, year: int, zero: P): (v: P)
    ensures forall k :: FirstEntryAt(recs, zone, year, k) ==> v == recs[k].population
    ensures NoEntry(recs, zone, year) ==> v == zero
  {
    match Find(recs, zone, year)
    case Some(k) => recs[k].population
    case None => zero
  }

  /** One chart dataset, whose label is its zone; the random borderColor and the fixed styling are not modelled. */
  datatype Series<P> = Series(zone: string, data: seq<P>)

  /** What prepareChartData returns: { years, datasets }. */
  datatype ChartData<P> = ChartData(years: seq<int>, datasets: seq<Series<P>>)

  function Labels<P>(datasets: seq<Series<P>>): (r: seq<string>)
    ensures |r| == |datasets| && forall i :: 0 <= i < |datasets| ==> r[i] == datasets[i].zone
  {
    seq(|datasets|, i requires 0 <= i < |datasets| => datasets[i].zone)
  }

  /** prepareChartData(populationData, selectedZone). The year axis comes from
      the unfiltered records, so a single-zone chart still spans every year of
      the file. */
  function PrepareChartData<P>(recs: seq<Record<P>>, selected: Option<string>, zero: P): (r: ChartData<P>)
    ensures StrictlyIncreasing(r.years)
    ensures forall y :: y in r.years <==> y in Years(recs)
    ensures IsSelected(selected) ==> Labels(r.datasets) == [selected.value]
    ensures !IsSelected(selected) ==> Labels(r.datasets) == DistinctZones(recs)
    ensures forall i :: 0 <= i < |r.datasets| ==> |r.datasets[i].data| == |r.years|
    ensures forall i, j, k ::
              && 0 <= i < |r.datasets| && 0 <= j < |r.years|
              && FirstEntryAt(FilterByZone(recs, selected), r.datasets[i].zone, r.years[j], k)
              ==> r.datasets[i].data[j] == FilterByZone(recs, selected)[k].population
    ensures forall i, j ::
              && 0 <= i < |r.datasets| && 0 <= j < |r.years|
              && NoEntry(FilterByZone(recs, selected), r.datasets[i].zone, r.years[j])
              ==> r.datasets[i].data[j] == zero
  {
    var years := SortedDistinct(Years(recs));
    var filtered := FilterByZone(recs, selected);
    var zones := if IsSelected(selected) then [selected.value] else DistinctZones(filtered);
    var datasets := seq(|zones|, i requires 0 <= i < |zones| =>
      Series(zones[i], seq(|years|, j requires 0 <= j < |years| => PointValue(filtered, zones[i], years[j], zero))));
    ChartData(years, datasets)
  }

  /** First match wins: records after the first one for (zone, year) never
      change the point, and records before any match are passed over. */
  lemma PointValueAppend<P>(a: seq<Record<P>>, b: seq<Record<P>>, zone: string, year: int, zero: P)
    ensures PointValue(a + b, zone, year, zero)
         == if Find(a, zone, year).Some? then PointValue(a, zone, year, zero) else PointValue(b, zone, year, zero)
  {
    var ab := a + b;
    match Find(a, zone, year)
    case Some(k) =>
      assert FirstEntryAt(ab, zone, year, k);
    case None =>
      match Find(b, zone, year)
      case Some(k) =>
        assert FirstEntryAt(ab, zone, year, |a| + k) by {
          forall m | 0 <= m < |a| + k ensures !IsEntry(ab[m], zone, year) {
            if m >= |a| {
              assert ab[m] == b[m - |a|];
            }
          }
        }
      case None =>
        assert NoEntry(ab, zone, year) by {
          forall m | 0 <= m < |ab| ensures !IsEntry(ab[m], zone, year) {
            if m >= |a| {
              assert ab[m] == b[m - |a|];
            }
          }
        }
  }

  /** Looking a zone up among that zone's records finds what looking it up in
      all the records finds. */
  lemma {:induction false} PointValueKeepZone<P>(recs: seq<Record<P>>, zone: string, year: int, zero: P)
    ensures PointValue(KeepZone(recs, zone), zone, year, zero) == PointValue(recs, zone, year, zero)
  {
    if recs != [] {
      PointValueKeepZone(recs[1..], zone, year, zero);
      var head := if recs[0].zone == zone then [recs[0]] else [];
      PointValueAppend(head, KeepZone(recs[1..], zone), zone, year, zero);
      PointValueAppend([recs[0]], recs[1..], zone, year, zero);
      assert [recs[0]] + recs[1..] == recs;
    }
  }

  /** With a zone selected, its single series reads the first record of that
      zone and year in the whole file, and is 0 where there is none. */
  lemma SelectedSeries<P>(recs: seq<Record<P>>, zone: string, zero: P)
    requires zone != ""
    ensures var r := PrepareChartData(recs, Some(zone), zero);
            && |r.datasets| == 1 && r.datasets[0].zone == zone
            && forall j :: 0 <= j < |r.years| ==> r.datasets[0].data[j] == PointValue(recs, zone, r.years[j], zero)
  {
    var r := PrepareChartData(recs, Some(zone), zero);
    assert Labels(r.datasets) == [zone];
    forall j | 0 <= j < |r.years|
      ensures r.datasets[0].data[j] == PointValue(recs, zone, r.years[j], zero)
    {
      PointValueKeepZone(recs, zone, r.years[j], zero);
    }
  }

  /** Every record that is the first for its zone and year shows on the chart:
      its zone has a series, its year a place on the axis, and the point there is
      its population. */
  lemma FirstRecordPlotted<P>(recs: seq<Record<P>>, selected: Option<string>, zero: P, k: nat)
    requires k < |recs| && FirstEntryAt(recs, recs[k].zone, recs[k].year, k)
    requires !IsSelected(selected) || recs[k].zone == selected.value
    ensures var r := PrepareChartData(recs, selected, zero);
            exists i, j :: && 0 <= i < |r.datasets| && 0 <= j < |r.years|
                           && r.datasets[i].zone == recs[k].zone && r.years[j] == recs[k].year
                           && r.datasets[i].data[j] == recs[k].population
  {
    var r := PrepareChartData(recs, selected, zero);
    var e := recs[k];
    var j := YearPosition(recs, selected, zero, k);
    var i: nat;
    if IsSelected(selected) {
      i := 0;
      SelectedSeries(recs, e.zone, zero);
      assert r.datasets[0].data[j] == PointValue(recs, e.zone, e.year, zero);
    } else {
      i := ZonePosition(recs, selected, zero, k);
      assert FilterByZone(recs, selected) == recs;
      assert FirstEntryAt(FilterByZone(recs, selected), r.datasets[i].zone, r.years[j], k);
    }
    assert r.datasets[i].data[j] == e.population;
  }

  /** Where the year of recs[k] sits on the axis. */
  lemma YearPosition<P>(recs: seq<Record<P>>, selected: Option<string>, zero: P, k: nat) returns (j: nat)
    requires k < |recs|
    ensures var r := PrepareChartData(recs, selected, zero);
            j < |r.years| && r.years[j] == recs[k].year
  {
    var years := PrepareChartData(recs, selected, zero).years;
    assert recs[k].year in Years(recs);
    j :| 0 <= j < |years| && years[j] == recs[k].year;
  }

  /** Where the series of the zone of recs[k] sits when no zone is selected. */
  lemma ZonePosition<P>(recs: seq<Record<P>>, selected: Option<string>, zero: P, k: nat) returns (i: nat)
    requires k < |recs| && !IsSelected(selected)
    ensures var r := PrepareChartData(recs, selected, zero);
            i < |r.datasets| && r.datasets[i].zone == recs[k].zone
  {
    var labels := Labels(PrepareChartData(recs, selected, zero).datasets);
    var zones := Zones(recs);
    assert zones[k] == recs[k].zone;
    assert recs[k].zone in zones;
    assert labels == Distinct(zones);
    assert recs[k].zone in labels;
    i :| 0 <= i < |labels| && labels[i] == recs[k].zone;
  }
}
