/** The population records the page works on, and the zone filter shared by the
    chart (prepareChartData) and the download button. */
module Records {
  import opened Options

  /** One retained row of population_monde.csv. The source calls the year field
      `annee`; the population is a parsed float, kept abstract as P. */
  datatype Record<P> = Record(zone: string, year: int, population: P)

  /** `selectedZone ? ... : ...`: null and the empty string are falsy in
      JavaScript, so neither of them selects a zone. */
  predicate IsSelected(selected: Option<string>): (b: bool)
    ensures b <==> selected != None && selected != Some("")
  {
    selected.Some? && selected.value != ""
  }

  /** recs.filter(item => item.zone === zone). */
  function KeepZone<P>(recs: seq<Record<P>>, zone: string): (r: seq<Record<P>>)
    ensures |r| <= |recs|
    ensures forall i :: 0 <= i < |r| ==> r[i].zone == zone && r[i] in recs
    ensures forall i :: 0 <= i < |recs| && recs[i].zone == zone ==> recs[i] in r
  {
    if recs == [] then []
    else (if recs[0].zone == zone then [recs[0]] else []) + KeepZone(recs[1..], zone)
  }

  /** The records a selection keeps: those of the selected zone, or all of them
      when nothing is selected. */
  function FilterByZone<P>(recs: seq<Record<P>>, selected: Option<string>): (r: seq<Record<P>>)
    ensures !IsSelected(selected) ==> r == recs
    ensures IsSelected(selected) ==>
              && (forall i :: 0 <= i < |r| ==> r[i].zone == selected.value && r[i] in recs)
              && (forall i :: 0 <= i < |recs| && recs[i].zone == selected.value ==> recs[i] in r)
  {
    if IsSelected(selected) then KeepZone(recs, selected.value) else recs
  }

  /** Filtering keeps the original order: it distributes over concatenation. */
  lemma {:induction false} KeepZoneAppend<P>(a: seq<Record<P>>, b: seq<Record<P>>, zone: string)
    ensures KeepZone(a + b, zone) == KeepZone(a, zone) + KeepZone(b, zone)
  {
    if a != [] {
      assert (a + b)[1..] == a[1..] + b;
      KeepZoneAppend(a[1..], b, zone);
    } else {
      assert a + b == b;
    }
  }

  /** The filter keeps the original order and, record by record, keeps exactly
      those of the selected zone. */
  lemma FilterByZoneOrder<P>(a: seq<Record<P>>, b: seq<Record<P>>, selected: Option<string>)
    ensures FilterByZone(a + b, selected) == FilterByZone(a, selected) + FilterByZone(b, selected)
  {
    if IsSelected(selected) {
      KeepZoneAppend(a, b, selected.value);
    }
  }
}
