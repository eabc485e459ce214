/** The download button's handler without the Blob and the anchor: the records of
    the selected zone written back as comma-separated text. */
module Exporter {
  import opened Options
  import opened JsText
  import opened JsNumber
  import opened Records
  import opened Loader

  /** The first line of population_data.csv (the source writes it followed by "\n"). */
  const HeaderLine: string := "Zone g\U{00E9}ographique,Ann\U{00E9}e,Population"

  /** `dropdown.value || null`: the "all zones" option has the empty value. */
  function SelectionOf(value: string): (r: Option<string>)
    ensures r.None? <==> value == ""
    ensures r.Some? ==> r.value == value && IsSelected(r)
  {
    if value == "" then None else Some(value)
  }

  /** `${item.zone},${item.annee},${item.population}`; the population's text is
      renderPopulation, no field is quoted or escaped. */
  function RenderRecord<P>(e: Record<P>, renderPopulation: P -> string): (r: string)
    ensures |r| > |e.zone| && r[..|e.zone| + 1] == e.zone + ","
    ensures var p := renderPopulation(e.population);
            |r| > |p| && r[|r| - |p| - 1..] == "," + p
  {
    e.zone + "," + RenderInt(e.year) + "," + renderPopulation(e.population)
  }

  /** A written line splits back into its three fields when neither the zone nor
      the population text holds a comma. */
  lemma RenderRecordFields<P>(e: Record<P>, renderPopulation: P -> string)
    requires ',' !in e.zone && ',' !in renderPopulation(e.population)
    ensures SplitOn(RenderRecord(e, renderPopulation), ',')
         == [e.zone, RenderInt(e.year), renderPopulation(e.population)]
  {
    RenderedFieldsSplit(e.zone, RenderInt(e.year), renderPopulation(e.population));
  }

  /** The three written fields split back apart when none holds a comma. */
  lemma RenderedFieldsSplit(zone: string, y: string, p: string)
    requires ',' !in zone && ',' !in p
    requires forall i :: 0 <= i < |y| ==> y[i] == '-' || IsDecimalDigit(y[i])
    ensures SplitOn(zone + "," + y + "," + p, ',') == [zone, y, p]
  {
    assert ',' !in y by {
      assert forall i :: 0 <= i < |y| ==> y[i] != ',';
    }
    assert zone + "," + y + "," + p == zone + [','] + (y + [','] + p);
    SplitOnFirst(zone, ',', y + [','] + p);
    SplitOnFirst(y, ',', p);
    SplitOnNone(p, ',');
  }

  function RenderRecords<P>(recs: seq<Record<P>>, renderPopulation: P -> string): (r: seq<string>)
    ensures |r| == |recs| && forall i :: 0 <= i < |recs| ==> r[i] == RenderRecord(recs[i], renderPopulation)
  {
    seq(|recs|, i requires 0 <= i < |recs| => RenderRecord(recs[i], renderPopulation))
  }

  /** csvContent: the header line, a line break, then the records' lines joined by line breaks. */
  function Serialise<P>(recs: seq<Record<P>>, renderPopulation: P -> string): (r: string)
    ensures |r| > |HeaderLine| && r[..|HeaderLine| + 1] == HeaderLine + "\n"
  {
    HeaderLine + "\n" + JoinWith(RenderRecords(recs, renderPopulation), '\n')
  }

  /** The click handler: filter by the dropdown's value, then serialise. */
  function Export<P>(recs: seq<Record<P>>, dropdownValue: string, renderPopulation: P -> string): (r: string)
    ensures |r| > |HeaderLine| && r[..|HeaderLine| + 1] == HeaderLine + "\n"
  {
    Serialise(FilterByZone(recs, SelectionOf(dropdownValue)), renderPopulation)
  }

  /** No record's zone or rendered population holds a line break. */
  predicate NoLineBreaks<P>(recs: seq<Record<P>>, renderPopulation: P -> string) {
    forall i :: 0 <= i < |recs| ==>
      '\n' !in recs[i].zone && '\n' !in renderPopulation(recs[i].population)
  }

  /** Split back into lines, the export is the header and then one line per kept
      record, in order; with no record kept a single empty line follows the header. */
  lemma ExportLines<P>(recs: seq<Record<P>>, dropdownValue: string, renderPopulation: P -> string)
    requires NoLineBreaks(recs, renderPopulation)
    ensures var kept := FilterByZone(recs, SelectionOf(dropdownValue));
            var lines := SplitOn(Export(recs, dropdownValue, renderPopulation), '\n');
            && lines[0] == HeaderLine
            && (kept == [] ==> lines[1..] == [""])
            && (kept != [] ==> lines[1..] == RenderRecords(kept, renderPopulation) && |lines| == |kept| + 1)
  {
    KeptHaveNoLineBreaks(recs, SelectionOf(dropdownValue), renderPopulation);
    SerialisedLines(FilterByZone(recs, SelectionOf(dropdownValue)), renderPopulation);
  }

  /** The serialised text splits into the header and one line per record. */
  lemma SerialisedLines<P>(recs: seq<Record<P>>, renderPopulation: P -> string)
    requires NoLineBreaks(recs, renderPopulation)
    ensures var lines := SplitOn(Serialise(recs, renderPopulation), '\n');
            && lines[0] == HeaderLine
            && (recs == [] ==> lines[1..] == [""])
            && (recs != [] ==> lines[1..] == RenderRecords(recs, renderPopulation) && |lines| == |recs| + 1)
  {
    var rendered := RenderRecords(recs, renderPopulation);
    var body := JoinWith(rendered, '\n');
    assert Serialise(recs, renderPopulation) == HeaderLine + ['\n'] + body;
    SplitOnFirst(HeaderLine, '\n', body);
    if recs != [] {
      RenderedLinesHaveNoBreak(recs, renderPopulation);
      SplitJoin(rendered, '\n');
    }
  }

  /** The filter keeps only records of the list, so it keeps their absence of line breaks. */
  lemma KeptHaveNoLineBreaks<P>(recs: seq<Record<P>>, selected: Option<string>, renderPopulation: P -> string)
    requires NoLineBreaks(recs, renderPopulation)
    ensures NoLineBreaks(FilterByZone(recs, selected), renderPopulation)
  {
    var kept := FilterByZone(recs, selected);
    forall i | 0 <= i < |kept|
      ensures '\n' !in kept[i].zone && '\n' !in renderPopulation(kept[i].population)
    {
      var k :| 0 <= k < |recs| && recs[k] == kept[i];
    }
  }

  /** No written line holds a line break when no record's fields hold one. */
  lemma RenderedLinesHaveNoBreak<P>(recs: seq<Record<P>>, renderPopulation: P -> string)
    requires NoLineBreaks(recs, renderPopulation)
    ensures forall i :: 0 <= i < |recs| ==> '\n' !in RenderRecords(recs, renderPopulation)[i]
  {
    forall i | 0 <= i < |recs| ensures '\n' !in RenderRecords(recs, renderPopulation)[i] {
      RenderedLineHasNoBreak(recs[i], renderPopulation);
    }
  }

  lemma RenderedLineHasNoBreak<P>(e: Record<P>, renderPopulation: P -> string)
    requires '\n' !in e.zone && '\n' !in renderPopulation(e.population)
    ensures '\n' !in RenderRecord(e, renderPopulation)
  {
    var y := RenderInt(e.year);
    assert '\n' !in y by {
      assert forall i :: 0 <= i < |y| ==> y[i] == '-' || IsDecimalDigit(y[i]);
    }
  }

  /** A zone the export writes so that loading reads it back unchanged. */
  predicate ExportableZone(zone: string) {
    ',' !in zone && '\n' !in zone && IsTrimmed(zone)
  }

  /** parsePopulation reads back what renderPopulation writes, and the text holds
      neither separator. (parseFloat and `${}` have this relation on every number
      that is not NaN.) */
  ghost predicate RoundTrips<P(!new)>(renderPopulation: P -> string, parsePopulation: string -> Option<P>) {
    forall p :: && parsePopulation(renderPopulation(p)) == Some(p)
                && ',' !in renderPopulation(p) && '\n' !in renderPopulation(p)
  }

  /** Loading a written line gives back its record. */
  lemma ParseRenderedRecord<P(!new)>(e: Record<P>, renderPopulation: P -> string, parsePopulation: string -> Option<P>)
    requires ExportableZone(e.zone) && RoundTrips(renderPopulation, parsePopulation)
    ensures ParseRow(RenderRecord(e, renderPopulation), parsePopulation) == Some(e)
  {
    var y := RenderInt(e.year);
    var p := renderPopulation(e.population);
    RenderRecordFields(e, renderPopulation);
    var fields := SplitOn(RenderRecord(e, renderPopulation), ',');
    assert fields == [e.zone, y, p];
    ParseRenderInt(e.year);
    TrimFixpoint(e.zone);
  }

  /** Loading the written lines gives back the records, in order. */
  lemma {:induction false} ParseRenderedRecords<P(!new)>(recs: seq<Record<P>>, renderPopulation: P -> string, parsePopulation: string -> Option<P>)
    requires forall i :: 0 <= i < |recs| ==> ExportableZone(recs[i].zone)
    requires RoundTrips(renderPopulation, parsePopulation)
    ensures ParseRows(RenderRecords(recs, renderPopulation), RowParser(parsePopulation)) == recs
  {
    if recs != [] {
      var lines := RenderRecords(recs, renderPopulation);
      assert lines[1..] == RenderRecords(recs[1..], renderPopulation);
      ParseRenderedRecord(recs[0], renderPopulation, parsePopulation);
      ParseRenderedRecords(recs[1..], renderPopulation, parsePopulation);
      assert [recs[0]] + recs[1..] == recs;
    }
  }

  /** Loading an export gives back exactly the records the selection kept, in
      their original order. */
  lemma ExportRoundTrip<P(!new)>(recs: seq<Record<P>>, dropdownValue: string,
                           renderPopulation: P -> string, parsePopulation: string -> Option<P>)
    requires forall i :: 0 <= i < |recs| ==> ExportableZone(recs[i].zone)
    requires RoundTrips(renderPopulation, parsePopulation)
    ensures LoadCsv(Export(recs, dropdownValue, renderPopulation), parsePopulation)
         == FilterByZone(recs, SelectionOf(dropdownValue))
  {
    var kept := FilterByZone(recs, SelectionOf(dropdownValue));
    KeptZonesExportable(recs, SelectionOf(dropdownValue));
    var body := JoinWith(RenderRecords(kept, renderPopulation), '\n');
    assert Export(recs, dropdownValue, renderPopulation) == HeaderLine + "\n" + body;
    LoadCsvDropsHeader(HeaderLine, body, parsePopulation);
    ParseJoinedRecords(kept, renderPopulation, parsePopulation);
  }

  /** The filter keeps only records of the list, so it keeps exportable zones. */
  lemma KeptZonesExportable<P>(recs: seq<Record<P>>, selected: Option<string>)
    requires forall i :: 0 <= i < |recs| ==> ExportableZone(recs[i].zone)
    ensures var kept := FilterByZone(recs, selected);
            forall i :: 0 <= i < |kept| ==> ExportableZone(kept[i].zone)
  {
    var kept := FilterByZone(recs, selected);
    forall i | 0 <= i < |kept| ensures ExportableZone(kept[i].zone) {
      var k :| 0 <= k < |recs| && recs[k] == kept[i];
    }
  }

  /** The records' lines joined by line breaks load back as the records; with no
      record the single empty line is dropped. */
  lemma ParseJoinedRecords<P(!new)>(recs: seq<Record<P>>, renderPopulation: P -> string, parsePopulation: string -> Option<P>)
    requires forall i :: 0 <= i < |recs| ==> ExportableZone(recs[i].zone)
    requires RoundTrips(renderPopulation, parsePopulation)
    ensures ParseRows(SplitOn(JoinWith(RenderRecords(recs, renderPopulation), '\n'), '\n'), RowParser(parsePopulation)) == recs
  {
    var rendered := RenderRecords(recs, renderPopulation);
    if recs == [] {
      ParseRowWithoutComma("", parsePopulation);
    } else {
      assert NoLineBreaks(recs, renderPopulation);
      RenderedLinesHaveNoBreak(recs, renderPopulation);
      SplitJoin(rendered, '\n');
      ParseRenderedRecords(recs, renderPopulation, parsePopulation);
    }
  }

  /** Exporting everything that was loaded and loading the result again gives
      the same records: loaded zones are trimmed and hold neither separator. */
  lemma ReloadExport<P(!new)>(text: string, renderPopulation: P -> string, parsePopulation: string -> Option<P>)
    requires RoundTrips(renderPopulation, parsePopulation)
    ensures var recs := LoadCsv(text, parsePopulation);
            LoadCsv(Export(recs, "", renderPopulation), parsePopulation) == recs
  {
    var recs := LoadCsv(text, parsePopulation);
    LoadedZonesExportable(text, parsePopulation);
    ExportRoundTrip(recs, "", renderPopulation, parsePopulation);
    assert FilterByZone(recs, SelectionOf("")) == recs;
  }

  /** Every zone a load yields is one the export writes back faithfully. */
  lemma LoadedZonesExportable<P>(text: string, parsePopulation: string -> Option<P>)
    ensures var recs := LoadCsv(text, parsePopulation);
            forall i :: 0 <= i < |recs| ==> ExportableZone(recs[i].zone)
  {
    var rows := SplitOn(text, '\n')[1..];
    var recs := ParseRows(rows, RowParser(parsePopulation));
    assert recs == LoadCsv(text, parsePopulation);
    forall i | 0 <= i < |recs| ensures ExportableZone(recs[i].zone) {
      ParsedFromRow(rows, RowParser(parsePopulation), i);
      var j :| 0 <= j < |rows| && ParseRow(rows[j], parsePopulation) == Some(recs[i]);
      assert rows[j] == SplitOn(text, '\n')[j + 1];
      ParsedZoneExportable(rows[j], parsePopulation);
    }
  }

  /** A row without a line break that loads gives a zone the export writes back faithfully. */
  lemma ParsedZoneExportable<P>(row: string, parsePopulation: string -> Option<P>)
    requires '\n' !in row
    ensures var r := ParseRow(row, parsePopulation);
            r.Some? ==> ExportableZone(r.value.zone)
  {
    var fields := SplitOn(row, ',');
    SplitOnKeepsOut(row, ',', '\n');
    TrimKeepsOut(fields[0], '\n');
  }
}
