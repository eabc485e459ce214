# World population chart: data core

A model of the data handling of the population page's script (`script.js`):

- **loading** (`loadCSVData`): the text of `population_monde.csv` is split into
  lines, the header line is dropped, each line is split on commas into zone,
  year and population, the zone is trimmed, the year read with `parseInt` and the
  population with `parseFloat`, and only lines where both numbers parse are kept;
- **chart data** (`prepareChartData`): a strictly ascending axis of the distinct
  years of all records, one series per zone (the selected zone alone, or every
  distinct zone in order of first appearance), each point being the population
  of the first record for that zone and year, or 0 when there is none;
- **zone list** (`generateZoneDropdown`): the distinct zones in order of first
  appearance;
- **download** (`addDownloadButton`): the records of the selected zone (all of
  them when the dropdown shows "all zones") written back as a header line and one
  `zone,year,population` line per record.

Modules:

| file | module | contents |
|---|---|---|
| `options.dfy` | `Options` | `Option`, the result of a parse that may give NaN |
| `js_text.dfy` | `JsText` | `split`/`join` on one character, `trim`/`trimStart` with ECMAScript whitespace |
| `js_number.dfy` | `JsNumber` | `parseInt` without radix (leading whitespace, sign, `0x` prefix, longest digit run) and the decimal text of an integer |
| `records.dfy` | `Records` | the record, JavaScript truthiness of the selected zone, the zone filter |
| `loader.dfy` | `Loader` | line and file parsing |
| `series_builder.dfy` | `SeriesBuilder` | year axis, distinct zones, `find`, the chart data |
| `exporter.dfy` | `Exporter` | the download text and its round trip through the loader |

The population is a number produced by `parseFloat` and printed by a template
literal. Floating point is not modelled: the population is a type parameter
`P`, `parseFloat` is a parameter `parsePopulation: string -> Option<P>` (None
standing for NaN), the template literal is a parameter `renderPopulation`, and
the literal `0` of an empty chart point is a parameter `zero`. The year is an
integer and is modelled concretely, both `parseInt` and its printing.

A line with fewer than three fields destructures to `undefined`, which
`parseInt`/`parseFloat` read as the text `"undefined"`; the model gives such a
field that text (`Loader.Field`). A line without a comma has no year, `parseInt`
makes it NaN and the line is dropped whatever `parsePopulation` does. A line
with exactly one comma has a year but no population; it is dropped because
`parseFloat` makes the text `"undefined"` NaN, so the model drops it when
`parsePopulation` returns None for that text (`Loader.ParseRowShort`).

The year axis of the chart is computed from all records, not only from the
records of the selected zone (`script.js:18`), so a chart of one zone spans every
year of the file and shows 0 for years that zone lacks.

## Model

| member | source | states |
|---|---|---|
| JsText.SplitOn | script.js:6 | `split` on one character gives one piece more than there are separators, and no piece holds the separator |
| JsText.SplitOnFirst | script.js:6 | the text before the first separator is the first piece, the rest splits independently (the header line is dropped whatever it holds) |
| JsText.SplitOnNone | script.js:8 | a string without the separator splits into itself alone |
| JsText.SplitOnKeepsOut | script.js:6-8 | splitting only cuts: a character absent from the text is absent from every piece |
| JsText.SplitJoin | script.js:124-125 | `split` undoes `join` when no part holds the separator |
| JsText.JoinWith | script.js:125 | `join` of parts that do not hold the separator puts exactly one separator between each two of them |
| JsText.JoinSplit | script.js:6 | `join` undoes `split` for every string |
| JsText.TrimStart | script.js:9 | `trimStart` removes exactly a whitespace prefix and leaves a string that does not start with whitespace |
| JsText.Trim | script.js:9 | `trim` returns an infix of the input, surrounded only by whitespace in it, that neither starts nor ends with whitespace |
| JsText.TrimKeepsOut | script.js:9 | `trim` only removes characters: a character absent from the input is absent from the result |
| JsText.TrimFixpoint | script.js:9 | `trim` leaves a string unchanged exactly when neither end is whitespace |
| JsNumber.DigitPrefix | script.js:9 | `parseInt` reads the longest prefix of digits of the radix |
| JsNumber.ParseMagnitude | script.js:9 | an unsigned `parseInt` succeeds only on text starting with a decimal digit |
| JsNumber.ParseSigned | script.js:9 | a signed `parseInt` succeeds only when the text holds a digit |
| JsNumber.ParseInt | script.js:9 | `parseInt` is NaN on any text without a decimal digit |
| JsNumber.DecimalDigits | script.js:125 | the decimal numeral is non-empty, all digits, and has no leading zero |
| JsNumber.RenderInt | script.js:125 | the text of an integer is non-empty, made of digits and a minus sign that appears exactly for negative numbers |
| JsNumber.DecimalDigitsValue | script.js:125 | the value of the decimal numeral of n is n |
| JsNumber.DigitPrefixStops | script.js:9 | a digit run followed by a non-digit is exactly what `parseInt` reads |
| JsNumber.MagnitudeDecimal | script.js:9 | the numeral of m followed by text that does not continue it reads as m |
| JsNumber.ParseSignedDecimal | script.js:9 | the signed text of n followed by text that does not continue it reads as n |
| JsNumber.TrimStartSkips | script.js:9 | `parseInt` skips exactly the leading whitespace |
| JsNumber.ParseIntDecimal | script.js:9 | `parseInt` reads n back from its text behind whitespace and before any text that does not continue the numeral |
| JsNumber.ParseRenderInt | script.js:9 | `parseInt` reads back the year the download wrote with a template literal |
| Records.IsSelected | script.js:19-20 | a selected zone is truthy: neither null nor the empty string |
| Records.KeepZone | script.js:19 | the zone filter keeps records of that zone only, and every record of that zone |
| Records.FilterByZone | script.js:19 | with no zone selected (null or the empty string) every record is kept, otherwise exactly the records of the selected zone |
| Records.KeepZoneAppend | script.js:120-122 | the zone filter keeps the records' order: it distributes over concatenation |
| Records.FilterByZoneOrder | script.js:120-122 | the download's filter keeps the records' order |
| Loader.Field | script.js:8 | a field inside the line is that piece; a field past the end is undefined, whose text holds no digit |
| Loader.ParseRow | script.js:8-10 | a line gives a record exactly when both its year and its population parse; the zone is the trimmed first field, holds no comma and is trimmed |
| Loader.ParseRowWithoutComma | script.js:8-10 | a line without a comma (a blank last line, say) is dropped |
| Loader.ParseRowShort | script.js:8-10 | a line with fewer than three fields is dropped when the population parser reads "undefined" as NaN, as `parseFloat` does |
| Loader.UndefinedIsNaN | script.js:8-9 | `parseInt` of a missing field is NaN |
| Loader.RowParser | script.js:7-9 | the callback of `map` turns each line into what `Loader.ParseRow` gives for it |
| Loader.ParseRows | script.js:7-10 | parsing the lines never yields more records than lines |
| Loader.ParsedFromRow | script.js:7-10 | every loaded record is what some line parses to |
| Loader.ParseRowsAppend | script.js:7-10 | records keep the order of their lines: parsing distributes over concatenation |
| Loader.LoadCsv | script.js:6-10 | a file gives at most as many records as it has line breaks |
| Loader.LoadCsvDropsHeader | script.js:6 | the first line never becomes a record, whatever it holds |
| SeriesBuilder.InsertYear | script.js:18 | adding a year to a strictly ascending axis keeps it strictly ascending, with that year added |
| SeriesBuilder.SortedDistinct | script.js:18 | the year axis is strictly ascending and holds exactly the years of the records |
| SeriesBuilder.StrictlyIncreasingUnique | script.js:18 | only one strictly ascending sequence holds a given set of years, so the axis does not depend on how it is built |
| SeriesBuilder.FirstIndexUnique | script.js:20 | an occurrence with none before it is the first |
| SeriesBuilder.FirstIndexOfPrefix | script.js:20 | appending does not move the first occurrence of anything already present |
| SeriesBuilder.Distinct | script.js:97 | a `Set` built from a list and spread back holds each value of the list exactly once, in order of first occurrence |
| SeriesBuilder.DistinctZones | script.js:97 | the zone list holds exactly the zones of the records, each once |
| SeriesBuilder.Find | script.js:24 | `find` returns the first record of the zone and year, or nothing when no record matches |
| SeriesBuilder.PointValue | script.js:24-25 | a chart point is the population of the first record of that zone and year, or 0 when there is none |
| SeriesBuilder.PrepareChartData | script.js:17-37 | the axis is the strictly ascending distinct years of all records; the series are the selected zone alone or the distinct zones (the dropdown's list) in order; every series has one point per year, the first matching record's population or 0 |
| SeriesBuilder.PointValueAppend | script.js:24-25 | the first match wins: records after it never change a point |
| SeriesBuilder.PointValueKeepZone | script.js:19-25 | looking a zone up among its own records gives what looking it up among all records gives |
| SeriesBuilder.SelectedSeries | script.js:19-25 | with a zone selected, the single series reads that zone's first record per year in the whole file |
| SeriesBuilder.FirstRecordPlotted | script.js:17-37 | every record that is the first for its zone and year, and is not filtered out, appears on the chart at its zone's series and its year |
| SeriesBuilder.YearPosition | script.js:18 | the year of every record has a place on the axis |
| SeriesBuilder.ZonePosition | script.js:20 | with no selection every record's zone has a series |
| Exporter.SelectionOf | script.js:119 | the dropdown's empty "all zones" value selects nothing, any other value selects itself |
| Exporter.RenderRecord | script.js:125 | a written line starts with the zone and a comma and ends with a comma and the population text |
| Exporter.RenderRecordFields | script.js:125 | a written line splits on commas into the zone, the year's text and the population's text when neither zone nor population text holds a comma |
| Exporter.RenderRecords | script.js:125 | `map` writes one line per record, in order |
| Exporter.Serialise | script.js:124-125 | the download starts with the header line and a line break |
| Exporter.Export | script.js:119-125 | the download of a selection starts with the header line and a line break |
| Exporter.ExportLines | script.js:119-125 | split into lines, the download is the header and one line per kept record in order; with no record kept one empty line follows the header |
| Exporter.SerialisedLines | script.js:124-125 | split into lines, the serialised text is the header and one line per record; with no record one empty line follows the header |
| Exporter.KeptHaveNoLineBreaks | script.js:120-122 | the filter keeps records free of line breaks free of them |
| Exporter.RenderedLinesHaveNoBreak | script.js:125 | no written line holds a line break when no record's fields hold one |
| Exporter.RenderedLineHasNoBreak | script.js:125 | a record's line holds no line break when its zone and population text hold none |
| Exporter.ParseRenderedRecord | script.js:8-10 | loading a written line gives back its record when the zone is trimmed and holds no separator |
| Exporter.ParseRenderedRecords | script.js:7-10 | loading the written lines gives back the records in order |
| Exporter.ParseJoinedRecords | script.js:124-125 | loading the joined lines gives back the records; the empty line of an empty download is dropped |
| Exporter.KeptZonesExportable | script.js:120-122 | the filter keeps only records of the list, so their zones stay exportable |
| Exporter.ExportRoundTrip | script.js:119-125 | loading a download gives back exactly the records the selection kept, in order |
| Exporter.LoadedZonesExportable | script.js:6-10 | every loaded zone is trimmed and holds neither a comma nor a line break |
| Exporter.ParsedZoneExportable | script.js:8-9 | a loaded line's zone holds neither separator and is trimmed |
| Exporter.ReloadExport | script.js:119-125 | downloading everything that was loaded and loading the download again gives the same records |

## Left out

- Fetching `population_monde.csv` and the `async`/`await` around it: the model starts from the file's text.
- `console.log` of the loaded records.
- Floating point: `parseFloat` and the printing of the population are parameters; the round-trip lemmas assume they read back what they print and print neither separator. That holds for every number other than NaN and -0: `${-0}` is "0", which reads back as +0 (equal to -0 under `===`, but a different number).
- Loader.ParseRowShort: a line with exactly one comma is dropped only on the assumption that `parsePopulation` reads the text "undefined" as None; for `parseFloat` this holds, for an arbitrary parameter it need not.
- JsNumber.ParseInt: reads integers of any size exactly; a JavaScript number loses precision beyond 2^53 and prints 10^21 and above in exponent form.
- JsNumber.RenderInt: the decimal text of an integer only; a year is always an integer, so the exponent form is not needed below 10^21.
- JavaScript strings are UTF-16 code units; the model works on code points, which agrees for every character the file holds outside surrogate pairs.
- The random `borderColor`, `fill` and `tension` of each series: styling with no effect on the data.
- `displayChart`: the Chart.js chart, its options, its tooltip and the global chart handle it destroys and replaces.
- The dropdown's DOM (its options and their text) and the change listener; the listener's `value || null` is `Exporter.SelectionOf`.
- The Blob, the object URL and the anchor click that deliver the download.
- The three calls that start the page.
