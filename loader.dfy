/** loadCSVData without the fetch: the text of population_monde.csv becomes the
    list of records whose year and population both parse. */
module Loader {
  import opened Options
  import opened JsText
  import opened JsNumber
  import opened Records

  /** Destructuring past the end of the split row yields undefined, which
      parseInt and parseFloat read as the text "undefined". */
  const Undefined: string := "undefined"

  function Field(fields: seq<string>, i: nat): (r: string)
    ensures i < |fields| ==> r == fields[i]
    ensures i >= |fields| ==> forall k :: 0 <= k < |r| ==> !IsDecimalDigit(r[k])
  {
    if i < |fields| then fields[i] else Undefined
  }

  /** One line of the file: split on commas, trim the zone, parse the year with
      parseInt and the population with parsePopulation (parseFloat); the line is
      kept only when neither parse is NaN. Fields past the third are ignored. */
  function ParseRow<P>(row: string, parsePopulation: string -> Option<P>): (r: Option<Record<P>>)
    ensures var fields := SplitOn(row, ',');
            && (r.Some? <==> ParseInt(Field(fields, 1)).Some? && parsePopulation(Field(fields, 2)).Some?)
            && (r.Some? ==>
                  && r.value.zone == Trim(fields[0])
                  && Some(r.value.year) == ParseInt(Field(fields, 1))
                  && Some(r.value.population) == parsePopulation(Field(fields, 2)))
    ensures r.Some? ==> IsTrimmed(r.value.zone) && ',' !in r.value.zone
  {
    var fields := SplitOn(row, ',');
    var year := ParseInt(Field(fields, 1));
    var population := parsePopulation(Field(fields, 2));
    if year.Some? && population.Some? then
      TrimKeepsOut(fields[0], ',');
      Some(Record(Trim(fields[0]), year.value, population.value))
    else None
  }

  /** A line without a comma (a blank line, say) has no year field and is dropped. */
  lemma ParseRowWithoutComma<P>(row: string, parsePopulation: string -> Option<P>)
    requires ',' !in row
    ensures ParseRow(row, parsePopulation) == None
  {
    SplitOnNone(row, ',');
    assert Field(SplitOn(row, ','), 1) == Undefined;
    UndefinedIsNaN();
  }

  /** A line with fewer than three fields has no population field; parseFloat
      reads undefined as NaN, so such a line is dropped. */
  lemma ParseRowShort<P>(row: string, parsePopulation: string -> Option<P>)
    requires Count(row, ',') < 2
    requires parsePopulation(Undefined) == None
    ensures ParseRow(row, parsePopulation) == None
  {
    assert Field(SplitOn(row, ','), 2) == Undefined;
  }

  /** parseInt(undefined) is NaN: the text "undefined" holds no digit. */
  lemma UndefinedIsNaN()
    ensures ParseInt(Undefined) == None
  {
    assert forall i :: 0 <= i < |Undefined| ==> !IsDecimalDigit(Undefined[i]);
  }

  /** The callback of `rows.map`: one line to its record, or to nothing when a
      number is NaN. */
  function RowParser<P>(parsePopulation: string -> Option<P>): (f: string -> Option<Record<P>>)
    ensures forall row :: f(row) == ParseRow(row, parsePopulation)
  {
    row => ParseRow(row, parsePopulation)
  }

  /** rows.map(parseRow).filter(both numbers): the records of the lines that
      parse, in line order. */
  function ParseRows<P>(rows: seq<string>, parseRow: string -> Option<Record<P>>): (r: seq<Record<P>>)
    ensures |r| <= |rows|
  {
    if rows == [] then []
    else
      var rest := ParseRows(rows[1..], parseRow);
      match parseRow(rows[0])
      case Some(record) => [record] + rest
      case None => rest
  }

  /** Every loaded record is what some line of the file parses to. */
  lemma {:induction false} ParsedFromRow<P>(rows: seq<string>, parseRow: string -> Option<Record<P>>, i: nat)
    requires i < |ParseRows(rows, parseRow)|
    ensures exists j :: 0 <= j < |rows| && parseRow(rows[j]) == Some(ParseRows(rows, parseRow)[i])
  {
    var rest := ParseRows(rows[1..], parseRow);
    var k := i;
    if parseRow(rows[0]).Some? {
      if i == 0 {
        assert parseRow(rows[0]) == Some(ParseRows(rows, parseRow)[0]);
        return;
      }
      k := i - 1;
    }
    ParsedFromRow(rows[1..], parseRow, k);
    var j :| 0 <= j < |rows[1..]| && parseRow(rows[1..][j]) == Some(rest[k]);
    assert parseRow(rows[j + 1]) == Some(ParseRows(rows, parseRow)[i]);
  }

  /** Kept rows stay in line order: parsing distributes over concatenation. */
  lemma {:induction false} ParseRowsAppend<P>(a: seq<string>, b: seq<string>, parseRow: string -> Option<Record<P>>)
    ensures ParseRows(a + b, parseRow) == ParseRows(a, parseRow) + ParseRows(b, parseRow)
  {
    if a != [] {
      assert (a + b)[0] == a[0];
      assert (a + b)[1..] == a[1..] + b;
      ParseRowsAppend(a[1..], b, parseRow);
      var before := ParseRows(a[1..], parseRow);
      var after := ParseRows(b, parseRow);
      match parseRow(a[0])
      case Some(record) =>
        assert ParseRows(a + b, parseRow) == [record] + (before + after);
      case None =>
    } else {
      assert a + b == b;
    }
  }

  /** The whole file: split into lines, drop the first (the header), parse the rest. */
  function LoadCsv<P>(text: string, parsePopulation: string -> Option<P>): (r: seq<Record<P>>)
    ensures |r| <= Count(text, '\n')
  {
    ParseRows(SplitOn(text, '\n')[1..], RowParser(parsePopulation))
  }

  /** Whatever the first line holds, it never becomes a record. */
  lemma LoadCsvDropsHeader<P>(header: string, body: string, parsePopulation: string -> Option<P>)
    requires '\n' !in header
    ensures LoadCsv(header + "\n" + body, parsePopulation) == ParseRows(SplitOn(body, '\n'), RowParser(parsePopulation))
  {
    SplitOnFirst(header, '\n', body);
  }
}
