/**
 * The whole store text: `saveToDisk` writes the header and one line per record,
 * `parseCsv` reads the records back (data/PatientRepository.kt). Decoding is lenient:
 * the first line is always dropped, blank lines are ignored, and a malformed line
 * is skipped instead of failing the whole text.
 */
module CsvDocument {
  import opened Wrappers
  import opened Text
  import opened CsvLine
  import opened Records
  import opened Seqs

  /** The header line: the ten column names, comma-separated. */
  const HEADER: string := "bil,zon,region," + "address,patients," + "latitude,longitude,"
                          + "contact_name," + "contact_phone,status"

  /** The number of columns a data line must have. */
  const COLUMNS: nat := 10

  // ---------------------------------------------------------------------------
  // Encoding
  // ---------------------------------------------------------------------------

  /** The cells of a record before quoting, in column order. */
  function Fields(fmt: CoordFormat, p: PatientLocation): (r: seq<string>)
    ensures |r| == COLUMNS
  {
    [ShowInt(p.bil), p.zon, p.region, p.address, ShowInt(p.patients),
     fmt.show(p.latitude), fmt.show(p.longitude), p.contactName, p.contactPhone, p.status]
  }

  /** The line written for one record (without its line break). */
  function RecordLine(fmt: CoordFormat, p: PatientLocation): string {
    JoinCells(Fields(fmt, p))
  }

  /** One line-break-terminated line per record, in list order. */
  function EncodeBody(fmt: CoordFormat, items: seq<PatientLocation>): string {
    if items == [] then []
    else RecordLine(fmt, items[0]) + ['\n'] + EncodeBody(fmt, items[1..])
  }

  /** The text `saveToDisk` writes: the header line, then the records. */
  function Encode(fmt: CoordFormat, items: seq<PatientLocation>): string {
    HEADER + ['\n'] + EncodeBody(fmt, items)
  }

  lemma {:induction false} EncodeBodySnoc(fmt: CoordFormat, items: seq<PatientLocation>, p: PatientLocation)
    ensures EncodeBody(fmt, items + [p]) == EncodeBody(fmt, items) + (RecordLine(fmt, p) + ['\n'])
    decreases |items|
  {
    if items == [] {
      assert items + [p] == [p];
      assert [p][1..] == [];
    } else {
      ConsAppend(items, [p]);
      EncodeBodySnoc(fmt, items[1..], p);
      AppendAssoc(RecordLine(fmt, items[0]) + ['\n'], EncodeBody(fmt, items[1..]), RecordLine(fmt, p) + ['\n']);
    }
  }

  /** Writing one more record appends its line to the text. */
  lemma EncodeSnoc(fmt: CoordFormat, items: seq<PatientLocation>, p: PatientLocation)
    ensures Encode(fmt, items + [p]) == Encode(fmt, items) + (RecordLine(fmt, p) + ['\n'])
  {
    EncodeBodySnoc(fmt, items, p);
    AppendAssoc(HEADER + ['\n'], EncodeBody(fmt, items), RecordLine(fmt, p) + ['\n']);
  }

  /** The `buildString` loop of `saveToDisk`: `appendLine(HEADER)`, then one `appendLine` per record. */
  method BuildCsv(fmt: CoordFormat, items: seq<PatientLocation>) returns (csv: string)
    ensures csv == Encode(fmt, items)
  {
    csv := HEADER + "\n";
    for i := 0 to |items|
      invariant csv == Encode(fmt, items[..i])
    {
      var line := RecordLine(fmt, items[i]) + "\n";
      TakeSnoc(items, i);
      EncodeSnoc(fmt, items[..i], items[i]);
      csv := csv + line;
    }
    TakeAll(items);
  }

  /** No cell of the record holds a line break or a carriage return. */
  predicate OneLine(fmt: CoordFormat, p: PatientLocation) {
    NoneContains(Fields(fmt, p), '\n') && NoneContains(Fields(fmt, p), '\r')
  }

  lemma HeaderOneLine()
    ensures OneLineText(HEADER)
  {
    var a, b, c := "bil,zon,region,", "address,patients,", "latitude,longitude,";
    var d, e := "contact_name,", "contact_phone,status";
    HeaderPieceA();
    HeaderPieceB();
    HeaderPieceC();
    HeaderPieceD();
    HeaderPieceE();
    OneLineAppend(a, b);
    OneLineAppend(a + b, c);
    OneLineAppend(a + b + c, d);
    OneLineAppend(a + b + c + d, e);
  }

  // The header's column names, split into five runs of text.
  lemma HeaderPieceA() ensures OneLineText("bil,zon,region,") { }
  lemma HeaderPieceB() ensures OneLineText("address,patients,") { }
  lemma HeaderPieceC() ensures OneLineText("latitude,longitude,") { }
  lemma HeaderPieceD() ensures OneLineText("contact_name,") { }
  lemma HeaderPieceE() ensures OneLineText("contact_phone,status") { }

  /** The written line of each record, in list order. */
  function RecordLines(fmt: CoordFormat, items: seq<PatientLocation>): (r: seq<string>)
    ensures |r| == |items|
    ensures forall i :: 0 <= i < |items| ==> r[i] == RecordLine(fmt, items[i])
  {
    if items == [] then [] else [RecordLine(fmt, items[0])] + RecordLines(fmt, items[1..])
  }

  lemma RecordLineOneLine(fmt: CoordFormat, p: PatientLocation)
    requires OneLine(fmt, p)
    ensures OneLineText(RecordLine(fmt, p))
  {
    JoinCellsKeeps(Fields(fmt, p), '\n');
    JoinCellsKeeps(Fields(fmt, p), '\r');
  }

  lemma {:induction false} EncodeBodyLayout(fmt: CoordFormat, items: seq<PatientLocation>)
    requires forall i :: 0 <= i < |items| ==> OneLine(fmt, items[i])
    ensures Lines(EncodeBody(fmt, items)) == RecordLines(fmt, items) + [[]]
    decreases |items|
  {
    if items != [] {
      EncodeBodyLayout(fmt, items[1..]);
      EncodeBodyLayoutStep(fmt, items);
    }
  }

  lemma EncodeBodyLayoutStep(fmt: CoordFormat, items: seq<PatientLocation>)
    requires items != [] && OneLine(fmt, items[0])
    requires Lines(EncodeBody(fmt, items[1..])) == RecordLines(fmt, items[1..]) + [[]]
    ensures Lines(EncodeBody(fmt, items)) == RecordLines(fmt, items) + [[]]
  {
    var line := RecordLine(fmt, items[0]);
    RecordLineOneLine(fmt, items[0]);
    LinesCons(line, EncodeBody(fmt, items[1..]));
    assert RecordLines(fmt, items) == [line] + RecordLines(fmt, items[1..]);
    AppendAssoc([line], RecordLines(fmt, items[1..]), [[]]);
  }

  /**
   * Layout of the written text: the header, then exactly one line per record in
   * list order, then the empty piece after the final line break, provided no cell
   * holds a line break or a carriage return.
   */
  lemma EncodeLayout(fmt: CoordFormat, items: seq<PatientLocation>)
    requires forall i :: 0 <= i < |items| ==> OneLine(fmt, items[i])
    ensures Lines(Encode(fmt, items)) == [HEADER] + RecordLines(fmt, items) + [[]]
  {
    HeaderOneLine();
    var body := EncodeBody(fmt, items);
    assert Encode(fmt, items) == HEADER + ['\n'] + body;
    LinesCons(HEADER, body);
    EncodeBodyLayout(fmt, items);
    AppendAssoc([HEADER], RecordLines(fmt, items), [[]]);
  }

  /** A cell that survives both the line split and the splitter: trimmed, and free of break characters. */
  predicate PlainCell(s: string) {
    OneLineText(s) && IsTrimmed(s)
  }

  /** Splitting a record's line gives its fields back, in column order. */
  lemma RecordLineFields(fmt: CoordFormat, p: PatientLocation)
    requires forall j :: 0 <= j < COLUMNS ==> IsTrimmed(Fields(fmt, p)[j])
    ensures ParseLine(RecordLine(fmt, p)) == Fields(fmt, p)
  {
    ParseJoinCells(Fields(fmt, p));
  }

  // ---------------------------------------------------------------------------
  // Decoding
  // ---------------------------------------------------------------------------

  /**
   * The `mapNotNull` step: fewer than ten cells, a non-integer `bil` or an
   * unreadable coordinate drop the line; a non-integer `patients` reads as 0.
   */
  function ParseRecord(fmt: CoordFormat, line: string): Option<PatientLocation> {
    var columns := ParseLine(line);
    if |columns| < COLUMNS then None
    else match ParseInt(columns[0])
      case None => None
      case Some(bil) =>
        var patients := ParseInt(columns[4]).GetOr(0);
        match fmt.parse(columns[5])
        case None => None
        case Some(latitude) =>
          match fmt.parse(columns[6])
          case None => None
          case Some(longitude) =>
            Some(PatientLocation(bil, columns[1], columns[2], columns[3], patients,
                                 latitude, longitude, columns[7], columns[8], columns[9]))
  }

  /** The record a line contributes: none for a blank or malformed line. */
  function DecodeLine(fmt: CoordFormat, line: string): seq<PatientLocation> {
    if IsBlank(line) then []
    else match ParseRecord(fmt, line)
      case None => []
      case Some(p) => [p]
  }

  /** The records of the data lines, in line order. */
  function DecodeLines(fmt: CoordFormat, lines: seq<string>): (r: seq<PatientLocation>)
    ensures |r| <= |lines|
  {
    if lines == [] then [] else DecodeLine(fmt, lines[0]) + DecodeLines(fmt, lines[1..])
  }

  /** `parseCsv`: every line but the first, decoded. There are fewer records than lines. */
  function Decode(fmt: CoordFormat, text: string): (r: seq<PatientLocation>)
    ensures |r| < |Lines(text)|
  {
    DecodeLines(fmt, Lines(text)[1..])
  }

  /** How a decoded record relates to the cells of its line. */
  predicate ReadFrom(fmt: CoordFormat, cells: seq<string>, p: PatientLocation)
    requires |cells| >= COLUMNS
  {
    ParseInt(cells[0]) == Some(p.bil)
    && p.zon == cells[1] && p.region == cells[2] && p.address == cells[3]
    && p.patients == ParseInt(cells[4]).GetOr(0)
    && fmt.parse(cells[5]) == Some(p.latitude) && fmt.parse(cells[6]) == Some(p.longitude)
    && p.contactName == cells[7] && p.contactPhone == cells[8] && p.status == cells[9]
  }

  /**
   * The decoding rules for one line: it is dropped exactly when it is blank, has
   * fewer than ten cells (more are accepted), or its `bil`, latitude or longitude
   * cell does not parse; otherwise it yields one record read from its cells, with
   * `patients` 0 when that cell is not an integer.
   */
  lemma DecodeLineRules(fmt: CoordFormat, line: string)
    ensures |DecodeLine(fmt, line)| <= 1
    ensures DecodeLine(fmt, line) == [] <==>
      var cells := ParseLine(line);
      IsBlank(line) || |cells| < COLUMNS || ParseInt(cells[0]).None?
      || fmt.parse(cells[5]).None? || fmt.parse(cells[6]).None?
    ensures DecodeLine(fmt, line) != [] ==>
      |ParseLine(line)| >= COLUMNS && ReadFrom(fmt, ParseLine(line), DecodeLine(fmt, line)[0])
  {
  }

  /** Lines decode independently, and the surviving records keep the order of their lines. */
  lemma {:induction false} DecodeLinesAppend(fmt: CoordFormat, a: seq<string>, b: seq<string>)
    ensures DecodeLines(fmt, a + b) == DecodeLines(fmt, a) + DecodeLines(fmt, b)
    decreases |a|
  {
    if a == [] {
      assert a + b == b;
    } else {
      ConsAppend(a, b);
      DecodeLinesAppend(fmt, a[1..], b);
      AppendAssoc(DecodeLine(fmt, a[0]), DecodeLines(fmt, a[1..]), DecodeLines(fmt, b));
    }
  }

  /** The first line is dropped whatever it holds. */
  lemma HeaderDropped(fmt: CoordFormat, header: string, body: string)
    requires OneLineText(header)
    ensures Decode(fmt, header + ['\n'] + body) == DecodeLines(fmt, Lines(body))
  {
    LinesCons(header, body);
  }

  /** A text of a single line holds no records. */
  lemma SingleLineEmpty(fmt: CoordFormat, text: string)
    requires OneLineText(text)
    ensures Decode(fmt, text) == []
  {
    LinesSingle(text);
  }

  /** Every decoded record comes from some data line. */
  lemma {:induction false} DecodedFromLine(fmt: CoordFormat, lines: seq<string>, p: PatientLocation)
    requires p in DecodeLines(fmt, lines)
    ensures exists k :: 0 <= k < |lines| && DecodeLine(fmt, lines[k]) == [p]
    decreases |lines|
  {
    DecodeLineRules(fmt, lines[0]);
    if p !in DecodeLine(fmt, lines[0]) {
      DecodedFromLine(fmt, lines[1..], p);
      var k :| 0 <= k < |lines[1..]| && DecodeLine(fmt, lines[1..][k]) == [p];
      assert lines[k + 1] == lines[1..][k];
    }
  }

  // ---------------------------------------------------------------------------
  // Round trip
  // ---------------------------------------------------------------------------

  /** The text fields of a record can be written and read back. */
  predicate TextFieldsPlain(p: PatientLocation) {
    PlainCell(p.zon) && PlainCell(p.region) && PlainCell(p.address)
    && PlainCell(p.contactName) && PlainCell(p.contactPhone) && PlainCell(p.status)
  }

  /** A coordinate whose written form is plain and reads back as itself. */
  predicate CoordRoundTrips(fmt: CoordFormat, c: Coord) {
    PlainCell(fmt.show(c)) && fmt.parse(fmt.show(c)) == Some(c)
  }

  /** A record that survives being written and read back. */
  predicate Encodable(fmt: CoordFormat, p: PatientLocation) {
    TextFieldsPlain(p) && CoordRoundTrips(fmt, p.latitude) && CoordRoundTrips(fmt, p.longitude)
  }

  lemma FieldsPlain(fmt: CoordFormat, p: PatientLocation)
    requires Encodable(fmt, p)
    ensures forall j :: 0 <= j < COLUMNS ==> PlainCell(Fields(fmt, p)[j])
  {
    ShowIntPlain(p.bil);
    ShowIntPlain(p.patients);
  }

  /** A line whose cells are a record's fields reads back as that record. */
  lemma ParseRecordOfFields(fmt: CoordFormat, p: PatientLocation, line: string)
    requires ParseLine(line) == Fields(fmt, p)
    requires CoordRoundTrips(fmt, p.latitude) && CoordRoundTrips(fmt, p.longitude)
    ensures ParseRecord(fmt, line) == Some(p)
  {
    ParseShowInt(p.bil);
    ParseShowInt(p.patients);
  }

  /** The line written for a record is one line and decodes to that record. */
  lemma RecordLineRoundTrip(fmt: CoordFormat, p: PatientLocation)
    requires Encodable(fmt, p)
    ensures OneLineText(RecordLine(fmt, p))
    ensures DecodeLine(fmt, RecordLine(fmt, p)) == [p]
  {
    FieldsPlain(fmt, p);
    RecordLineOneLine(fmt, p);
    RecordLineFields(fmt, p);
    ParseRecordOfFields(fmt, p, RecordLine(fmt, p));
    JoinCellsNotBlank(Fields(fmt, p));
  }

  lemma {:induction false} DecodeEncodeBody(fmt: CoordFormat, items: seq<PatientLocation>)
    requires forall i :: 0 <= i < |items| ==> Encodable(fmt, items[i])
    ensures DecodeLines(fmt, Lines(EncodeBody(fmt, items))) == items
    decreases |items|
  {
    if items == [] {
      assert Lines(EncodeBody(fmt, items)) == [[]];
    } else {
      DecodeEncodeBody(fmt, items[1..]);
      DecodeEncodeStep(fmt, items);
    }
  }

  lemma DecodeEncodeStep(fmt: CoordFormat, items: seq<PatientLocation>)
    requires items != [] && Encodable(fmt, items[0])
    requires DecodeLines(fmt, Lines(EncodeBody(fmt, items[1..]))) == items[1..]
    ensures DecodeLines(fmt, Lines(EncodeBody(fmt, items))) == items
  {
    var line := RecordLine(fmt, items[0]);
    var body := EncodeBody(fmt, items[1..]);
    RecordLineRoundTrip(fmt, items[0]);
    LinesCons(line, body);
    var lines := [line] + Lines(body);
    assert lines[0] == line && lines[1..] == Lines(body);
    assert DecodeLines(fmt, lines) == [items[0]] + items[1..];
    SplitFirst(items);
  }

  /**
   * Document round trip: reading back the text written for a list of records gives
   * the same list, in the same order, when no text field holds a line break, a
   * carriage return or surrounding whitespace and the coordinates read back as themselves.
   */
  lemma DecodeEncode(fmt: CoordFormat, items: seq<PatientLocation>)
    requires forall i :: 0 <= i < |items| ==> Encodable(fmt, items[i])
    ensures Decode(fmt, Encode(fmt, items)) == items
  {
    HeaderOneLine();
    HeaderDropped(fmt, HEADER, EncodeBody(fmt, items));
    DecodeEncodeBody(fmt, items);
  }

  /** Every record read from a text has plain text fields: trimmed and on one line. */
  lemma DecodedFieldsPlain(fmt: CoordFormat, text: string, p: PatientLocation)
    requires p in Decode(fmt, text)
    ensures TextFieldsPlain(p)
  {
    var lines := Lines(text)[1..];
    DecodedFromLine(fmt, lines, p);
    var k :| 0 <= k < |lines| && DecodeLine(fmt, lines[k]) == [p];
    assert OneLineText(lines[k]);
    ParseLineKeepsOut(lines[k], '\n');
    ParseLineKeepsOut(lines[k], '\r');
    DecodeLineRules(fmt, lines[k]);
  }

  /**
   * For a record whose coordinates round-trip, writing it alone and reading the
   * text back gives it back exactly when its text fields are plain: a line break,
   * a carriage return or surrounding whitespace in any text field is never restored.
   */
  lemma SingleRecordRoundTrip(fmt: CoordFormat, p: PatientLocation)
    requires CoordRoundTrips(fmt, p.latitude) && CoordRoundTrips(fmt, p.longitude)
    ensures Decode(fmt, Encode(fmt, [p])) == [p] <==> TextFieldsPlain(p)
  {
    if TextFieldsPlain(p) {
      DecodeEncode(fmt, [p]);
    } else if Decode(fmt, Encode(fmt, [p])) == [p] {
      DecodedFieldsPlain(fmt, Encode(fmt, [p]), p);
    }
  }
}
