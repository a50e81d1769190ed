/**
 * One line of the store: the splitter `parseCsvLine` and the cell writer `toCsvCell`
 * (data/PatientRepository.kt). The quoting follows section 2 of RFC 4180 loosely:
 * a quoted cell may hold commas, a doubled quote inside quotes is one literal quote,
 * and every cell is trimmed, including whitespace that sat inside quotes.
 */
module CsvLine {
  import opened Text
  import opened Seqs

  // ---------------------------------------------------------------------------
  // Splitting
  // ---------------------------------------------------------------------------

  /**
   * The commas met outside quotes while scanning `rest`, with the same quote
   * tracking as the splitter: a quote toggles the state, except that a doubled
   * quote inside quotes is one literal quote and leaves the state alone.
   */
  function UnquotedCommas(rest: string, inQuotes: bool): nat
    decreases |rest|
  {
    if rest == [] then 0
    else if rest[0] == '"' then
      if inQuotes && |rest| > 1 && rest[1] == '"' then UnquotedCommas(rest[2..], inQuotes)
      else UnquotedCommas(rest[1..], !inQuotes)
    else (if rest[0] == ',' && !inQuotes then 1 else 0) + UnquotedCommas(rest[1..], inQuotes)
  }

  /**
   * The splitter's state machine run over the unread part `rest` of a line, with
   * the cell under construction `current`: the cells still to be closed.
   */
  function Scan(rest: string, inQuotes: bool, current: string): seq<string>
    decreases |rest|
  {
    if rest == [] then [Trim(current)]
    else if rest[0] == '"' then
      if inQuotes && |rest| > 1 && rest[1] == '"' then Scan(rest[2..], inQuotes, current + ['"'])
      else Scan(rest[1..], !inQuotes, current)
    else if rest[0] == ',' && !inQuotes then [Trim(current)] + Scan(rest[1..], inQuotes, [])
    else Scan(rest[1..], inQuotes, current + [rest[0]])
  }

  /** No cell has whitespace at either end. */
  predicate AllTrimmed(cells: seq<string>) {
    forall i :: 0 <= i < |cells| ==> IsTrimmed(cells[i])
  }

  lemma AllTrimmedCons(cell: string, cells: seq<string>)
    requires IsTrimmed(cell) && AllTrimmed(cells)
    ensures AllTrimmed([cell] + cells)
  {
    var r := [cell] + cells;
    forall i | 0 <= i < |r| ensures IsTrimmed(r[i]) {
      if i > 0 {
        assert r[i] == cells[i - 1];
      }
    }
  }

  /**
   * Every comma outside quotes closes one cell and the end of the line closes the
   * last, so there is one more cell than unquoted commas, and each cell is trimmed.
   */
  lemma {:induction false} ScanShape(rest: string, inQuotes: bool, current: string)
    ensures |Scan(rest, inQuotes, current)| == 1 + UnquotedCommas(rest, inQuotes)
    ensures AllTrimmed(Scan(rest, inQuotes, current))
    decreases |rest|
  {
    if rest == [] {
    } else if rest[0] == '"' {
      if inQuotes && |rest| > 1 && rest[1] == '"' {
        ScanShape(rest[2..], inQuotes, current + ['"']);
      } else {
        ScanShape(rest[1..], !inQuotes, current);
      }
    } else if rest[0] == ',' && !inQuotes {
      ScanShape(rest[1..], inQuotes, []);
      AllTrimmedCons(Trim(current), Scan(rest[1..], inQuotes, []));
    } else {
      ScanShape(rest[1..], inQuotes, current + [rest[0]]);
    }
  }

  /**
   * `parseCsvLine`: the cells of a line. There is always at least one, one more
   * than the commas outside quotes, and none has whitespace at either end.
   */
  function ParseLine(line: string): (r: seq<string>)
    ensures |r| >= 1
    ensures |r| == 1 + UnquotedCommas(line, false)
    ensures AllTrimmed(r)
  {
    ScanShape(line, false, []);
    Scan(line, false, [])
  }

  /** `parseCsvLine` as written: a loop over `index` that builds the current cell. */
  method ParseCsvLine(line: string) returns (cells: seq<string>)
    ensures cells == ParseLine(line)
  {
    cells := [];
    var current: string := [];
    var inQuotes := false;
    var index := 0;
    while index < |line|
      invariant 0 <= index <= |line|
      invariant cells + Scan(line[index..], inQuotes, current) == ParseLine(line)
    {
      var c := line[index];
      ScanAt(line, index, inQuotes, current);
      if c == '"' {
        var nextIsQuote := index + 1 < |line| && line[index + 1] == '"';
        if inQuotes && nextIsQuote {
          current := current + ['"'];
          index := index + 1;
        } else {
          inQuotes := !inQuotes;
        }
      } else if c == ',' && !inQuotes {
        AppendAssoc(cells, [Trim(current)], Scan(line[index + 1..], inQuotes, []));
        cells := cells + [Trim(current)];
        current := [];
      } else {
        current := current + [c];
      }
      index := index + 1;
    }
    assert line[index..] == [];
    cells := cells + [Trim(current)];
  }

  /** One step of the splitter at position `index` of a line. */
  lemma ScanAt(line: string, index: nat, inQuotes: bool, current: string)
    requires index < |line|
    ensures line[index] == '"' && inQuotes && index + 1 < |line| && line[index + 1] == '"' ==>
              Scan(line[index..], inQuotes, current) == Scan(line[index + 2..], inQuotes, current + ['"'])
    ensures line[index] == '"' && !(inQuotes && index + 1 < |line| && line[index + 1] == '"') ==>
              Scan(line[index..], inQuotes, current) == Scan(line[index + 1..], !inQuotes, current)
    ensures line[index] == ',' && !inQuotes ==>
              Scan(line[index..], inQuotes, current) == [Trim(current)] + Scan(line[index + 1..], inQuotes, [])
    ensures line[index] != '"' && !(line[index] == ',' && !inQuotes) ==>
              Scan(line[index..], inQuotes, current) == Scan(line[index + 1..], inQuotes, current + [line[index]])
  {
    var rest := line[index..];
    assert rest[0] == line[index] && rest[1..] == line[index + 1..];
    if index + 1 < |line| {
      assert rest[1] == line[index + 1] && rest[2..] == line[index + 2..];
    }
  }

  /** The cells hold only characters of the line (so cells read from a line holding no `'\n'` hold none). */
  lemma {:induction false} ScanKeepsOut(rest: string, inQuotes: bool, current: string, c: char)
    requires c !in rest && c !in current
    ensures NoneContains(Scan(rest, inQuotes, current), c)
    decreases |rest|
  {
    if rest == [] {
      TrimKeeps(current, c);
      assert Scan(rest, inQuotes, current) == [Trim(current)];
    } else {
      assert c != rest[0];
      NotInDrop(rest, 1, c);
      if rest[0] == '"' && inQuotes && |rest| > 1 && rest[1] == '"' {
        NotInDrop(rest, 2, c);
        NotInSnoc(current, '"', c);
        ScanKeepsOut(rest[2..], inQuotes, current + ['"'], c);
      } else if rest[0] == '"' {
        ScanKeepsOut(rest[1..], !inQuotes, current, c);
      } else if rest[0] == ',' && !inQuotes {
        TrimKeeps(current, c);
        ScanKeepsOut(rest[1..], inQuotes, [], c);
        NoneContainsCons(Trim(current), Scan(rest[1..], inQuotes, []), c);
      } else {
        NotInSnoc(current, rest[0], c);
        ScanKeepsOut(rest[1..], inQuotes, current + [rest[0]], c);
      }
    }
  }

  lemma ParseLineKeepsOut(line: string, c: char)
    requires c !in line
    ensures forall i :: 0 <= i < |ParseLine(line)| ==> c !in ParseLine(line)[i]
  {
    ScanKeepsOut(line, false, [], c);
  }

  /** The number of times `c` occurs in `s`. */
  function Occurrences(s: string, c: char): nat {
    if s == [] then 0 else (if s[0] == c then 1 else 0) + Occurrences(s[1..], c)
  }

  /** Without quotes every comma separates two cells. */
  lemma {:induction false} QuoteFreeCellCount(line: string)
    requires '"' !in line
    ensures |ParseLine(line)| == 1 + Occurrences(line, ',')
  {
    QuoteFreeCommas(line);
  }

  lemma {:induction false} QuoteFreeCommas(rest: string)
    requires '"' !in rest
    ensures UnquotedCommas(rest, false) == Occurrences(rest, ',')
    decreases |rest|
  {
    if rest != [] {
      assert '"' !in rest[1..] by {
        assert forall c :: c in rest[1..] ==> c in rest;
      }
      QuoteFreeCommas(rest[1..]);
    }
  }

  // ---------------------------------------------------------------------------
  // Writing
  // ---------------------------------------------------------------------------

  /** `replace("\"", "\"\"")`: every quote doubled, everything else kept. */
  function Escape(s: string): (r: string)
    ensures |r| == |s| + Occurrences(s, '"')
  {
    if s == [] then []
    else
      (if s[0] == '"' then ['"', '"'] else [s[0]]) + Escape(s[1..])
  }

  /** A cell must be quoted when it holds a quote, a comma or a `'\n'`; `'\r'` does not count. */
  predicate NeedsQuoting(s: string) {
    '"' in s || ',' in s || '\n' in s
  }

  /**
   * `toCsvCell`: the cell is written unchanged exactly when it needs no quoting;
   * otherwise it is wrapped in quotes, with its own quotes doubled. A `'\n'` or a
   * `'\r'` appears in the output exactly when the cell holds one.
   */
  function ToCell(s: string): string {
    if NeedsQuoting(s) then ['"'] + Escape(s) + ['"'] else s
  }

  lemma ToCellShape(s: string)
    ensures ToCell(s) == s <==> !NeedsQuoting(s)
    ensures NeedsQuoting(s) ==> |ToCell(s)| == |s| + Occurrences(s, '"') + 2 && ToCell(s)[0] == '"' && ToCell(s)[|ToCell(s)| - 1] == '"'
  {
    if NeedsQuoting(s) {
      var r := ['"'] + Escape(s) + ['"'];
      assert |r| == |Escape(s)| + 2;
    }
  }

  /** `joinToString(",") { it.toCsvCell() }`: the written cells with a comma between each two. */
  function JoinCells(cells: seq<string>): (r: string)
  {
    if cells == [] then []
    else if |cells| == 1 then ToCell(cells[0])
    else
      ToCell(cells[0]) + [','] + JoinCells(cells[1..])
  }

  /** Escaping adds only quotes: any other character is in the escaped text exactly when it is in `s`. */
  lemma {:induction false} EscapeKeeps(s: string, c: char)
    requires c != '"'
    ensures c in Escape(s) <==> c in s
    decreases |s|
  {
    if s != [] {
      EscapeKeeps(s[1..], c);
      var head := if s[0] == '"' then ['"', '"'] else [s[0]];
      assert Escape(s) == head + Escape(s[1..]);
      assert s == [s[0]] + s[1..];
    }
  }

  /**
   * Writing a cell adds only quotes: `'\n'`, `'\r'` or any other
   * character but `'"'` appears in the written cell exactly when it is in the cell.
   */
  lemma ToCellKeeps(s: string, c: char)
    requires c != '"'
    ensures c in ToCell(s) <==> c in s
  {
    EscapeKeeps(s, c);
    if NeedsQuoting(s) {
      assert ToCell(s) == ['"'] + Escape(s) + ['"'];
    }
  }

  /**
   * Joining adds only quotes and commas: any other character, `'\n'` and
   * `'\r'` among them, is in the written line exactly when a cell holds it.
   */
  lemma {:induction false} JoinCellsKeeps(cells: seq<string>, c: char)
    requires c != '"' && c != ','
    ensures c in JoinCells(cells) <==> !NoneContains(cells, c)
    decreases |cells|
  {
    if cells != [] {
      ToCellKeeps(cells[0], c);
      NoneContainsSplit(cells, c);
      if |cells| > 1 {
        JoinCellsKeeps(cells[1..], c);
        AppendAssoc(ToCell(cells[0]), [','], JoinCells(cells[1..]));
      } else {
        assert NoneContains(cells[1..], c);
      }
    }
  }

  /** A written line of two or more cells holds a comma, so it is never blank. */
  lemma JoinCellsNotBlank(cells: seq<string>)
    requires |cells| >= 2
    ensures !IsBlank(JoinCells(cells))
  {
    var first := ToCell(cells[0]);
    AppendAssoc(first, [','], JoinCells(cells[1..]));
    CommaNotBlank(first, JoinCells(cells[1..]));
  }

  lemma CommaNotBlank(a: string, b: string)
    ensures !IsBlank(a + ([','] + b))
  {
    assert (a + ([','] + b))[|a|] == ',';
  }

  // ---------------------------------------------------------------------------
  // Round trip
  // ---------------------------------------------------------------------------

  /** An unquoted cell is read character by character into the current cell. */
  lemma {:induction false} ScanPlain(s: string, tail: string, current: string)
    requires '"' !in s && ',' !in s
    ensures Scan(s + tail, false, current) == Scan(tail, false, current + s)
    decreases |s|
  {
    if s != [] {
      var text := s + tail;
      assert text[0] == s[0] && text[1..] == s[1..] + tail;
      assert Scan(text, false, current) == Scan(text[1..], false, current + [s[0]]);
      assert '"' !in s[1..] && ',' !in s[1..] by {
        assert forall c :: c in s[1..] ==> c in s;
      }
      assert current + [s[0]] + s[1..] == current + s by {
        assert s == [s[0]] + s[1..];
      }
      ScanPlain(s[1..], tail, current + [s[0]]);
    } else {
      assert s + tail == tail && current + s == current;
    }
  }

  /** Inside quotes, the first character of an escaped cell goes to the current cell. */
  lemma EscapedStep(s: string, tail: string, current: string)
    requires s != []
    ensures Scan(Escape(s) + ['"'] + tail, true, current)
         == Scan(Escape(s[1..]) + ['"'] + tail, true, current + [s[0]])
  {
    var after := Escape(s[1..]) + ['"'] + tail;
    var head := if s[0] == '"' then ['"', '"'] else [s[0]];
    assert Escape(s) == head + Escape(s[1..]);
    AppendAssoc(head, Escape(s[1..]), ['"']);
    AppendAssoc(head, Escape(s[1..]) + ['"'], tail);
    if s[0] == '"' {
      ScanDoubledQuote(after, current);
    } else {
      ScanPlainChar(s[0], after, current);
    }
  }

  lemma ScanDoubledQuote(after: string, current: string)
    ensures Scan(['"', '"'] + after, true, current) == Scan(after, true, current + ['"'])
  {
    var text := ['"', '"'] + after;
    assert text[0] == '"' && text[1] == '"' && text[2..] == after;
  }

  lemma ScanPlainChar(c: char, after: string, current: string)
    requires c != '"'
    ensures Scan([c] + after, true, current) == Scan(after, true, current + [c])
  {
    var text := [c] + after;
    assert text[0] == c && text[1..] == after;
  }

  /**
   * Inside quotes, an escaped cell followed by the closing quote is read back as
   * the cell itself, provided the closing quote is not followed by another quote.
   */
  lemma {:induction false} ScanQuoted(s: string, tail: string, current: string)
    requires tail == [] || tail[0] != '"'
    ensures Scan(Escape(s) + ['"'] + tail, true, current) == Scan(tail, false, current + s)
    decreases |s|
  {
    if s == [] {
      var text := Escape(s) + ['"'] + tail;
      assert text == ['"'] + tail;
      assert text[1..] == tail;
      assert current + s == current;
    } else {
      assert current + [s[0]] + s[1..] == current + s by {
        assert s == [s[0]] + s[1..];
      }
      EscapedStep(s, tail, current);
      ScanQuoted(s[1..], tail, current + [s[0]]);
    }
  }

  /** A written cell, followed by the end of the line or a comma, is read back whole. */
  lemma ScanCell(s: string, tail: string)
    requires tail == [] || tail[0] == ','
    ensures Scan(ToCell(s) + tail, false, []) == Scan(tail, false, s)
  {
    var text := ToCell(s) + tail;
    if NeedsQuoting(s) {
      var inner := Escape(s) + ['"'] + tail;
      AppendAssoc(['"'], Escape(s), ['"']);
      AppendAssoc(['"'], Escape(s) + ['"'], tail);
      assert text == ['"'] + inner;
      assert text[0] == '"' && text[1..] == inner;
      assert Scan(text, false, []) == Scan(inner, true, []);
      ScanQuoted(s, tail, []);
      assert [] + s == s;
    } else {
      ScanPlain(s, tail, []);
      assert [] + s == s;
    }
  }

  /** A trimmed cell written and followed by a comma is read back as one whole cell. */
  lemma ScanCellComma(s: string, rest: string)
    requires IsTrimmed(s)
    ensures Scan(ToCell(s) + ([','] + rest), false, []) == [s] + Scan(rest, false, [])
  {
    var tail := [','] + rest;
    ScanCell(s, tail);
    assert tail[0] == ',' && tail[1..] == rest;
    assert Scan(tail, false, s) == [Trim(s)] + Scan(rest, false, []);
  }

  lemma AllTrimmedTail(cells: seq<string>)
    requires cells != [] && AllTrimmed(cells)
    ensures IsTrimmed(cells[0]) && AllTrimmed(cells[1..])
  {
    assert forall i :: 0 <= i < |cells[1..]| ==> cells[1..][i] == cells[i + 1];
  }

  lemma ScanJoinOne(cells: seq<string>)
    requires |cells| == 1 && IsTrimmed(cells[0])
    ensures Scan(JoinCells(cells), false, []) == cells
  {
    var c := cells[0];
    assert cells == [c];
    assert JoinCells(cells) == ToCell(c) + [];
    ScanCell(c, []);
    assert Scan([], false, c) == [Trim(c)];
  }

  lemma ScanJoinStep(cells: seq<string>)
    requires |cells| >= 2 && IsTrimmed(cells[0])
    requires Scan(JoinCells(cells[1..]), false, []) == cells[1..]
    ensures Scan(JoinCells(cells), false, []) == cells
  {
    var rest := JoinCells(cells[1..]);
    AppendAssoc(ToCell(cells[0]), [','], rest);
    assert JoinCells(cells) == ToCell(cells[0]) + ([','] + rest);
    ScanCellComma(cells[0], rest);
    SplitFirst(cells);
  }

  lemma {:induction false} ScanJoinCells(cells: seq<string>)
    requires |cells| >= 1
    requires AllTrimmed(cells)
    ensures Scan(JoinCells(cells), false, []) == cells
    decreases |cells|
  {
    AllTrimmedTail(cells);
    if |cells| == 1 {
      ScanJoinOne(cells);
    } else {
      ScanJoinCells(cells[1..]);
      ScanJoinStep(cells);
    }
  }

  /**
   * Cell round trip: splitting the written form of a non-empty list of cells gives
   * the list back exactly when no cell has whitespace at either end. Quotes, commas
   * and `'\n'` inside a cell survive; surrounding whitespace never does.
   */
  lemma ParseJoinCells(cells: seq<string>)
    requires |cells| >= 1
    ensures ParseLine(JoinCells(cells)) == cells <==> AllTrimmed(cells)
  {
    if AllTrimmed(cells) {
      ScanJoinCells(cells);
    }
  }

  /** A single cell: the special case of `ParseJoinCells`. */
  lemma ParseToCell(s: string)
    requires IsTrimmed(s)
    ensures ParseLine(ToCell(s)) == [s]
  {
    ParseJoinCells([s]);
  }
}
