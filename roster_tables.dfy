/**
 * The member-roster table scraper (metadata/scraping.py): every wikitable is
 * flattened row by row, a cell being repeated once per column it spans; the
 * first non-empty row is the header, and every other row is padded with empty
 * strings or cut to the header's width. The rows of all tables are then put
 * one after the other.
 *
 * Fetching and parsing the page is not modelled: a table is given as its rows
 * of cells, each cell as its stripped text and its colspan attribute, if any.
 */
module RosterTables {
  import opened Wrappers
  import opened PyText
  import opened Sequences

  /** One <th> or <td>: its text as get_text(strip=True) gives it, and its colspan attribute when present. */
  datatype Cell = Cell(text: string, colspan: Option<string>)

  /** A table: its <tr> rows, each the list of its cells. */
  type Table = seq<seq<Cell>>

  /** A flattened row: one string per column. */
  type Row = seq<string>

  // ----------------------------------------------------------------- int()

  predicate IsDigit(c: char) {
    '0' <= c <= '9'
  }

  predicate AllDigits(s: string) {
    forall i :: 0 <= i < |s| ==> IsDigit(s[i])
  }

  /** The value of a string of decimal digits. */
  function DigitsValue(s: string): nat
    requires AllDigits(s)
  {
    if s == [] then 0 else DigitsValue(s[..|s| - 1]) * 10 + (s[|s| - 1] as int - '0' as int)
  }

  /** The error int() raises on text that is not a literal. */
  const InvalidLiteral: string := "invalid literal for int() with base 10"

  /** sys.get_int_max_str_digits() by default: int() and str() refuse longer decimal strings. */
  const MaxStrDigits: nat := 4300

  /** The error int() raises on a literal with more digits than MaxStrDigits. */
  const DigitLimitExceeded: string := "Exceeds the limit (4300 digits) for integer string conversion"

  /**
   * The whitespace int() skips around a literal: every str.isspace character
   * except U+001C..U+001F, which are below U+007F and so reach the ASCII
   * parser unchanged, where only " \t\n\v\f\r" count as space.
   */
  predicate IsIntSpace(c: char) {
    IsSpace(c) && !('\U{1C}' <= c <= '\U{1F}')
  }

  /** The literal int() parses: s with the whitespace it skips removed from both ends. */
  function IntStrip(s: string): (r: string)
    ensures |r| <= |s|
    ensures r != [] ==> !IsIntSpace(r[0]) && !IsIntSpace(r[|r| - 1])
  {
    StripBy(s, IsIntSpace)
  }

  /** int(s) for a string: optional surrounding whitespace, an optional sign, then one or more ASCII digits. */
  function ParseInt(s: string): Result<int, string> {
    var t := IntStrip(s);
    if t != [] && (t[0] == '+' || t[0] == '-') then
      var d := t[1..];
      if d != [] && AllDigits(d) then
        if |d| > MaxStrDigits then Failure(DigitLimitExceeded)
        else
          var v: int := DigitsValue(d);
          Success(if t[0] == '-' then -v else v)
      else Failure(InvalidLiteral)
    else if t != [] && AllDigits(t) then
      if |t| > MaxStrDigits then Failure(DigitLimitExceeded) else Success(DigitsValue(t))
    else Failure(InvalidLiteral)
  }

  /** The decimal digits of n, as str(n) writes them for n >= 0. */
  function DecimalDigits(n: nat): (s: string)
    ensures s != [] && AllDigits(s)
  {
    if n < 10 then [('0' as int + n) as char]
    else DecimalDigits(n / 10) + [('0' as int + n % 10) as char]
  }

  /** Reading back the digits of n gives n. */
  lemma {:induction false} DigitsValueOfDecimal(n: nat)
    ensures DigitsValue(DecimalDigits(n)) == n
  {
    if n >= 10 {
      var s := DecimalDigits(n);
      DigitsValueOfDecimal(n / 10);
      assert s[..|s| - 1] == DecimalDigits(n / 10);
    }
  }

  /** str(n). */
  function Decimal(n: int): string {
    if n < 0 then "-" + DecimalDigits(-n) else DecimalDigits(n)
  }

  /** int() reads back every integer str() writes, with or without surrounding whitespace that it skips. */
  lemma ParseIntOfDecimal(n: int, pad: string)
    requires |DecimalDigits(if n < 0 then -n else n)| <= MaxStrDigits
    requires forall i :: 0 <= i < |pad| ==> IsIntSpace(pad[i])
    ensures ParseInt(Decimal(n)) == Success(n)
    ensures ParseInt(pad + Decimal(n) + pad) == Success(n)
  {
    var s := Decimal(n);
    assert !IsIntSpace(s[0]) && !IsIntSpace(s[|s| - 1]);
    StripByKept(s, IsIntSpace);
    ParseIntOfStripped(s, n);
    StripPadded(pad, s);
    ParseIntOfStripped(pad + s + pad, n);
  }

  /** int() of a string that is str(n) once the whitespace int() skips is removed is n. */
  lemma ParseIntOfStripped(s: string, n: int)
    requires |DecimalDigits(if n < 0 then -n else n)| <= MaxStrDigits
    requires IntStrip(s) == Decimal(n)
    ensures ParseInt(s) == Success(n)
  {
    var t := IntStrip(s);
    if n < 0 {
      ParseIntOfNegative(t, n);
    } else {
      DigitsValueOfDecimal(n);
      assert IsDigit(t[0]);
    }
  }

  lemma ParseIntOfNegative(t: string, n: int)
    requires n < 0 && t == Decimal(n)
    ensures t != [] && t[0] == '-' && AllDigits(t[1..]) && t[1..] != [] && -(DigitsValue(t[1..]) as int) == n
    ensures t[1..] == DecimalDigits(-n)
  {
    DigitsValueOfDecimal(-n);
    assert t[1..] == DecimalDigits(-n);
  }

  /** Stripping whitespace padding off a string whose ends are not whitespace gives the string. */
  lemma StripPadded(pad: string, s: string)
    requires forall i :: 0 <= i < |pad| ==> IsIntSpace(pad[i])
    requires s != [] && !IsIntSpace(s[0]) && !IsIntSpace(s[|s| - 1])
    ensures IntStrip(pad + s + pad) == s
  {
    var t := pad + s + pad;
    LeadLenOfPadded(pad, s + pad);
    assert pad + s + pad == pad + (s + pad);
    assert t[|pad|..] == s + pad;
    TrailLenOfPadded(s, pad);
  }

  lemma {:induction false} LeadLenOfPadded(pad: string, s: string)
    requires forall i :: 0 <= i < |pad| ==> IsIntSpace(pad[i])
    requires s != [] && !IsIntSpace(s[0])
    ensures LeadLen(pad + s, IsIntSpace) == |pad|
  {
    if pad != [] {
      assert (pad + s)[1..] == pad[1..] + s;
      LeadLenOfPadded(pad[1..], s);
    } else {
      assert pad + s == s;
    }
  }

  lemma {:induction false} TrailLenOfPadded(s: string, pad: string)
    requires forall i :: 0 <= i < |pad| ==> IsIntSpace(pad[i])
    requires s != [] && !IsIntSpace(s[|s| - 1])
    ensures TrailLen(s + pad, IsIntSpace) == |pad|
  {
    if pad != [] {
      var init := pad[..|pad| - 1];
      assert (s + pad)[..|s + pad| - 1] == s + init;
      TrailLenOfPadded(s, init);
    } else {
      assert s + pad == s;
    }
  }

  /** Text that is not an optional sign followed by digits, once stripped, makes int() raise. */
  lemma ParseIntRejects(s: string)
    requires var t := IntStrip(s); t == [] || (!AllDigits(t) && !(|t| > 1 && (t[0] == '+' || t[0] == '-') && AllDigits(t[1..])))
    ensures ParseInt(s).Failure?
  {
  }

  /** A literal of more than MaxStrDigits digits, leading zeros included, makes int() raise. */
  lemma ParseIntRejectsLong(s: string)
    requires var t := IntStrip(s);
             var d := if t != [] && (t[0] == '+' || t[0] == '-') then t[1..] else t;
             AllDigits(d) && |d| > MaxStrDigits
    ensures ParseInt(s) == Failure(DigitLimitExceeded)
  {
  }

  /**
   * int() does not skip U+001C..U+001F although str.strip() does: such a
   * character before str(n) makes int() raise.
   */
  lemma ParseIntRejectsSeparator(c: char, n: int)
    requires '\U{1C}' <= c <= '\U{1F}'
    ensures Strip([c] + Decimal(n)) == Decimal(n)
    ensures ParseInt([c] + Decimal(n)).Failure?
  {
    var d := Decimal(n);
    var s := [c] + d;
    assert s[1..] == d;
    assert LeadLen(d, IsSpace) == 0;
    assert LeadLen(s, IsSpace) == 1;
    StripByKept(d, IsSpace);
    StripByKept(s, IsIntSpace);
    assert IntStrip(s)[0] == c;
  }

  // ------------------------------------------------------------- one row

  /** int(cell.get('colspan', 1)): 1 when the attribute is absent. */
  function Colspan(c: Cell): Result<int, string> {
    match c.colspan
    case None => Success(1)
    case Some(s) => ParseInt(s)
  }

  /** The number of times range(k) runs. */
  function Times(k: int): nat {
    if k > 0 then k else 0
  }

  /** The columns a cell covers once flattened: its colspan, or none when that is not positive or does not parse. */
  function CellWidth(c: Cell): nat {
    match Colspan(c)
    case Success(k) => Times(k)
    case Failure(_) => 0
  }

  /** The sum of the cells' widths. */
  function Width(row: seq<Cell>): nat {
    if row == [] then 0 else Width(row[..|row| - 1]) + CellWidth(row[|row| - 1])
  }

  /** The cell list of one <tr>: each cell's text once per column it spans; int() raising on a bad colspan stops everything. */
  function RowCells(row: seq<Cell>): Result<Row, string> {
    if row == [] then Success([])
    else
      var last := row[|row| - 1];
      match RowCells(row[..|row| - 1])
      case Failure(e) => Failure(e)
      case Success(cells) =>
        match Colspan(last)
        case Failure(e) => Failure(e)
        case Success(k) => Success(cells + Repeat(last.text, Times(k)))
  }

  /** A row fails to flatten exactly when one of its colspans does not parse. */
  lemma {:induction false} RowCellsFails(row: seq<Cell>)
    ensures RowCells(row).Failure? <==> exists i :: 0 <= i < |row| && Colspan(row[i]).Failure?
  {
    if row != [] {
      var init, last := row[..|row| - 1], row[|row| - 1];
      RowCellsFails(init);
      assert RowCells(row).Failure? <==> RowCells(init).Failure? || Colspan(last).Failure?;
      assert (exists i :: 0 <= i < |row| && Colspan(row[i]).Failure?)
         <==> (exists i :: 0 <= i < |init| && Colspan(init[i]).Failure?) || Colspan(last).Failure?
      by {
        assert forall i :: 0 <= i < |init| ==> row[i] == init[i];
      }
    }
  }

  /**
   * A flattened row is as long as the sum of its cells' colspans (a colspan of
   * zero or less counting for nothing), and cell i fills the consecutive
   * columns from the total width of the cells before it.
   */
  lemma RowLayout(row: seq<Cell>)
    requires RowCells(row).Success?
    ensures |RowCells(row).value| == Width(row)
    ensures forall i :: 0 <= i < |row| ==> Width(row[..i]) + CellWidth(row[i]) <= Width(row)
    ensures forall i, p :: 0 <= i < |row| && Width(row[..i]) <= p < Width(row[..i]) + CellWidth(row[i]) ==>
              RowCells(row).value[p] == row[i].text
  {
    RowLength(row);
    forall i | 0 <= i < |row| ensures Width(row[..i]) + CellWidth(row[i]) <= Width(row) {
      WidthFits(row, i);
    }
    forall i, p | 0 <= i < |row| && Width(row[..i]) <= p < Width(row[..i]) + CellWidth(row[i])
      ensures RowCells(row).value[p] == row[i].text
    {
      RowColumn(row, i, p);
    }
  }

  /** The span of cell i ends within the row's width. */
  lemma {:induction false} WidthFits(row: seq<Cell>, i: nat)
    requires i < |row|
    ensures Width(row[..i]) + CellWidth(row[i]) <= Width(row)
  {
    var init := row[..|row| - 1];
    if i < |init| {
      assert row[..i] == init[..i] && row[i] == init[i];
      WidthFits(init, i);
    } else {
      assert row[..i] == init;
    }
  }

  lemma {:induction false} RowLength(row: seq<Cell>)
    requires RowCells(row).Success?
    ensures |RowCells(row).value| == Width(row)
  {
    if row != [] {
      RowLength(row[..|row| - 1]);
    }
  }

  /** Column p of a flattened row holds the text of the cell whose span covers p. */
  lemma {:induction false} RowColumn(row: seq<Cell>, i: nat, p: nat)
    requires RowCells(row).Success?
    requires i < |row| && Width(row[..i]) <= p < Width(row[..i]) + CellWidth(row[i])
    ensures p < |RowCells(row).value| && RowCells(row).value[p] == row[i].text
  {
    var init, last := row[..|row| - 1], row[|row| - 1];
    RowLength(init);
    var before := RowCells(init).value;
    assert RowCells(row).value == before + Repeat(last.text, CellWidth(last));
    if i < |init| {
      assert row[..i] == init[..i] && row[i] == init[i];
      RowColumn(init, i, p);
    } else {
      assert row[..i] == init;
    }
  }

  function CellText(c: Cell): string {
    c.text
  }

  /** Without colspan attributes a row flattens to its cells' texts. */
  lemma {:induction false} RowWithoutColspans(row: seq<Cell>)
    requires forall i :: 0 <= i < |row| ==> row[i].colspan.None?
    ensures RowCells(row) == Success(MapSeq(CellText, row))
  {
    if row != [] {
      var init, last := row[..|row| - 1], row[|row| - 1];
      RowWithoutColspans(init);
      assert Colspan(last) == Success(1);
      assert Repeat(last.text, 1) == [last.text];
      MapSeqSnoc(CellText, init, last);
      assert init + [last] == row;
    }
  }

  // ------------------------------------------------------------ one table

  /** The rows extract_table_with_colspan returns: every flattened row that is not empty, in table order. */
  function ExtractedRows(table: Table): Result<seq<Row>, string> {
    if table == [] then Success([])
    else
      match ExtractedRows(table[..|table| - 1])
      case Failure(e) => Failure(e)
      case Success(rows) =>
        match RowCells(table[|table| - 1])
        case Failure(e) => Failure(e)
        case Success(cells) => Success(rows + (if cells != [] then [cells] else []))
  }

  /** A row's cells, or nothing when a colspan does not parse. */
  function CellsOrNone(row: seq<Cell>): Row {
    match RowCells(row)
    case Success(cells) => cells
    case Failure(_) => []
  }

  predicate NonEmpty(r: Row) {
    r != []
  }

  /** Extraction fails exactly when some row fails to flatten. */
  lemma {:induction false} ExtractedRowsFails(table: Table)
    ensures ExtractedRows(table).Failure? <==> exists i :: 0 <= i < |table| && RowCells(table[i]).Failure?
  {
    if table != [] {
      var init, last := table[..|table| - 1], table[|table| - 1];
      ExtractedRowsFails(init);
      assert ExtractedRows(table).Failure? <==> ExtractedRows(init).Failure? || RowCells(last).Failure?;
      assert (exists i :: 0 <= i < |table| && RowCells(table[i]).Failure?)
         <==> (exists i :: 0 <= i < |init| && RowCells(init[i]).Failure?) || RowCells(last).Failure?
      by {
        assert forall i :: 0 <= i < |init| ==> table[i] == init[i];
      }
    }
  }

  /** When extraction succeeds it keeps the flattened rows that are not empty, in their order. */
  lemma {:induction false} ExtractedRowsAreNonEmptyRows(table: Table)
    requires ExtractedRows(table).Success?
    ensures ExtractedRows(table).value == Filter(NonEmpty, MapSeq(CellsOrNone, table))
  {
    if table != [] {
      var init, last := table[..|table| - 1], table[|table| - 1];
      ExtractedRowsAreNonEmptyRows(init);
      var cells := RowCells(last).value;
      assert ExtractedRows(table).value == ExtractedRows(init).value + (if cells != [] then [cells] else []);
      assert CellsOrNone(last) == cells;
      MapSeqSnoc(CellsOrNone, init, last);
      FilterSnoc(NonEmpty, MapSeq(CellsOrNone, init), cells);
      assert init + [last] == table;
    }
  }

  /**
   * Every extracted row is non-empty, and row k is the flattened row ks[k] of
   * the table for increasing positions ks that are exactly the rows whose
   * flattening is not empty.
   */
  lemma ExtractedRowsFacts(table: Table)
    requires ExtractedRows(table).Success?
    ensures var rows, flat := ExtractedRows(table).value, MapSeq(CellsOrNone, table);
            var ks := KeptIndices(NonEmpty, flat);
            && |rows| == |ks| <= |table|
            && (forall r :: r in rows ==> r != [])
            && (forall a, b :: 0 <= a < b < |ks| ==> ks[a] < ks[b])
            && (forall k :: 0 <= k < |ks| ==> ks[k] < |table| && rows[k] == CellsOrNone(table[ks[k]]))
            && (forall i :: 0 <= i < |table| ==> (i in ks <==> CellsOrNone(table[i]) != []))
  {
    var flat := MapSeq(CellsOrNone, table);
    ExtractedRowsAreNonEmptyRows(table);
    KeptIndicesFacts(NonEmpty, flat);
    FilterIsKeptElements(NonEmpty, flat);
    FilterAllKept(NonEmpty, flat);
    forall i | 0 <= i < |table| ensures flat[i] == CellsOrNone(table[i]) {
      MapSeqAt(CellsOrNone, table, i);
    }
  }

  /** `row + [''] * (n - len(row))` when short, `row[:n]` when long, the row itself otherwise. */
  function Adjust(row: Row, n: nat): (r: Row)
    ensures |r| == n
    ensures forall i :: 0 <= i < n && i < |row| ==> r[i] == row[i]
    ensures forall i :: |row| <= i < n ==> r[i] == ""
    ensures |row| == n ==> r == row
  {
    if |row| < n then row + Repeat("", n - |row|)
    else if |row| > n then row[..n]
    else row
  }

  /** The adjusted data rows of a table whose header row is n columns wide. */
  function AdjustAll(rows: seq<Row>, n: nat): seq<Row> {
    if rows == [] then [] else AdjustAll(rows[..|rows| - 1], n) + [Adjust(rows[|rows| - 1], n)]
  }

  /** One adjusted row per data row, in order, each exactly n wide. */
  lemma {:induction false} AdjustAllFacts(rows: seq<Row>, n: nat)
    ensures |AdjustAll(rows, n)| == |rows|
    ensures forall k :: 0 <= k < |rows| ==> AdjustAll(rows, n)[k] == Adjust(rows[k], n)
    ensures forall r :: r in AdjustAll(rows, n) ==> |r| == n
  {
    if rows != [] {
      var init := rows[..|rows| - 1];
      AdjustAllFacts(init, n);
      forall k | 0 <= k < |init| ensures rows[k] == init[k] { }
    }
  }

  /** The rows one table adds to the master file: none without a header or without data rows. */
  function TableData(table: Table): Result<seq<Row>, string> {
    match ExtractedRows(table)
    case Failure(e) => Failure(e)
    case Success(rows) =>
      if rows == [] then Success([]) else Success(AdjustAll(rows[1..], |rows[0]|))
  }

  /**
   * A table contributes one row per extracted row after the header, each as
   * wide as the header; a table with no rows, or with only a header, adds
   * nothing.
   */
  lemma TableDataFacts(table: Table)
    requires TableData(table).Success?
    ensures var rows, data := ExtractedRows(table).value, TableData(table).value;
            && (|rows| <= 1 ==> data == [])
            && (|rows| > 1 ==> |data| == |rows| - 1 && forall r :: r in data ==> |r| == |rows[0]| > 0)
            && (forall k :: 0 <= k < |data| ==> data[k] == Adjust(rows[k + 1], |rows[0]|))
  {
    var rows := ExtractedRows(table).value;
    ExtractedRowsFacts(table);
    if rows != [] {
      assert rows[0] in rows;
      AdjustAllFacts(rows[1..], |rows[0]|);
    }
  }

  // ----------------------------------------------------------- all tables

  /** The master file's rows: the rows of each table in table order; the first bad colspan stops the script. */
  function AllData(tables: seq<Table>): Result<seq<Row>, string> {
    if tables == [] then Success([])
    else
      match AllData(tables[..|tables| - 1])
      case Failure(e) => Failure(e)
      case Success(rows) =>
        match TableData(tables[|tables| - 1])
        case Failure(e) => Failure(e)
        case Success(data) => Success(rows + data)
  }

  /** The number of rows each table adds, summed. */
  function TotalRows(tables: seq<Table>): nat {
    if tables == [] then 0
    else
      TotalRows(tables[..|tables| - 1])
      + match TableData(tables[|tables| - 1]) case Success(data) => |data| case Failure(_) => 0
  }

  /** The master file holds as many rows as the tables contribute together. */
  lemma {:induction false} AllDataCount(tables: seq<Table>)
    requires AllData(tables).Success?
    ensures |AllData(tables).value| == TotalRows(tables)
  {
    if tables != [] {
      AllDataCount(tables[..|tables| - 1]);
    }
  }

  /** The script fails exactly when one of the tables does. */
  lemma {:induction false} AllDataFails(tables: seq<Table>)
    ensures AllData(tables).Failure? <==> exists t :: 0 <= t < |tables| && TableData(tables[t]).Failure?
  {
    if tables != [] {
      var init, last := tables[..|tables| - 1], tables[|tables| - 1];
      AllDataFails(init);
      assert AllData(tables).Failure? <==> AllData(init).Failure? || TableData(last).Failure?;
      assert (exists t :: 0 <= t < |tables| && TableData(tables[t]).Failure?)
         <==> (exists t :: 0 <= t < |init| && TableData(init[t]).Failure?) || TableData(last).Failure?
      by {
        assert forall t :: 0 <= t < |init| ==> tables[t] == init[t];
      }
    }
  }

  // -------------------------------------------------------------- methods

  /** The innermost loop: `for _ in range(colspan): cells.append(text)`. */
  method AppendCopies(cells: Row, text: string, colspan: int) returns (cells': Row)
    ensures cells' == cells + Repeat(text, Times(colspan))
  {
    cells' := cells;
    var n := 0;
    while n < colspan
      invariant n <= Times(colspan)
      invariant cells' == cells + Repeat(text, n)
    {
      RepeatSnoc(text, n);
      AppendAssoc(cells, Repeat(text, n), [text]);
      cells' := cells' + [text];
      n := n + 1;
    }
  }

  /** extract_table_with_colspan. */
  method ExtractTableWithColspan(table: Table) returns (result: Result<seq<Row>, string>)
    ensures result == ExtractedRows(table)
  {
    var rows: seq<Row> := [];
    var t := 0;
    while t < |table|
      invariant 0 <= t <= |table|
      invariant ExtractedRows(table[..t]) == Success(rows)
    {
      var tr := table[t];
      var cells: Row := [];
      var c := 0;
      while c < |tr|
        invariant 0 <= c <= |tr|
        invariant RowCells(tr[..c]) == Success(cells)
      {
        var colspan := Colspan(tr[c]);
        RowCellsStep(tr, c);
        if colspan.Failure? {
          ExtractedRowsStop(table, t, c);
          return Failure(colspan.error);
        }
        cells := AppendCopies(cells, tr[c].text, colspan.value);
        c := c + 1;
      }
      assert tr[..c] == tr;
      ExtractedRowsStep(table, t);
      assert ExtractedRows(table[..t + 1]) == Success(rows + if cells != [] then [cells] else []);
      if cells != [] {
        rows := rows + [cells];
      } else {
        assert rows + [] == rows;
      }
      t := t + 1;
    }
    assert table[..t] == table;
    return Success(rows);
  }

  lemma RowCellsStep(row: seq<Cell>, c: nat)
    requires c < |row| && RowCells(row[..c]).Success?
    ensures var cells, k := RowCells(row[..c]).value, Colspan(row[c]);
            RowCells(row[..c + 1]) == match k
              case Failure(e) => Failure(e)
              case Success(n) => Success(cells + Repeat(row[c].text, Times(n)))
  {
    assert row[..c + 1][..c] == row[..c];
  }

  /** A colspan that does not parse, after rows and cells that flattened, is the error of the whole table. */
  lemma ExtractedRowsStop(table: Table, t: nat, c: nat)
    requires t < |table| && c < |table[t]|
    requires ExtractedRows(table[..t]).Success? && RowCells(table[t][..c]).Success?
    requires Colspan(table[t][c]).Failure?
    ensures ExtractedRows(table) == Failure(Colspan(table[t][c]).error)
  {
    var tr := table[t];
    RowCellsStep(tr, c);
    RowCellsPrefixFails(tr, c + 1);
    ExtractedRowsStep(table, t);
    ExtractedRowsPrefixFails(table, t + 1);
  }

  /** Once a prefix of a row fails to flatten, the row fails the same way. */
  lemma {:induction false} RowCellsPrefixFails(row: seq<Cell>, n: nat)
    requires n <= |row| && RowCells(row[..n]).Failure?
    ensures RowCells(row) == RowCells(row[..n])
    decreases |row|
  {
    if n < |row| {
      var init := row[..|row| - 1];
      assert init[..n] == row[..n];
      RowCellsPrefixFails(init, n);
    } else {
      assert row[..n] == row;
    }
  }

  lemma ExtractedRowsStep(table: Table, t: nat)
    requires t < |table| && ExtractedRows(table[..t]).Success?
    ensures var rows := ExtractedRows(table[..t]).value;
            ExtractedRows(table[..t + 1]) == match RowCells(table[t])
              case Failure(e) => Failure(e)
              case Success(cells) => Success(rows + if cells != [] then [cells] else [])
  {
    assert table[..t + 1][..t] == table[..t];
  }

  /** Once the rows before some point fail to flatten, the whole table fails the same way. */
  lemma {:induction false} ExtractedRowsPrefixFails(table: Table, n: nat)
    requires n <= |table| && ExtractedRows(table[..n]).Failure?
    ensures ExtractedRows(table) == ExtractedRows(table[..n])
    decreases |table|
  {
    if n < |table| {
      var init := table[..|table| - 1];
      assert init[..n] == table[..n];
      ExtractedRowsPrefixFails(init, n);
    } else {
      assert table[..n] == table;
    }
  }

  /** The adjusting loop over data_rows. */
  method AdjustRows(dataRows: seq<Row>, maxCols: nat) returns (adjusted: seq<Row>)
    ensures adjusted == AdjustAll(dataRows, maxCols)
  {
    adjusted := [];
    var i := 0;
    while i < |dataRows|
      invariant 0 <= i <= |dataRows|
      invariant adjusted == AdjustAll(dataRows[..i], maxCols)
    {
      var row := dataRows[i];
      if |row| < maxCols {
        row := row + Repeat("", maxCols - |row|);
      } else if |row| > maxCols {
        row := row[..maxCols];
      }
      assert dataRows[..i + 1][..i] == dataRows[..i];
      adjusted := adjusted + [row];
      i := i + 1;
    }
    assert dataRows[..i] == dataRows;
  }

  /** The loop over all wikitables and the final concatenation. */
  method ScrapeTables(tables: seq<Table>) returns (result: Result<seq<Row>, string>)
    ensures result == AllData(tables)
  {
    var allData: seq<seq<Row>> := [];
    ghost var combined: seq<Row> := [];
    var idx := 0;
    while idx < |tables|
      invariant 0 <= idx <= |tables|
      invariant AllData(tables[..idx]) == Success(combined)
      invariant combined == Concat(allData)
    {
      var tableData := ExtractTableWithColspan(tables[idx]);
      AllDataStep(tables, idx);
      if tableData.Failure? {
        AllDataPrefixFails(tables, idx + 1);
        return Failure(tableData.error);
      }
      if tableData.value == [] {
        assert combined + [] == combined;
        idx := idx + 1;
        continue;
      }
      var headers := tableData.value[0];
      var dataRows := tableData.value[1..];
      var adjusted := AdjustRows(dataRows, |headers|);
      assert TableData(tables[idx]) == Success(adjusted);
      if adjusted == [] {
        assert combined + [] == combined;
      } else {
        ConcatSnoc(allData, adjusted);
        allData := allData + [adjusted];
        combined := combined + adjusted;
      }
      idx := idx + 1;
    }
    assert tables[..idx] == tables;
    if allData == [] {
      return Success([]);
    }
    return Success(Concat(allData));
  }

  /** pd.concat of the row lists, in order. */
  function Concat(parts: seq<seq<Row>>): seq<Row> {
    if parts == [] then [] else Concat(parts[..|parts| - 1]) + parts[|parts| - 1]
  }

  lemma ConcatSnoc(parts: seq<seq<Row>>, p: seq<Row>)
    ensures Concat(parts + [p]) == Concat(parts) + p
  {
    assert (parts + [p])[..|parts|] == parts;
  }

  lemma AllDataStep(tables: seq<Table>, idx: nat)
    requires idx < |tables| && AllData(tables[..idx]).Success?
    ensures var rows := AllData(tables[..idx]).value;
            AllData(tables[..idx + 1]) == match TableData(tables[idx])
              case Failure(e) => Failure(e)
              case Success(data) => Success(rows + data)
  {
    assert tables[..idx + 1][..idx] == tables[..idx];
  }

  /** Once the tables before some point fail, the whole script fails the same way. */
  lemma {:induction false} AllDataPrefixFails(tables: seq<Table>, n: nat)
    requires n <= |tables| && AllData(tables[..n]).Failure?
    ensures AllData(tables) == AllData(tables[..n])
    decreases |tables|
  {
    if n < |tables| {
      var init := tables[..|tables| - 1];
      assert init[..n] == tables[..n];
      AllDataPrefixFails(init, n);
    } else {
      assert tables[..n] == tables;
    }
  }
}
