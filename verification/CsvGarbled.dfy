/** Tables that trimming garbles (src/libcoopy_core/DataSheet.cpp): one text with a quote right after a line end is
    enough for the whole table not to come back. */
module CsvGarbled {
  import opened CsvParser
  import opened CsvPrinter
  import opened CsvRoundTrip
  import opened CsvSurvival

  /** What follows the first `x` cells in a printed line. */
  lemma {:induction false} LineFrom(style: Style, row: seq<SheetCell>, x: nat, n: nat) returns (tail: string)
    requires x < n <= |row|
    ensures Cells(style, row, n) == Cells(style, row, x) + Encoded(style, row[x]) + [style.delim] + tail
  {
    hide Encoded;
    if n == x + 1 {
      tail := [];
    } else {
      var more := LineFrom(style, row, x, n - 1);
      tail := more + Encoded(style, row[n - 1]) + [style.delim];
      assert Cells(style, row, n) == Cells(style, row, n - 1) + Encoded(style, row[n - 1]) + [style.delim];
    }
  }

  lemma LineAt(style: Style, row: seq<SheetCell>, x: nat) returns (tail: string)
    requires x < |row|
    ensures Line(style, row) == Cells(style, row, x) + Encoded(style, row[x]) + tail
  {
    hide Encoded, Cells;
    var last := |row| - 1;
    if x == last {
      tail := [];
    } else {
      var more := LineFrom(style, row, x, last);
      tail := [style.delim] + more + Encoded(style, row[last]);
    }
  }

  lemma {:induction false} LinesFrom(style: Style, table: seq<seq<SheetCell>>, y: nat, n: nat) returns (tail: string)
    requires y < n <= |table|
    ensures Lines(style, table, n) == Lines(style, table, y) + Line(style, table[y]) + tail
  {
    hide Line;
    if n == y + 1 {
      tail := style.eol;
    } else {
      var more := LinesFrom(style, table, y, n - 1);
      tail := more + Line(style, table[n - 1]) + style.eol;
    }
  }

  lemma TableAt(style: Style, table: seq<seq<SheetCell>>, y: nat) returns (tail: string)
    requires y < |table|
    ensures EncodedTable(style, table) == Lines(style, table, y) + Line(style, table[y]) + tail
  {
    hide Line, Lines;
    var last := |table| - 1;
    if style.eolAtEof {
      tail := LinesFrom(style, table, y, |table|);
    } else if y == last {
      tail := [];
    } else {
      var more := LinesFrom(style, table, y, last);
      tail := more + Line(style, table[last]);
    }
  }

  /** Rows that are finished stay. */
  lemma {:induction false} RowsStay(style: Style, c: Collected, events: seq<Event>)
    ensures c.rows <= Collect(style, c, events).rows
  {
    hide DecodeField;
    if events != [] {
      RowsStay(style, c, events[..|events| - 1]);
    }
  }

  /** A field and the end of a row, after the rows and cells already collected. */
  lemma RowEnds(style: Style, rec: seq<SheetCell>, rows: seq<seq<SheetCell>>, events: seq<Event>)
    requires |events| >= 2 && events[0].Field? && events[1] == EndRow
    ensures var all := Collect(style, Collected(rec, rows), events).rows;
      |all| > |rows| && all[|rows|] == rec + [DecodeField(style, events[0].text)]
  {
    hide DecodeField;
    var two, rest := events[..2], events[2..];
    assert events == two + rest;
    CollectConcat(style, Collected(rec, rows), two, rest);
    assert two[..1] == [events[0]] && [events[0]][..0] == [] && two == [events[0], EndRow];
    assert Collect(style, Collected(rec, rows), []) == Collected(rec, rows);
    assert Collect(style, Collected(rec, rows), [events[0]]) ==
      Collected(rec + [DecodeField(style, events[0].text)], rows);
    var mid := Collect(style, Collected(rec, rows), two);
    assert mid.rows == rows + [rec + [DecodeField(style, events[0].text)]];
    RowsStay(style, mid, rest);
  }

  /** The cell at `y`, `x` is the first that trimming garbles, and every row above prints as something. */
  ghost predicate FirstGarbled(style: Style, table: seq<seq<SheetCell>>, y: nat, x: nat) {
    && y < |table| && x < |table[y]| && QuoteAfterTerm(table[y][x].text) && !table[y][x].escaped
    && (forall i :: 0 <= i < y ==> AllPrintable(style, table[i]) && Line(style, table[i]) != [])
    && (forall i :: 0 <= i < x ==> Printable(style, table[y][i]))
  }

  /** The callbacks up to the garbled cell, and what is collected from them. */
  lemma UpToGarbled(style: Style, table: seq<seq<SheetCell>>, y: nat, x: nat)
    requires Readable(style) && FirstGarbled(style, table, y, x)
    ensures var s, row := if x == 0 then Start else NextField, table[y];
      var events := TableEvents(style, table, y) + CellEvents(style, row, x);
      && Goes(style.delim, Start, Lines(style, table, y) + Cells(style, row, x), s, events)
      && Collect(style, Collected([], []), events) == Collected(ReadRow(style, row, x), ReadRows(style, table, y))
      && |ReadRows(style, table, y)| == y
  {
    hide Goes, Printable, Lines, Cells, TableEvents, CellEvents, ReadRow, ReadRows, Line, AllPrintable, QuoteAfterTerm,
      Collect;
    var row := table[y];
    LinesRun(style, table, y);
    CellsRun(style, row, x);
    Then(style.delim, Start, Lines(style, table, y), Start, TableEvents(style, table, y),
         Cells(style, row, x), if x == 0 then Start else NextField, CellEvents(style, row, x));
    CollectTable(style, table, y);
    CollectConcat(style, Collected([], []), TableEvents(style, table, y), CellEvents(style, row, x));
    CollectCells(style, ReadRows(style, table, y), row, x);
    ReadRowsLength(style, table, y);
  }

  /** The row the garbled cell is in ends inside that cell. */
  lemma GarbledRow(style: Style, table: seq<seq<SheetCell>>, y: nat, x: nat)
    requires Readable(style) && style.trimEnd && FirstGarbled(style, table, y, x)
    ensures var all := Read(style, EncodedTable(style, table));
      |all| > y && |all[y]| == x + 1 && |all[y][x].text| < |table[y][x].text|
  {
    hide Goes, Lines, Cells, TableEvents, CellEvents, ReadRow, ReadRows, Line, Encoded, EncodedTable, Collect,
      FirstGarbled, Run;
    GarbledCell(style, table, y, x);
    var row, c := table[y], table[y][x];
    var s := if x == 0 then Start else NextField;
    UpToGarbled(style, table, y, x);
    HeldLineEndGarbles(style, s, c);
    var before := Lines(style, table, y) + Cells(style, row, x);
    var seen := TableEvents(style, table, y) + CellEvents(style, row, x);
    var here := Run(style.delim, s, Encoded(style, c)).1;
    var after := TextAfter(style, table, y, x);
    var more := EventsAfter(style, s, before, seen, Encoded(style, c), after);
    CollectConcat(style, Collected([], []), seen, here + more);
    RowEnds(style, ReadRow(style, row, x), ReadRows(style, table, y), here + more);
    DecodeIsCut(style, here[0].text);
    CStringIsWhole(DecodeWhole(style, here[0].text).text);
  }

  /** A printed table, cut before and after one cell. */
  lemma TextAfter(style: Style, table: seq<seq<SheetCell>>, y: nat, x: nat) returns (after: string)
    requires y < |table| && x < |table[y]|
    ensures EncodedTable(style, table) ==
            Lines(style, table, y) + Cells(style, table[y], x) + (Encoded(style, table[y][x]) + after)
  {
    hide Lines, Cells, Encoded, EncodedTable, Line;
    var lineTail := LineAt(style, table[y], x);
    var tail := TableAt(style, table, y);
    after := lineTail + tail;
    FivePieces(Lines(style, table, y), Cells(style, table[y], x), Encoded(style, table[y][x]), lineTail, tail);
  }

  lemma FivePieces(a: string, b: string, c: string, d: string, e: string)
    ensures a + (b + c + d) + e == a + b + (c + (d + e))
  {
  }

  lemma GarbledCell(style: Style, table: seq<seq<SheetCell>>, y: nat, x: nat)
    requires FirstGarbled(style, table, y, x)
    ensures y < |table| && x < |table[y]| && QuoteAfterTerm(table[y][x].text) && !table[y][x].escaped
  {
  }

  /** Parsing three pieces: the callbacks of the first, then of the second, then more. */
  lemma EventsAfter(style: Style, s: Core, a: string, seen: seq<Event>, b: string, d: string) returns (more: seq<Event>)
    requires Goes(style.delim, Start, a, s, seen)
    ensures var (end, events) := Run(style.delim, Start, a + (b + d));
      events + Fini(end) == seen + (Run(style.delim, s, b).1 + more)
  {
    hide Run, Fini;
    RunConcat(style.delim, Start, a, b + d);
    RunConcat(style.delim, s, b, d);
    var (mid, here) := Run(style.delim, s, b);
    var (end, rest) := Run(style.delim, mid, d);
    more := rest + Fini(end);
    assert seen + (here + rest) + Fini(end) == seen + (here + (rest + Fini(end)));
  }

  /** With trimming on, a table of texts with a quote right after a line end does not come back. */
  lemma GarbledTable(style: Style, table: seq<seq<SheetCell>>, y: nat, x: nat)
    requires Readable(style) && style.trimEnd && FirstGarbled(style, table, y, x)
    ensures !SameTable(Read(style, EncodedTable(style, table)), table)
  {
    hide Read, EncodedTable, FirstGarbled;
    GarbledCell(style, table, y, x);
    GarbledRow(style, table, y, x);
    var all := Read(style, EncodedTable(style, table));
    assert ValueOf(all[y][x]) != ValueOf(table[y][x]);
    assert !SameRow(all[y], table[y]);
  }
}
