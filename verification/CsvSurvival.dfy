/** Which cells and tables survive printing and reading exactly (src/libcoopy_core/DataSheet.cpp,
    src/libcsv/CsvRead.cpp): the null token, its collision guard, trimming, and rows that print as nothing. */
module CsvSurvival {
  import opened CsvParser
  import opened CsvPrinter
  import opened CsvRoundTrip

  /** A cell as its reader sees it. */
  datatype Value = Null | Text(text: string)

  function ValueOf(c: SheetCell): Value {
    if c.escaped then Null else Text(c.text)
  }

  predicate StartsWithUnderscore(s: string) { s != [] && s[0] == '_' }

  /** The texts that come back through guard and decoder. With token and guard on, and a token that does not
      start with an underscore, these are all but underscores followed by a proper prefix of the token. */
  predicate TextSurvives(style: Style, text: string) {
    var rest := text[Score(text)..];
    if !style.haveNull then !(style.quoteCollision && rest == style.nullToken)
    else if !style.quoteCollision then text != style.nullToken
    else if StartsWithUnderscore(style.nullToken) then text != style.nullToken && !(text != [] && rest == [])
    else !(Score(text) > 0 && IsPrefix(rest, style.nullToken) && rest != style.nullToken)
  }

  /** The decoder before the text is cut at a zero byte. */
  function DecodeWhole(style: Style, raw: string): SheetCell {
    if style.haveNull && raw == style.nullToken then SheetCell(raw, true)
    else if style.haveNull && style.quoteCollision && Score(raw) > 0
      && IsPrefix(raw[Score(raw)..], style.nullToken) then
      SheetCell(raw[1..], false)
    else SheetCell(raw, false)
  }

  lemma ScoreOfGuarded(text: string)
    ensures Score("_" + text) == Score(text) + 1 && ("_" + text)[Score("_" + text)..] == text[Score(text)..]
    ensures ("_" + text)[1..] == text
  {
    assert ("_" + text)[1..] == text;
  }

  /** The guard and the decoder undo each other on exactly the surviving texts. */
  lemma GuardRoundTrip(style: Style, text: string)
    ensures DecodeWhole(style, Guarded(style, SheetCell(text, false))) == SheetCell(text, false) <==>
      TextSurvives(style, text)
  {
    ScoreOfGuarded(text);
    var rest := text[Score(text)..];
    assert StartsWithUnderscore(text) <==> Score(text) > 0;
    assert rest != [] ==> rest[0] != '_';
    if StartsWithUnderscore(style.nullToken) && IsPrefix(rest, style.nullToken) {
      assert rest == [];
    }
    if Score(text) == 0 {
      assert rest == text;
    }
  }

  /** In particular any number of underscores before the whole token survives. */
  lemma UnderscoresBeforeTokenSurvive(style: Style, n: nat)
    requires style.haveNull && style.quoteCollision && !StartsWithUnderscore(style.nullToken)
    ensures TextSurvives(style, seq(n, _ => '_') + style.nullToken)
  {
    UnderscoreScore(n, style.nullToken);
  }

  lemma {:induction false} UnderscoreScore(n: nat, rest: string)
    requires !StartsWithUnderscore(rest)
    ensures var text := seq(n, _ => '_') + rest;
            Score(text) == n && text[n..] == rest
  {
    var text := seq(n, _ => '_') + rest;
    if n > 0 {
      UnderscoreScore(n - 1, rest);
      assert text[1..] == seq(n - 1, _ => '_') + rest;
    } else {
      assert text == rest;
    }
  }

  /** And exactly the underscores followed by a proper prefix of the token do not. */
  lemma ProperPrefixIsLost(style: Style, n: nat, rest: string)
    requires style.haveNull && style.quoteCollision && !StartsWithUnderscore(style.nullToken)
    requires n > 0 && IsPrefix(rest, style.nullToken) && rest != style.nullToken
    ensures !TextSurvives(style, seq(n, _ => '_') + rest)
  {
    UnderscoreScore(n, rest);
  }

  predicate HasNoZero(s: string) { forall i :: 0 <= i < |s| ==> s[i] != '\0' }

  lemma {:induction false} CStringIsWhole(s: string)
    ensures CString(s) == s <==> HasNoZero(s)
    ensures HasNoZero(CString(s)) && |CString(s)| <= |s| && CString(s) == s[..|CString(s)|]
    ensures |CString(s)| < |s| ==> s[|CString(s)|] == '\0'
  {
    if s != [] {
      CStringIsWhole(s[1..]);
      assert HasNoZero(s) <==> s[0] != '\0' && HasNoZero(s[1..]) by {
        if s[0] != '\0' && HasNoZero(s[1..]) {
          forall i | 0 <= i < |s| ensures s[i] != '\0' {
            if i > 0 {
              assert s[i] == s[1..][i - 1];
            }
          }
        }
      }
      assert s == [s[0]] + s[1..];
    }
  }

  predicate EndsInTerm(s: string) { s != [] && IsTerm(s[|s| - 1]) }

  /** The cells that come back as the same null or the same text. */
  predicate CellSurvives(style: Style, c: SheetCell) {
    if c.escaped then
      style.haveNull && (c.text == "" || (if style.trimEnd then Trimmed(c.text) else c.text) == style.nullToken)
    else
      TextSurvives(style, c.text) && HasNoZero(c.text) && !(style.trimEnd && EndsInTerm(c.text))
  }

  lemma {:induction false} TrimmedShorter(s: string)
    ensures |Trimmed(s)| <= |s| && (EndsInTerm(s) ==> |Trimmed(s)| < |s|) && (!EndsInTerm(s) ==> Trimmed(s) == s)
    ensures !EndsInTerm(Trimmed(s))
  {
    if EndsInTerm(s) {
      TrimmedShorter(s[..|s| - 1]);
    }
  }

  lemma GuardedEnd(style: Style, c: SheetCell)
    ensures EndsInTerm(Guarded(style, c)) <==> EndsInTerm(c.text)
    ensures |Guarded(style, c)| <= |c.text| + 1
  {
  }

  lemma DecodeIsCut(style: Style, raw: string)
    ensures var whole := DecodeWhole(style, raw);
            && DecodeField(style, raw) == SheetCell(CString(whole.text), whole.escaped)
            && (whole.text == raw || |whole.text| < |raw|)
  {
  }

  lemma TextRoundTrip(style: Style, text: string)
    ensures ValueOf(ReadCell(style, SheetCell(text, false))) == Text(text) <==>
      CellSurvives(style, SheetCell(text, false))
  {
    hide TextSurvives, DecodeWhole, DecodeField, Guarded, CString;
    var c := SheetCell(text, false);
    GuardedEnd(style, c);
    TrimmedShorter(Guarded(style, c));
    GuardRoundTrip(style, text);
    DecodeIsCut(style, Shown(style, c));
    CStringIsWhole(DecodeWhole(style, Shown(style, c)).text);
    if style.trimEnd && EndsInTerm(text) {
      TrimmedIsLost(style, text);
    } else {
      CutIsNotShift(style, text);
    }
  }

  /** Nothing makes up for a line end that was trimmed. */
  lemma TrimmedIsLost(style: Style, text: string)
    requires EndsInTerm(text)
    ensures CString(DecodeWhole(style, Trimmed(Guarded(style, SheetCell(text, false)))).text) != text
  {
    hide DecodeWhole, DecodeField, Guarded, CString, Trimmed;
    var g := Guarded(style, SheetCell(text, false));
    GuardedEnd(style, SheetCell(text, false));
    TrimmedShorter(g);
    DecodeIsCut(style, Trimmed(g));
    CStringIsWhole(DecodeWhole(style, Trimmed(g)).text);
  }

  /** Cutting at a zero byte cannot make up for a lost or an added underscore. */
  lemma CutIsNotShift(style: Style, text: string)
    ensures var whole := DecodeWhole(style, Guarded(style, SheetCell(text, false)));
            CString(whole.text) == text ==> whole.text == text
  {
    var whole := DecodeWhole(style, Guarded(style, SheetCell(text, false))).text;
    CStringIsWhole(whole);
    ScoreOfGuarded(text);
  }

  /** The exact condition under which one cell survives. */
  lemma CellRoundTrip(style: Style, c: SheetCell)
    ensures ValueOf(ReadCell(style, c)) == ValueOf(c) <==> CellSurvives(style, c)
  {
    if c.escaped {
      DecodeIsCut(style, Shown(style, c));
    } else {
      assert c == SheetCell(c.text, false);
      TextRoundTrip(style, c.text);
    }
  }

  // ---------------------------------------------------------------------------
  // Whole tables

  ghost predicate SameRow(a: seq<SheetCell>, b: seq<SheetCell>) {
    |a| == |b| && forall x :: 0 <= x < |a| ==> ValueOf(a[x]) == ValueOf(b[x])
  }

  ghost predicate SameTable(a: seq<seq<SheetCell>>, b: seq<seq<SheetCell>>) {
    |a| == |b| && forall y :: 0 <= y < |a| ==> SameRow(a[y], b[y])
  }

  /** No row prints as nothing and every cell survives. */
  ghost predicate TableSurvives(style: Style, table: seq<seq<SheetCell>>) {
    forall y :: 0 <= y < |table| ==>
      Line(style, table[y]) != [] && forall x :: 0 <= x < |table[y]| ==> CellSurvives(style, table[y][x])
  }

  lemma {:induction false} ReadRowAt(style: Style, row: seq<SheetCell>, n: nat, x: nat)
    requires x < n <= |row|
    ensures ReadRow(style, row, n)[x] == ReadCell(style, row[x])
  {
    if x < n - 1 {
      ReadRowAt(style, row, n - 1, x);
    }
  }

  lemma {:induction false} ReadRowsLength(style: Style, table: seq<seq<SheetCell>>, n: nat)
    requires n <= |table|
    ensures |ReadRows(style, table, n)| <= n
    ensures |ReadRows(style, table, n)| == n <==> forall y :: 0 <= y < n ==> Line(style, table[y]) != []
  {
    hide Line;
    if n > 0 {
      ReadRowsLength(style, table, n - 1);
    }
  }

  lemma {:induction false} ReadRowsAt(style: Style, table: seq<seq<SheetCell>>, n: nat, y: nat)
    requires y < n <= |table| && forall i :: 0 <= i < n ==> Line(style, table[i]) != []
    ensures y < |ReadRows(style, table, n)| == n && ReadRows(style, table, n)[y] == ReadRow(style, table[y], |table[y]|)
  {
    hide Line, ReadRow;
    ReadRowsLength(style, table, n);
    ReadRowsLength(style, table, n - 1);
    if y < n - 1 {
      ReadRowsAt(style, table, n - 1, y);
    }
  }

  lemma RowRoundTrip(style: Style, row: seq<SheetCell>)
    ensures SameRow(ReadRow(style, row, |row|), row) <==> forall x :: 0 <= x < |row| ==> CellSurvives(style, row[x])
  {
    hide CellSurvives, ReadCell;
    forall x | 0 <= x < |row|
      ensures ValueOf(ReadRow(style, row, |row|)[x]) == ValueOf(row[x]) <==> CellSurvives(style, row[x])
    {
      ReadRowAt(style, row, |row|, x);
      CellRoundTrip(style, row[x]);
    }
  }

  /** The round trip: a printed table reads back as the same table if and only if it survives. */
  lemma TableRoundTrip(style: Style, table: seq<seq<SheetCell>>)
    requires Readable(style)
    requires forall y :: 0 <= y < |table| ==> AllPrintable(style, table[y])
    ensures SameTable(Read(style, EncodedTable(style, table)), table) <==> TableSurvives(style, table)
  {
    hide Read, EncodedTable, AllPrintable, Line, ReadRow, CellSurvives, SameRow, NeedQuote;
    ReadPrinted(style, table);
    ReadRowsLength(style, table, |table|);
    if forall y :: 0 <= y < |table| ==> Line(style, table[y]) != [] {
      forall y | 0 <= y < |table|
        ensures SameRow(ReadRows(style, table, |table|)[y], table[y])
                <==> forall x :: 0 <= x < |table[y]| ==> CellSurvives(style, table[y][x])
      {
        ReadRowsAt(style, table, |table|, y);
        RowRoundTrip(style, table[y]);
      }
    }
  }

  /** A row of texts that prints as something and holds no zero byte. */
  predicate RowIsTold(row: seq<SheetCell>) {
    (|row| >= 2 || (|row| == 1 && row[0].text != "")) && forall x :: 0 <= x < |row| ==> HasNoZero(row[x].text)
  }

  lemma TextRowSurvives(style: Style, row: seq<SheetCell>)
    requires Readable(style) && !style.haveNull && !style.quoteCollision && !style.trimEnd
    requires forall x :: 0 <= x < |row| ==> !row[x].escaped
    ensures AllPrintable(style, row)
    ensures RowIsTold(row) <==> Line(style, row) != [] && forall x :: 0 <= x < |row| ==> CellSurvives(style, row[x])
  {
    hide NeedQuote, Line, HasNoZero;
    assert AllPrintable(style, row);
    BlankLine(style, row);
    if |row| == 1 {
      EmptyPrint(style, row[0]);
    }
  }

  /** With the null token and the guard off and nothing trimmed, a table of texts comes back exactly when every row
      has at least two cells, or one that is not empty, and no text holds a zero byte. */
  lemma TextTableRoundTrip(style: Style, table: seq<seq<SheetCell>>)
    requires Readable(style) && !style.haveNull && !style.quoteCollision && !style.trimEnd
    requires forall y, x :: 0 <= y < |table| && 0 <= x < |table[y]| ==> !table[y][x].escaped
    ensures SameTable(Read(style, EncodedTable(style, table)), table) <==>
            forall y :: 0 <= y < |table| ==> RowIsTold(table[y])
  {
    hide Read, EncodedTable, SameTable, NeedQuote, RowIsTold, CellSurvives, Line, AllPrintable, Readable;
    forall y | 0 <= y < |table|
      ensures AllPrintable(style, table[y])
      ensures RowIsTold(table[y]) <==>
              Line(style, table[y]) != [] && forall x :: 0 <= x < |table[y]| ==> CellSurvives(style, table[y][x])
    {
      TextRowSurvives(style, table[y]);
    }
    TableRoundTrip(style, table);
  }

  lemma EmptyPrint(style: Style, c: SheetCell)
    requires !style.haveNull && !style.quoteCollision && !style.trimEnd
    ensures Encoded(style, c) == [] <==> c.text == ""
  {
    BodyUntrimmed(c.text);
    if c.text != [] {
      DoubledCons(c.text);
    }
  }

  // ---------------------------------------------------------------------------
  // What goes wrong when a held-back line end is followed by a quote

  /** The first quote that directly follows a run of line ends: `text[j..i]` is that whole run. */
  lemma {:induction false} FirstOffence(text: string) returns (j: nat, i: nat)
    requires QuoteAfterTerm(text)
    ensures j < i < |text| && text[i] == QUOTE && (forall k :: j <= k < i ==> IsTerm(text[k]))
    ensures !QuoteAfterTerm(text[..j]) && !EndsInTerm(text[..j])
  {
    var last := |text| - 1;
    var front := text[..last];
    if QuoteAfterTerm(front) {
      hide QuoteAfterTerm;
      j, i := FirstOffence(front);
      assert front[..j] == text[..j];
      assert text[i] == front[i] && forall k :: j <= k < i ==> text[k] == front[k];
    } else {
      OffenceIsLast(text);
      i, j := last, last;
      while j > 0 && IsTerm(text[j - 1])
        invariant 0 <= j <= last && forall k :: j <= k < last ==> IsTerm(text[k])
      {
        j := j - 1;
      }
      FrontOfClean(front, j);
      assert front[..j] == text[..j];
    }
  }

  lemma OffenceIsLast(text: string)
    requires QuoteAfterTerm(text) && !QuoteAfterTerm(text[..|text| - 1])
    ensures |text| > 1 && IsTerm(text[|text| - 2]) && text[|text| - 1] == QUOTE
  {
    var last := |text| - 1;
    var front := text[..last];
    forall m | 0 < m < last && IsTerm(text[m - 1]) ensures text[m] != QUOTE {
      assert front[m] == text[m] && front[m - 1] == text[m - 1];
    }
    var k :| 0 < k < |text| && IsTerm(text[k - 1]) && text[k] == QUOTE;
    assert k == last;
  }

  lemma FrontOfClean(text: string, j: nat)
    requires !QuoteAfterTerm(text) && j <= |text|
    ensures !QuoteAfterTerm(text[..j])
  {
    forall m | 0 < m < j && IsTerm(text[..j][m - 1]) ensures text[..j][m] != QUOTE {
      assert text[..j][m] == text[m] && text[..j][m - 1] == text[m - 1];
    }
  }

  /** A settled front is copied with its quotes doubled, whatever follows. */
  lemma {:induction false} BodySplit(front: string, more: string, held: string)
    requires !QuoteAfterTerm(front) && !EndsInTerm(front) && (held != [] ==> front != [] && front[0] != QUOTE)
    ensures Body(front + more, true, held) == held + Doubled(front) + Body(more, true, [])
    decreases |front|
  {
    hide Body, QuoteAfterTerm, Doubled;
    if front == [] {
      DoubledNothing();
      assert held == [] && front + more == more && held + [] + Body(more, true, []) == Body(more, true, []);
    } else {
      var rest := front[1..];
      QuoteAfterTermTail(front);
      BodyStep(front + more, 0, true, held);
      assert (front + more)[0..] == front + more && (front + more)[1..] == rest + more;
      DoubledCons(front);
      assert rest != [] ==> rest[|rest| - 1] == front[|front| - 1];
      if IsTerm(front[0]) {
        BodySplit(rest, more, held + [front[0]]);
        CatTerm(held, front[0], Doubled(rest), Body(more, true, []));
      } else {
        BodySplit(rest, more, []);
        CatOther(held, front[0], Doubled(rest), Body(more, true, []));
      }
    }
  }

  lemma CatTerm(held: string, ch: char, d: string, b: string)
    ensures held + [ch] + d + b == held + ([ch] + d) + b
  {
  }

  lemma CatOther(held: string, ch: char, d: string, b: string)
    requires held != [] ==> ch != QUOTE
    ensures (if ch == QUOTE then [QUOTE] else []) + held + [ch] + ([] + d + b)
            == held + ((if ch == QUOTE then [QUOTE, QUOTE] else [ch]) + d) + b
  {
  }

  /** After a run of line ends a quote is doubled on the wrong side of the run. */
  lemma {:induction false} BodyRun(run: string, more: string, held: string)
    requires forall k :: 0 <= k < |run| ==> IsTerm(run[k])
    ensures Body(run + [QUOTE] + more, true, held) == [QUOTE] + held + run + [QUOTE] + Body(more, true, [])
    decreases |run|
  {
    hide Body;
    var text := run + [QUOTE] + more;
    BodyStep(text, 0, true, held);
    assert text[0..] == text;
    if run == [] {
      assert text[1..] == more && [QUOTE] + held + run == [QUOTE] + held;
    } else {
      assert text[1..] == run[1..] + [QUOTE] + more;
      BodyRun(run[1..], more, held + [run[0]]);
      assert [QUOTE] + (held + [run[0]]) + run[1..] == [QUOTE] + held + run;
    }
  }

  /** With trimming on, a quote right after a line end makes the parser end the field, and the row, too early:
      the first field it reports is a proper prefix of the text. */
  lemma HeldLineEndGarbles(style: Style, s: Core, c: SheetCell)
    requires (s == Start || s == NextField) && Readable(style) && style.trimEnd && QuoteAfterTerm(c.text)
    ensures var events := Run(style.delim, s, Encoded(style, c)).1;
            && |events| >= 2 && events[0].Field? && events[1] == EndRow
            && |events[0].text| < |Shown(style, c)| && IsPrefix(events[0].text, Shown(style, c))
            && |events[0].text| < |c.text|
  {
    hide Body, Doubled, Trimmed, Guarded, Run, Encoded, QuoteAfterTerm;
    var g := Guarded(style, c);
    GuardKeepsQuotes(style, c);
    var j, i := FirstOffence(g);
    OffenceIsText(c);
    var p, run, more := g[..j], g[j..i], g[i + 1..];
    assert g == p + (run + [QUOTE] + more);
    BodySplit(p, run + [QUOTE] + more, []);
    BodyRun(run, more, []);
    GarbledShape(style, c, p, run, more);
    var tail := run[1..] + [QUOTE] + Body(more, true, []) + [QUOTE];
    GarbledRun(style.delim, s, p, run[0], tail);
    TrimKeepsTo(g, i);
    assert Trimmed(g)[..j] == p;
    GuardedEnd(style, c);
  }

  lemma OffenceIsText(c: SheetCell)
    requires QuoteAfterTerm(c.text)
    ensures c.text != ""
  {
  }

  lemma GarbledShape(style: Style, c: SheetCell, p: string, run: string, more: string)
    requires !IsNullCell(style, c) && style.trimEnd && QuoteAfterTerm(c.text) && run != []
    requires Body(Guarded(style, c), true, []) ==
      [] + Doubled(p) + ([QUOTE] + [] + run + [QUOTE] + Body(more, true, []))
    ensures Encoded(style, c)
            == [QUOTE] + Doubled(p) + [QUOTE] + [run[0]] + (run[1..] + [QUOTE] + Body(more, true, []) + [QUOTE])
  {
    hide Body, Guarded, Doubled;
    assert NeedQuote(c.text, style.delim) by {
      var i :| 0 < i < |c.text| && IsTerm(c.text[i - 1]) && c.text[i] == QUOTE;
      assert IsSpecial(c.text[i], style.delim);
    }
    assert run == [run[0]] + run[1..];
  }

  lemma {:induction false} TrimKeepsTo(text: string, i: nat)
    requires i < |text| && !IsTerm(text[i])
    ensures i < |Trimmed(text)| <= |text| && Trimmed(text) == text[..|Trimmed(text)|]
  {
    if EndsInTerm(text) {
      var front := text[..|text| - 1];
      TrimKeepsTo(front, i);
      TrimmedShorter(front);
    } else {
      assert text[..|text|] == text;
    }
  }

  lemma GarbledRun(delim: char, s: Core, p: string, term: char, tail: string)
    requires (s == Start || s == NextField) && delim != QUOTE && !IsTerm(delim) && IsTerm(term)
    ensures var events := Run(delim, s, [QUOTE] + Doubled(p) + [QUOTE] + [term] + tail).1;
            |events| >= 2 && events[0] == Field(p, true) && events[1] == EndRow
  {
    hide Doubled, Run;
    var maybe := Core(FieldMightHaveEnded, true, 0, p + [QUOTE]);
    One(delim, s, QUOTE);
    QuotedRun(delim, p);
    One(delim, Inside(p), QUOTE);
    ThenQuiet(delim, s, [QUOTE], Inside([]), Doubled(p), Inside(p));
    ThenQuiet(delim, s, [QUOTE] + Doubled(p), Inside(p), [QUOTE], maybe);
    One(delim, maybe, term);
    assert (p + [QUOTE])[..|p|] == p;
    Then(delim, s, [QUOTE] + Doubled(p) + [QUOTE], maybe, [], [term], Start, [Field(p, true), EndRow]);
    RunConcat(delim, s, [QUOTE] + Doubled(p) + [QUOTE] + [term], tail);
  }

  /** The whole way by the program's own steps: print, parse the text in any chunks, load the sheet. */
  method SendTable(style: Style, table: seq<seq<SheetCell>>, cut: string -> seq<string>, blockSize: nat, sizeMax: nat,
                   canAllocate: nat -> bool)
    returns (rows: seq<seq<SheetCell>>)
    requires Readable(style) && forall y :: 0 <= y < |table| ==> AllPrintable(style, table[y])
    requires forall text :: Join(cut(text)) == text
    requires blockSize > 0 && |EncodedTable(style, table)| <= sizeMax
    requires forall n: nat :: n <= sizeMax ==> canAllocate(n)
    ensures SameTable(rows, table) <==> TableSurvives(style, table)
  {
    hide EncodedTable, Collect, TableSurvives, AllPrintable, Join, Run, Fini;
    var text := Encode(style, table);
    var events, consumed := ParseChunks(style.delim, blockSize, sizeMax, canAllocate, cut(text));
    var sheet := LoadSheet(style, events);
    rows := sheet.rows;
    TableRoundTrip(style, table);
  }
}
