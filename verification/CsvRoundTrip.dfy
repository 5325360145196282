/** Reading printed CSV back: the callbacks of src/libcsv/CsvRead.cpp on a single sheet,
    src/libcoopy_core/CsvSheet.cpp, and what survives printing and reading. */
module CsvRoundTrip {
  import opened CsvParser
  import opened CsvPrinter

  // ---------------------------------------------------------------------------
  // The reading side

  predicate IsPrefix(a: string, b: string) {
    |a| <= |b| && a == b[..|a|]
  }

  /** What survives being passed on as a zero-terminated string. */
  function CString(s: string): string {
    if s == [] || s[0] == '\0' then [] else [s[0]] + CString(s[1..])
  }

  /** `csvfile_merge_cb1` on a single sheet: the null token, and the removal of one guarding underscore. */
  function DecodeField(style: Style, raw: string): SheetCell {
    if style.haveNull && raw == style.nullToken then SheetCell(CString(raw), true)
    else if style.haveNull && style.quoteCollision && Score(raw) > 0
      && IsPrefix(raw[Score(raw)..], style.nullToken) then
      SheetCell(CString(raw[1..]), false)
    else SheetCell(CString(raw), false)
  }

  /** The record under construction and the finished rows. */
  datatype Collected = Collected(rec: seq<SheetCell>, rows: seq<seq<SheetCell>>)

  function CollectOne(style: Style, c: Collected, e: Event): Collected {
    match e
    case Field(text, _) => c.(rec := c.rec + [DecodeField(style, text)])
    case EndRow => Collected([], c.rows + [c.rec])
  }

  function Collect(style: Style, c: Collected, events: seq<Event>): Collected {
    if events == [] then c
    else CollectOne(style, Collect(style, c, events[..|events| - 1]), events[|events| - 1])
  }

  /** The rows a text reads as. */
  function Read(style: Style, text: string): seq<seq<SheetCell>> {
    var (end, events) := Run(style.delim, Start, text);
    Collect(style, Collected([], []), events + Fini(end)).rows
  }

  lemma {:induction false} CollectConcat(style: Style, c: Collected, a: seq<Event>, b: seq<Event>)
    ensures Collect(style, c, a + b) == Collect(style, Collect(style, c, a), b)
  {
    if b == [] {
      assert a + b == a;
    } else {
      CollectConcat(style, c, a, b[..|b| - 1]);
      assert (a + b)[..|a + b| - 1] == a + b[..|b| - 1];
    }
  }

  class CsvSheet {
    var rec: seq<SheetCell>
    var rows: seq<seq<SheetCell>>
    var tw: nat
    var th: nat
    var w: nat
    var h: nat
    var valid: bool

    ghost predicate Consistent()
      reads this
    {
      && tw == |rec| && th == h == |rows|
      && (forall i :: 0 <= i < |rows| ==> |rows[i]| <= w)
      && (rows != [] ==> exists i :: 0 <= i < |rows| && |rows[i]| == w)
      && (rows == [] ==> w == 0)
      && ((forall i :: 0 <= i < |rows| ==> |rows[i]| > 0) ==>
        (valid <==> forall i :: 0 <= i < |rows| ==> |rows[i]| == w))
    }

    constructor ()
      ensures Consistent() && rec == [] && rows == []
    {
      rec, rows, tw, th, w, h, valid := [], [], 0, 0, 0, 0, true;
    }

    method AddField(c: SheetCell)
      requires Consistent()
      modifies this`rec, this`tw
      ensures Consistent() && rec == old(rec) + [c]
    {
      rec := rec + [c];
      tw := tw + 1;
    }

    /** The sheet is as wide as its widest row, and `valid` as long as no non-empty row differs. */
    method AddRecord()
      requires Consistent()
      modifies this
      ensures Consistent() && rec == [] && rows == old(rows) + [old(rec)]
    {
      ghost var was := rows;
      rows := rows + [rec];
      assert forall i :: 0 <= i < |was| ==> rows[i] == was[i];
      assert rows[|was|] == rec;
      rec := [];
      if w != tw && w != 0 {
        valid := false;
      }
      if tw > w {
        w := tw;
      }
      tw := 0;
      th := th + 1;
      h := th;
    }
  }

  /** Playing the callbacks into a fresh sheet. */
  method LoadSheet(style: Style, events: seq<Event>) returns (sheet: CsvSheet)
    ensures fresh(sheet) && sheet.Consistent()
    ensures Collected(sheet.rec, sheet.rows) == Collect(style, Collected([], []), events)
  {
    sheet := new CsvSheet();
    for i := 0 to |events|
      invariant fresh(sheet) && sheet.Consistent()
      invariant Collected(sheet.rec, sheet.rows) == Collect(style, Collected([], []), events[..i])
    {
      assert events[..i + 1][..i] == events[..i];
      match events[i]
      case Field(text, _) =>
        sheet.AddField(DecodeField(style, text));
      case EndRow =>
        sheet.AddRecord();
    }
    assert events[..|events|] == events;
  }

  // ---------------------------------------------------------------------------
  // Printed cells

  function Doubled(text: string): string {
    if text == [] then []
    else Doubled(text[..|text| - 1]) + if text[|text| - 1] == QUOTE then [QUOTE, QUOTE] else [text[|text| - 1]]
  }

  /** A text without its trailing line ends. */
  function Trimmed(text: string): string {
    if text != [] && IsTerm(text[|text| - 1]) then Trimmed(text[..|text| - 1]) else text
  }

  /** A double quote directly after a line end, the one thing the held-back line ends get wrong. */
  predicate QuoteAfterTerm(text: string) {
    exists i :: 0 < i < |text| && IsTerm(text[i - 1]) && text[i] == QUOTE
  }

  /** The text a printed cell carries. */
  function Shown(style: Style, c: SheetCell): string {
    if IsNullCell(style, c) then style.nullToken
    else if style.trimEnd then Trimmed(Guarded(style, c))
    else Guarded(style, c)
  }

  predicate IsQuoted(style: Style, c: SheetCell) {
    !IsNullCell(style, c) && NeedQuote(c.text, style.delim)
  }

  /** The cells whose printed form carries their text faithfully. */
  predicate Printable(style: Style, c: SheetCell) {
    if IsNullCell(style, c) then !NeedQuote(style.nullToken, style.delim)
    else
      && (style.trimEnd ==> !QuoteAfterTerm(c.text))
      && (Collides(style, c) && style.delim == '_' ==> NeedQuote(c.text, style.delim))
  }

  lemma {:induction false} DoubledConcat(a: string, b: string)
    ensures Doubled(a + b) == Doubled(a) + Doubled(b)
  {
    if b == [] {
      assert a + b == a;
    } else {
      DoubledConcat(a, b[..|b| - 1]);
      assert (a + b)[..|a + b| - 1] == a + b[..|b| - 1];
    }
  }

  lemma DoubledOne(ch: char)
    ensures Doubled([ch]) == if ch == QUOTE then [QUOTE, QUOTE] else [ch]
  {
    assert [ch][..0] == [];
  }

  lemma DoubledCons(text: string)
    requires text != []
    ensures Doubled(text) == (if text[0] == QUOTE then [QUOTE, QUOTE] else [text[0]]) + Doubled(text[1..])
  {
    assert text == [text[0]] + text[1..];
    DoubledConcat([text[0]], text[1..]);
    DoubledOne(text[0]);
  }

  /** Without trimming the loop doubles the quotes and nothing else. */
  lemma {:induction false} BodyUntrimmed(text: string)
    ensures Body(text, false, []) == Doubled(text)
  {
    if text != [] {
      BodyUntrimmed(text[1..]);
      DoubledCons(text);
    }
  }

  lemma {:induction false} TrimmedCons(text: string)
    requires text != []
    ensures Trimmed(text) == if Trimmed(text[1..]) == [] && IsTerm(text[0]) then [] else [text[0]] + Trimmed(text[1..])
  {
    var last := |text| - 1;
    if last > 0 && IsTerm(text[last]) {
      TrimmedCons(text[..last]);
      assert text[..last][1..] == text[1..][..last - 1];
    } else if last == 0 {
      assert text[..0] == [] && text[1..] == [] && [text[0]] == text;
    } else {
      assert text == [text[0]] + text[1..];
    }
  }

  lemma QuoteAfterTermTail(text: string)
    requires text != [] && !QuoteAfterTerm(text)
    ensures !QuoteAfterTerm(text[1..]) && (IsTerm(text[0]) && text[1..] != [] ==> text[1..][0] != QUOTE)
  {
    var rest := text[1..];
    forall i | 0 < i < |rest| && IsTerm(rest[i - 1]) ensures rest[i] != QUOTE {
      assert text[i + 1] == rest[i] && text[i] == rest[i - 1];
    }
    assert rest != [] ==> rest[0] == text[1];
  }

  function TrimmedBody(text: string, held: string): string {
    if Trimmed(text) == [] then [] else held + Doubled(Trimmed(text))
  }

  lemma TrimmedBodyTerm(text: string, held: string)
    requires text != [] && IsTerm(text[0])
    ensures TrimmedBody(text, held) == TrimmedBody(text[1..], held + [text[0]])
  {
    TrimmedCons(text);
    if Trimmed(text) != [] {
      DoubledCons(Trimmed(text));
      assert Trimmed(text)[1..] == Trimmed(text[1..]);
      Regroup(held, [text[0]], Doubled(Trimmed(text[1..])), []);
    }
  }

  lemma TrimmedBodyOther(text: string, held: string)
    requires text != [] && !IsTerm(text[0]) && (held != [] ==> text[0] != QUOTE)
    ensures TrimmedBody(text, held)
            == (if text[0] == QUOTE then [QUOTE] else []) + held + [text[0]] + TrimmedBody(text[1..], [])
  {
    hide Doubled, Trimmed;
    TrimmedCons(text);
    DoubledCons(Trimmed(text));
    assert Trimmed(text)[1..] == Trimmed(text[1..]);
    var d := Doubled(Trimmed(text[1..]));
    DoubledNothing();
    assert TrimmedBody(text[1..], []) == d;
    if text[0] == QUOTE {
      assert held == [] && held + ([QUOTE, QUOTE] + d) == [QUOTE] + held + [QUOTE] + d;
    } else {
      assert held + ([text[0]] + d) == [] + held + [text[0]] + d;
    }
  }

  lemma DoubledNothing()
    ensures Doubled([]) == []
  {
  }

  /** With trimming it does the same to the trimmed text, unless a quote directly follows a line end. */
  lemma {:induction false} BodyTrimmed(text: string, held: string)
    requires !QuoteAfterTerm(text) && (held != [] && text != [] ==> text[0] != QUOTE)
    ensures Body(text, true, held) == TrimmedBody(text, held)
    decreases |text|
  {
    if text != [] {
      hide Body, TrimmedBody, QuoteAfterTerm;
      QuoteAfterTermTail(text);
      BodyStep(text, 0, true, held);
      assert text[0..] == text;
      if IsTerm(text[0]) {
        BodyTrimmed(text[1..], held + [text[0]]);
        TrimmedBodyTerm(text, held);
      } else {
        BodyTrimmed(text[1..], []);
        TrimmedBodyOther(text, held);
      }
    }
  }

  lemma GuardKeepsQuotes(style: Style, c: SheetCell)
    ensures QuoteAfterTerm(Guarded(style, c)) <==> QuoteAfterTerm(c.text)
  {
    var g := Guarded(style, c);
    if Collides(style, c) {
      assert forall i :: 0 <= i < |c.text| ==> g[i + 1] == c.text[i];
      if QuoteAfterTerm(c.text) {
        var i :| 0 < i < |c.text| && IsTerm(c.text[i - 1]) && c.text[i] == QUOTE;
        assert IsTerm(g[i + 1 - 1]) && g[i + 1] == QUOTE;
      }
    }
  }

  /** A printable cell prints as its shown text, quoted and doubled or bare. */
  lemma PrintedForm(style: Style, c: SheetCell)
    requires Printable(style, c)
    ensures Encoded(style, c) ==
            if IsQuoted(style, c) then [QUOTE] + Doubled(Shown(style, c)) + [QUOTE] else Shown(style, c)
    ensures !IsQuoted(style, c) ==> !NeedQuote(Shown(style, c), style.delim)
  {
    if !IsNullCell(style, c) {
      var g := Guarded(style, c);
      if style.trimEnd {
        GuardKeepsQuotes(style, c);
        BodyTrimmed(g, []);
        assert [] + Doubled(Trimmed(g)) == Doubled(Trimmed(g));
      } else {
        BodyUntrimmed(g);
      }
      if !NeedQuote(c.text, style.delim) {
        GuardStaysPlain(style, c);
        PlainStaysPlain(g, style.delim);
      }
    }
  }

  lemma GuardStaysPlain(style: Style, c: SheetCell)
    requires !NeedQuote(c.text, style.delim) && !(Collides(style, c) && style.delim == '_')
    ensures !NeedQuote(Guarded(style, c), style.delim)
  {
    var g := Guarded(style, c);
    forall i | 0 <= i < |g| ensures !IsSpecial(g[i], style.delim) {
      if Collides(style, c) && i > 0 {
        assert g[i] == c.text[i - 1];
      }
    }
  }

  lemma {:induction false} PlainStaysPlain(text: string, delim: char)
    requires !NeedQuote(text, delim)
    ensures Doubled(text) == text && Trimmed(text) == text && (text != [] ==> !IsTerm(text[|text| - 1]))
  {
    if text != [] {
      var front := text[..|text| - 1];
      PlainFront(text, delim);
      PlainStaysPlain(front, delim);
      hide NeedQuote;
      assert text == front + [text[|text| - 1]];
    }
  }

  lemma PlainFront(text: string, delim: char)
    requires text != [] && !NeedQuote(text, delim)
    ensures !NeedQuote(text[..|text| - 1], delim) && !IsSpecial(text[|text| - 1], delim)
  {
    var front := text[..|text| - 1];
    forall i | 0 <= i < |front| ensures !IsSpecial(front[i], delim) {
      assert front[i] == text[i];
    }
  }

  // ---------------------------------------------------------------------------
  // Parsing what was printed

  ghost predicate Goes(delim: char, s: Core, input: string, t: Core, events: seq<Event>) {
    Run(delim, s, input) == (t, events)
  }

  lemma Then(delim: char, s: Core, a: string, t: Core, e: seq<Event>, b: string, u: Core, f: seq<Event>)
    requires Goes(delim, s, a, t, e) && Goes(delim, t, b, u, f)
    ensures Goes(delim, s, a + b, u, e + f)
  {
    RunConcat(delim, s, a, b);
  }

  /** Two stretches without callbacks. */
  lemma ThenQuiet(delim: char, s: Core, a: string, t: Core, b: string, u: Core)
    requires Goes(delim, s, a, t, []) && Goes(delim, t, b, u, [])
    ensures Goes(delim, s, a + b, u, [])
  {
    Then(delim, s, a, t, [], b, u, []);
    var none: seq<Event> := [];
    assert none + none == none;
  }

  lemma One(delim: char, s: Core, c: char)
    ensures Goes(delim, s, [c], Step(delim, s, c).0, Step(delim, s, c).1)
  {
    RunOne(delim, s, c);
  }

  function Inside(text: string): Core {
    Core(FieldBegun, true, 0, text)
  }

  /** Inside a quoted field a doubled text is taken in as it was. */
  lemma {:induction false} QuotedRun(delim: char, text: string)
    requires delim != QUOTE
    ensures Goes(delim, Inside([]), Doubled(text), Inside(text), [])
  {
    hide Goes;
    if text == [] {
      Nothing(delim, Inside([]));
    } else {
      var front, last := text[..|text| - 1], text[|text| - 1];
      assert text == front + [last];
      QuotedRun(delim, front);
      if last == QUOTE {
        var maybe := Core(FieldMightHaveEnded, true, 0, text);
        One(delim, Inside(front), QUOTE);
        One(delim, maybe, QUOTE);
        ThenQuiet(delim, Inside(front), [QUOTE], maybe, [QUOTE], Inside(text));
        assert [QUOTE] + [QUOTE] == [QUOTE, QUOTE];
        ThenQuiet(delim, Inside([]), Doubled(front), Inside(front), [QUOTE, QUOTE], Inside(text));
      } else {
        One(delim, Inside(front), last);
        ThenQuiet(delim, Inside([]), Doubled(front), Inside(front), [last], Inside(text));
      }
    }
  }

  lemma Nothing(delim: char, s: Core)
    ensures Goes(delim, s, [], s, [])
  {
  }

  function Bare(text: string): Core {
    Core(FieldBegun, false, 0, text)
  }

  lemma {:induction false} BareRun(delim: char, s: Core, text: string)
    requires (s == Start || s == NextField) && text != [] && !NeedQuote(text, delim)
    ensures Goes(delim, s, text, Bare(text), [])
  {
    hide Goes;
    var front, last := text[..|text| - 1], text[|text| - 1];
    assert text == front + [last] && !IsSpecial(last, delim);
    if front == [] {
      assert text == [last];
      One(delim, s, last);
    } else {
      assert forall i :: 0 <= i < |front| ==> front[i] == text[i];
      BareRun(delim, s, front);
      One(delim, Bare(front), last);
      ThenQuiet(delim, s, front, Bare(front), [last], Bare(text));
    }
  }

  /** The parser at the end of a printed cell. */
  function AfterCell(style: Style, s: Core, c: SheetCell): Core {
    if IsQuoted(style, c) then Core(FieldMightHaveEnded, true, 0, Shown(style, c) + [QUOTE])
    else if Shown(style, c) == [] then s
    else Bare(Shown(style, c))
  }

  lemma CellRun(style: Style, s: Core, c: SheetCell)
    requires (s == Start || s == NextField) && style.delim != QUOTE && Printable(style, c)
    ensures Goes(style.delim, s, Encoded(style, c), AfterCell(style, s, c), [])
  {
    hide Goes, Encoded, Printable, Shown, IsQuoted, NeedQuote, Doubled;
    PrintedForm(style, c);
    var text := Shown(style, c);
    if IsQuoted(style, c) {
      One(style.delim, s, QUOTE);
      QuotedRun(style.delim, text);
      One(style.delim, Inside(text), QUOTE);
      ThenQuiet(style.delim, s, [QUOTE], Inside([]), Doubled(text), Inside(text));
      ThenQuiet(style.delim, s, [QUOTE] + Doubled(text), Inside(text), [QUOTE], AfterCell(style, s, c));
    } else if text == [] {
      Nothing(style.delim, s);
    } else {
      BareRun(style.delim, s, text);
    }
  }

  function CellEvent(style: Style, c: SheetCell): Event {
    Field(Shown(style, c), IsQuoted(style, c))
  }

  predicate Readable(style: Style) {
    && style.delim != QUOTE && !IsTerm(style.delim)
    && style.eol != [] && forall i :: 0 <= i < |style.eol| ==> IsTerm(style.eol[i])
  }

  /** The field submitted at the end of a printed cell is the shown text. */
  lemma CellField(style: Style, s: Core, c: SheetCell)
    requires s == Start || s == NextField
    ensures var t := AfterCell(style, s, c);
            FieldOf(if t.pstate.FieldMightHaveEnded? then t.(entry := Chop(t.entry, t.spaces + 1)) else t) ==
              CellEvent(style, c)
  {
    hide Shown, IsQuoted;
    var text := Shown(style, c);
    assert (text + [QUOTE])[..|text|] == text && text[..|text|] == text;
    assert s.entry[..0] == s.entry;
  }

  lemma CellThenDelim(style: Style, s: Core, c: SheetCell)
    requires (s == Start || s == NextField) && Readable(style) && Printable(style, c)
    ensures Goes(style.delim, s, Encoded(style, c) + [style.delim], NextField, [CellEvent(style, c)])
  {
    hide Goes, Encoded, Printable, Shown, IsQuoted, CellEvent;
    CellRun(style, s, c);
    CellField(style, s, c);
    var t := AfterCell(style, s, c);
    One(style.delim, t, style.delim);
    Then(style.delim, s, Encoded(style, c), t, [], [style.delim], NextField, [CellEvent(style, c)]);
    assert [] + [CellEvent(style, c)] == [CellEvent(style, c)];
  }

  function CellEvents(style: Style, row: seq<SheetCell>, n: nat): seq<Event>
    requires n <= |row|
  {
    if n == 0 then [] else CellEvents(style, row, n - 1) + [CellEvent(style, row[n - 1])]
  }

  lemma {:induction false} CellsRun(style: Style, row: seq<SheetCell>, n: nat)
    requires Readable(style) && n <= |row| && forall i :: 0 <= i < n ==> Printable(style, row[i])
    ensures Goes(style.delim, Start, Cells(style, row, n), if n == 0 then Start else NextField,
                 CellEvents(style, row, n))
  {
    hide Goes, Encoded, Printable, CellEvent;
    if n == 0 {
      Nothing(style.delim, Start);
    } else {
      CellsRun(style, row, n - 1);
      var s, c := if n - 1 == 0 then Start else NextField, row[n - 1];
      CellThenDelim(style, s, c);
      Then(style.delim, Start, Cells(style, row, n - 1), s, CellEvents(style, row, n - 1),
           Encoded(style, c) + [style.delim], NextField, [CellEvent(style, c)]);
      assert Cells(style, row, n) == Cells(style, row, n - 1) + (Encoded(style, c) + [style.delim]);
    }
  }

  function RowEvents(style: Style, row: seq<SheetCell>): seq<Event> {
    if Line(style, row) == [] then [] else CellEvents(style, row, |row|) + [EndRow]
  }

  /** The parser at the end of a printed line. */
  function AfterLine(style: Style, row: seq<SheetCell>): Core {
    if row == [] then Start
    else AfterCell(style, if |row| == 1 then Start else NextField, row[|row| - 1])
  }

  function LineEvents(style: Style, row: seq<SheetCell>): seq<Event> {
    if row == [] then [] else CellEvents(style, row, |row| - 1)
  }

  ghost predicate AllPrintable(style: Style, row: seq<SheetCell>) {
    forall i :: 0 <= i < |row| ==> Printable(style, row[i])
  }

  lemma LineRun(style: Style, row: seq<SheetCell>)
    requires Readable(style) && AllPrintable(style, row)
    ensures Goes(style.delim, Start, Line(style, row), AfterLine(style, row), LineEvents(style, row))
  {
    hide Goes, Encoded, Printable, AfterCell, CellEvent;
    if row == [] {
      Nothing(style.delim, Start);
    } else {
      var last := |row| - 1;
      var s := if last == 0 then Start else NextField;
      CellsRun(style, row, last);
      CellRun(style, s, row[last]);
      Then(style.delim, Start, Cells(style, row, last), s, CellEvents(style, row, last),
           Encoded(style, row[last]), AfterCell(style, s, row[last]), []);
      assert CellEvents(style, row, last) + [] == CellEvents(style, row, last);
    }
  }

  /** A line leaves the parser at the start exactly when it prints as nothing: no cell, or one empty cell. */
  lemma BlankLine(style: Style, row: seq<SheetCell>)
    requires AllPrintable(style, row)
    ensures AfterLine(style, row) == Start <==> Line(style, row) == []
    ensures Line(style, row) == [] <==> row == [] || (|row| == 1 && Encoded(style, row[0]) == [])
    ensures Line(style, row) == [] ==> LineEvents(style, row) == []
  {
    hide Encoded, Printable;
    if row != [] {
      PrintedForm(style, row[|row| - 1]);
    }
  }

  /** What ends a line submits its last field and the row. */
  lemma LineEnd(style: Style, row: seq<SheetCell>)
    requires AllPrintable(style, row)
    ensures LineEvents(style, row) + Fini(AfterLine(style, row)) == RowEvents(style, row)
    ensures forall c :: IsTerm(c) && c != style.delim && style.delim != QUOTE ==>
              Step(style.delim, AfterLine(style, row), c) == (Start, Fini(AfterLine(style, row)))
  {
    hide Encoded, Printable, Shown, IsQuoted, CellEvent, Line;
    BlankLine(style, row);
    if row != [] {
      var s, last := if |row| == 1 then Start else NextField, |row| - 1;
      CellField(style, s, row[last]);
      assert LineEvents(style, row) + [CellEvent(style, row[last]), EndRow]
             == CellEvents(style, row, |row|) + [EndRow];
    }
  }

  lemma {:induction false} BlankRun(delim: char, eol: string)
    requires !IsTerm(delim) && forall i :: 0 <= i < |eol| ==> IsTerm(eol[i])
    ensures Goes(delim, Start, eol, Start, [])
  {
    hide Goes;
    if eol == [] {
      Nothing(delim, Start);
    } else {
      var front, last := eol[..|eol| - 1], eol[|eol| - 1];
      assert eol == front + [last];
      BlankRun(delim, front);
      One(delim, Start, last);
      ThenQuiet(delim, Start, front, Start, [last], Start);
    }
  }

  lemma LineThenEol(style: Style, row: seq<SheetCell>)
    requires Readable(style) && AllPrintable(style, row)
    ensures Goes(style.delim, Start, Line(style, row) + style.eol, Start, RowEvents(style, row))
  {
    hide Goes, Line, AfterLine, LineEvents, RowEvents, AllPrintable, Step, Fini;
    var t := AfterLine(style, row);
    var first, more := style.eol[0], style.eol[1..];
    assert style.eol == [first] + more;
    LineRun(style, row);
    LineEnd(style, row);
    One(style.delim, t, first);
    BlankRun(style.delim, more);
    Then(style.delim, t, [first], Start, Fini(t), more, Start, []);
    assert Fini(t) + [] == Fini(t);
    Then(style.delim, Start, Line(style, row), t, LineEvents(style, row), style.eol, Start, Fini(t));
  }

  function TableEvents(style: Style, table: seq<seq<SheetCell>>, n: nat): seq<Event>
    requires n <= |table|
  {
    if n == 0 then [] else TableEvents(style, table, n - 1) + RowEvents(style, table[n - 1])
  }

  lemma {:induction false} LinesRun(style: Style, table: seq<seq<SheetCell>>, n: nat)
    requires Readable(style) && n <= |table| && forall y :: 0 <= y < n ==> AllPrintable(style, table[y])
    ensures Goes(style.delim, Start, Lines(style, table, n), Start, TableEvents(style, table, n))
  {
    hide Goes, Line, RowEvents, AllPrintable;
    if n == 0 {
      Nothing(style.delim, Start);
    } else {
      LinesRun(style, table, n - 1);
      LineThenEol(style, table[n - 1]);
      Then(style.delim, Start, Lines(style, table, n - 1), Start, TableEvents(style, table, n - 1),
           Line(style, table[n - 1]) + style.eol, Start, RowEvents(style, table[n - 1]));
      assert Lines(style, table, n) == Lines(style, table, n - 1) + (Line(style, table[n - 1]) + style.eol);
    }
  }

  /** Parsing a printed table makes exactly the callbacks of its rows, with or without a final line end. */
  lemma TableRun(style: Style, table: seq<seq<SheetCell>>)
    requires Readable(style) && forall y :: 0 <= y < |table| ==> AllPrintable(style, table[y])
    ensures var (end, events) := Run(style.delim, Start, EncodedTable(style, table));
            events + Fini(end) == TableEvents(style, table, |table|)
  {
    hide Line, RowEvents, AllPrintable, Run;
    if style.eolAtEof || table == [] {
      LinesRun(style, table, |table|);
      assert TableEvents(style, table, |table|) + [] == TableEvents(style, table, |table|);
    } else {
      var last := |table| - 1;
      var row := table[last];
      LinesRun(style, table, last);
      LineRun(style, row);
      LineEnd(style, row);
      Then(style.delim, Start, Lines(style, table, last), Start, TableEvents(style, table, last),
           Line(style, row), AfterLine(style, row), LineEvents(style, row));
      assert (TableEvents(style, table, last) + LineEvents(style, row)) + Fini(AfterLine(style, row))
             == TableEvents(style, table, last) + (LineEvents(style, row) + Fini(AfterLine(style, row)));
    }
  }

  // ---------------------------------------------------------------------------
  // What a table reads back as

  function ReadCell(style: Style, c: SheetCell): SheetCell {
    DecodeField(style, Shown(style, c))
  }

  function ReadRow(style: Style, row: seq<SheetCell>, n: nat): (r: seq<SheetCell>)
    requires n <= |row|
    ensures |r| == n
  {
    if n == 0 then [] else ReadRow(style, row, n - 1) + [ReadCell(style, row[n - 1])]
  }

  /** The rows that print as something, each cell as it reads back. */
  function ReadRows(style: Style, table: seq<seq<SheetCell>>, n: nat): seq<seq<SheetCell>>
    requires n <= |table|
  {
    if n == 0 then []
    else if Line(style, table[n - 1]) == [] then ReadRows(style, table, n - 1)
    else ReadRows(style, table, n - 1) + [ReadRow(style, table[n - 1], |table[n - 1]|)]
  }

  lemma {:induction false} CollectCells(style: Style, rows: seq<seq<SheetCell>>, row: seq<SheetCell>, n: nat)
    requires n <= |row|
    ensures Collect(style, Collected([], rows), CellEvents(style, row, n)) == Collected(ReadRow(style, row, n), rows)
  {
    if n > 0 {
      CollectCells(style, rows, row, n - 1);
      var events := CellEvents(style, row, n);
      assert events[..|events| - 1] == CellEvents(style, row, n - 1);
    }
  }

  lemma CollectRow(style: Style, rows: seq<seq<SheetCell>>, row: seq<SheetCell>)
    ensures Collect(style, Collected([], rows), RowEvents(style, row))
            == Collected([], if Line(style, row) == [] then rows else rows + [ReadRow(style, row, |row|)])
  {
    if Line(style, row) != [] {
      hide DecodeField, Line;
      CollectCells(style, rows, row, |row|);
      var events := CellEvents(style, row, |row|);
      assert (events + [EndRow])[..|events|] == events;
    }
  }

  lemma CollectNothing(style: Style)
    ensures Collect(style, Collected([], []), []) == Collected([], [])
  {
  }

  lemma {:induction false} CollectTable(style: Style, table: seq<seq<SheetCell>>, n: nat)
    requires n <= |table|
    ensures Collect(style, Collected([], []), TableEvents(style, table, n)) == Collected([], ReadRows(style, table, n))
  {
    hide RowEvents, Line, Collect, ReadRow;
    CollectNothing(style);
    if n > 0 {
      CollectTable(style, table, n - 1);
      CollectConcat(style, Collected([], []), TableEvents(style, table, n - 1), RowEvents(style, table[n - 1]));
      CollectRow(style, ReadRows(style, table, n - 1), table[n - 1]);
    }
  }

  /** Printing and reading: every row that prints as something comes back, cell by cell. */
  lemma ReadPrinted(style: Style, table: seq<seq<SheetCell>>)
    requires Readable(style) && forall y :: 0 <= y < |table| ==> AllPrintable(style, table[y])
    ensures Read(style, EncodedTable(style, table)) == ReadRows(style, table, |table|)
  {
    hide Run, Fini, Collect, EncodedTable, TableEvents, AllPrintable;
    TableRun(style, table);
    CollectTable(style, table, |table|);
  }
}
