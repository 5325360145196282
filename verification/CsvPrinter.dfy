/** Printing a table as CSV (src/libcoopy_core/DataSheet.cpp, `encode` and `encodeCell`). */
module CsvPrinter {
  import opened CsvParser

  /** The style settings that matter to printing and reading; the delimiter is a single character. */
  datatype Style = Style(delim: char, eol: string, nullToken: string, haveNull: bool, quoteCollision: bool,
                         trimEnd: bool, eolAtEof: bool)

  datatype SheetCell = SheetCell(text: string, escaped: bool)

  predicate IsSpecial(ch: char, delim: char) {
    ch == QUOTE || ch == '\'' || ch == delim || IsTerm(ch) || IsSpace(ch)
  }

  predicate NeedQuote(text: string, delim: char) {
    exists i :: 0 <= i < |text| && IsSpecial(text[i], delim)
  }

  /** The number of leading underscores. */
  function Score(text: string): (k: nat)
    ensures k <= |text| && (k < |text| ==> text[k] != '_')
    ensures forall i :: 0 <= i < k ==> text[i] == '_'
  {
    if text == [] || text[0] != '_' then 0 else 1 + Score(text[1..])
  }

  predicate Collides(style: Style, c: SheetCell) {
    !c.escaped && style.quoteCollision && c.text[Score(c.text)..] == style.nullToken
  }

  /** A text that reads as underscores followed by the null token gets one more underscore. */
  function Guarded(style: Style, c: SheetCell): string {
    if Collides(style, c) then "_" + c.text else c.text
  }

  predicate IsNullCell(style: Style, c: SheetCell) {
    c.text == "" && c.escaped && style.haveNull
  }

  /** The loop over the characters: quotes are doubled, and with `trim` line ends are held back in `held`
      until something else follows. */
  function Body(text: string, trim: bool, held: string): string {
    if text == [] then []
    else
      var ch := text[0];
      (if ch == QUOTE then [QUOTE] else [])
      + (if !IsTerm(ch) then held + [ch] + Body(text[1..], trim, [])
         else if trim then Body(text[1..], trim, held + [ch])
         else [ch] + Body(text[1..], trim, held))
  }

  function Encoded(style: Style, c: SheetCell): string {
    if IsNullCell(style, c) then style.nullToken
    else
      var body := Body(Guarded(style, c), style.trimEnd, []);
      if NeedQuote(c.text, style.delim) then [QUOTE] + body + [QUOTE] else body
  }

  /** The first `n` cells of a row, each followed by the delimiter. */
  function Cells(style: Style, row: seq<SheetCell>, n: nat): string
    requires n <= |row|
  {
    if n == 0 then [] else Cells(style, row, n - 1) + Encoded(style, row[n - 1]) + [style.delim]
  }

  function Line(style: Style, row: seq<SheetCell>): string {
    if row == [] then [] else Cells(style, row, |row| - 1) + Encoded(style, row[|row| - 1])
  }

  /** The first `n` rows, each followed by a line end. */
  function Lines(style: Style, table: seq<seq<SheetCell>>, n: nat): string
    requires n <= |table|
  {
    if n == 0 then [] else Lines(style, table, n - 1) + Line(style, table[n - 1]) + style.eol
  }

  function EncodedTable(style: Style, table: seq<seq<SheetCell>>): string {
    if style.eolAtEof || table == [] then Lines(style, table, |table|)
    else Lines(style, table, |table| - 1) + Line(style, table[|table| - 1])
  }

  // ---------------------------------------------------------------------------
  // The loops

  method ScanSpecial(text: string, delim: char) returns (found: bool)
    ensures found <==> NeedQuote(text, delim)
  {
    for i := 0 to |text|
      invariant forall j :: 0 <= j < i ==> !IsSpecial(text[j], delim)
    {
      if IsSpecial(text[i], delim) {
        return true;
      }
    }
    return false;
  }

  method CountUnderscores(text: string) returns (score: nat)
    ensures score == Score(text)
  {
    score := 0;
    while score < |text| && text[score] == '_'
      invariant score <= Score(text)
    {
      score := score + 1;
    }
  }

  /** What one character adds. */
  lemma BodyStep(text: string, i: nat, trim: bool, held: string)
    requires i < |text|
    ensures var ch := text[i];
            var rest := text[i + 1..];
            var twin := if ch == QUOTE then [QUOTE] else [];
            Body(text[i..], trim, held) ==
              if !IsTerm(ch) then twin + held + [ch] + Body(rest, trim, [])
              else if trim then Body(rest, trim, held + [ch])
              else [ch] + Body(rest, trim, held)
  {
    assert text[i..][1..] == text[i + 1..];
    var ch, rest := text[i], text[i + 1..];
    var twin := if ch == QUOTE then [QUOTE] else [];
    if !IsTerm(ch) {
      assert twin + (held + [ch] + Body(rest, trim, [])) == twin + held + [ch] + Body(rest, trim, []);
    } else {
      assert twin == [];
      assert [] + Body(rest, trim, held + [ch]) == Body(rest, trim, held + [ch]);
      assert [] + ([ch] + Body(rest, trim, held)) == [ch] + Body(rest, trim, held);
    }
  }

  lemma Regroup(a: string, b: string, c: string, d: string)
    ensures a + (b + c + d) == a + b + c + d
  {
  }

  method CopyBody(str: string, trim: bool) returns (result: string)
    ensures result == Body(str, trim, [])
  {
    hide Body;
    result := "";
    var held := "";
    assert str[0..] == str && [] + Body(str, trim, []) == Body(str, trim, []);
    for i := 0 to |str|
      invariant result + Body(str[i..], trim, held) == Body(str, trim, [])
    {
      var ch := str[i];
      BodyStep(str, i, trim, held);
      if ch == QUOTE {
        Regroup(result, [QUOTE], held + [ch], Body(str[i + 1..], trim, []));
        assert [QUOTE] + held + [ch] == [QUOTE] + (held + [ch]);
        result := result + [QUOTE];
      } else if !IsTerm(ch) {
        Regroup(result, [], held + [ch], Body(str[i + 1..], trim, []));
        assert [] + held + [ch] == [] + (held + [ch]) && result + [] == result;
      } else {
        Regroup(result, [ch], [], Body(str[i + 1..], trim, held));
        assert result + [ch] + [] == result + [ch] && [ch] + [] == [ch];
      }
      if !IsTerm(ch) {
        result := result + (held + [ch]);
        held := "";
      } else if trim {
        held := held + [ch];
      } else {
        result := result + [ch];
      }
    }
    assert str[|str|..] == [];
    BodyEmpty(trim, held);
    assert result + [] == result;
  }

  lemma BodyEmpty(trim: bool, held: string)
    ensures Body([], trim, held) == []
  {
  }

  method EncodeCell(style: Style, c: SheetCell) returns (result: string)
    ensures result == Encoded(style, c)
  {
    var needQuote := ScanSpecial(c.text, style.delim);
    if c.text == "" && c.escaped && style.haveNull {
      return style.nullToken;
    }
    var str := c.text;
    if !c.escaped && style.quoteCollision {
      var score := CountUnderscores(str);
      if str[score..] == style.nullToken {
        str := "_" + str;
      }
    }
    result := CopyBody(str, style.trimEnd);
    if needQuote {
      result := [QUOTE] + result + [QUOTE];
    }
  }

  /** `encode`, without header marks. */
  method Encode(style: Style, table: seq<seq<SheetCell>>) returns (result: string)
    ensures result == EncodedTable(style, table)
  {
    hide Line, Lines;
    result := "";
    var last := |table| - 1;
    NoLines(style, table);
    for y := 0 to |table|
      invariant result == if y <= last || style.eolAtEof then Lines(style, table, y)
                          else if table == [] then [] else Lines(style, table, last) + Line(style, table[last])
    {
      var line := EncodeLine(style, table[y]);
      if style.eolAtEof || y != last {
        OneMoreLine(style, table, y);
        line := line + style.eol;
      }
      result := result + line;
    }
  }

  lemma NoLines(style: Style, table: seq<seq<SheetCell>>)
    ensures Lines(style, table, 0) == []
  {
  }

  lemma OneMoreLine(style: Style, table: seq<seq<SheetCell>>, y: nat)
    requires y < |table|
    ensures Lines(style, table, y + 1) == Lines(style, table, y) + (Line(style, table[y]) + style.eol)
  {
    hide Line;
  }

  method EncodeLine(style: Style, row: seq<SheetCell>) returns (line: string)
    ensures line == Line(style, row)
  {
    hide Encoded;
    line := "";
    for x := 0 to |row|
      invariant line == if x == 0 then [] else Cells(style, row, x - 1) + Encoded(style, row[x - 1])
    {
      if x > 0 {
        line := line + [style.delim];
      }
      var cell := EncodeCell(style, row[x]);
      line := line + cell;
    }
  }
}
