/** What any text reads as: a grammar for what `csv_parse` accepts (src/libcsv/libcsv.c), quoted sloppily or not, and
    the proof that the parser reads every text by it, in the only way there is. */
module CsvGrammar {
  import opened CsvParser

  // ---------------------------------------------------------------------------
  // The grammar

  /** A space or tab that is not the delimiter. */
  predicate Blank(delim: char, c: char) {
    IsSpace(c) && c != delim
  }

  predicate Blanks(delim: char, pad: seq<char>) {
    forall i :: 0 <= i < |pad| ==> Blank(delim, pad[i])
  }

  /** What closes a field that has begun. */
  predicate Closes(delim: char, c: char) {
    c != QUOTE && (c == delim || IsTerm(c))
  }

  /** An unquoted field: no quote or blank in front, no blank at the end, and nothing in it that would close it. */
  predicate IsBody(delim: char, body: seq<char>) {
    && |body| > 0
    && body[0] != QUOTE && body[0] != delim && !IsSpace(body[0])
    && !Blank(delim, body[|body| - 1])
    && forall i :: 0 <= i < |body| ==> !Closes(delim, body[i])
  }

  /** A piece of a quoted field: a character other than a quote; a doubled quote; a lone quote, any blanks, and a
      character that cannot follow a closing quote; or a lone quote and some blanks before another quote. */
  datatype Token = Plain(c: char) | Pair | Stray(pad: seq<char>, c: char) | Loose(pad: seq<char>) {
    function Text(): seq<char> {
      match this
      case Plain(c) => [c]
      case Pair => [QUOTE, QUOTE]
      case Stray(pad, c) => [QUOTE] + pad + [c]
      case Loose(pad) => [QUOTE] + pad
    }

    /** All but a doubled quote stand for themselves. */
    function Value(): seq<char> {
      if Pair? then [QUOTE] else Text()
    }

    predicate Fits(delim: char) {
      match this
      case Plain(c) => c != QUOTE
      case Pair => true
      case Stray(pad, c) => Blanks(delim, pad) && c != QUOTE && !IsSpace(c) && !Closes(delim, c)
      case Loose(pad) => Blanks(delim, pad) && pad != []
    }
  }

  function TokensText(tokens: seq<Token>): seq<char> {
    if tokens == [] then [] else TokensText(tokens[..|tokens| - 1]) + tokens[|tokens| - 1].Text()
  }

  function Value(tokens: seq<Token>): seq<char> {
    if tokens == [] then [] else Value(tokens[..|tokens| - 1]) + tokens[|tokens| - 1].Value()
  }

  predicate EndsLoose(tokens: seq<Token>) {
    tokens != [] && tokens[|tokens| - 1].Loose?
  }

  predicate AreTokens(delim: char, tokens: seq<Token>) {
    && (forall i :: 0 <= i < |tokens| ==> tokens[i].Fits(delim))
    && (forall i :: 0 <= i < |tokens| - 1 && tokens[i].Loose? ==> !tokens[i + 1].Plain?)
  }

  /** A character that is skipped between fields; a field with nothing in it; an unquoted and a quoted field, each
      with the blanks after it. All but the first end in what closes the field. */
  datatype Item =
    | Skip(c: char)
    | Empty(close: char)
    | Bare(body: seq<char>, pad: seq<char>, close: char)
    | Quoted(tokens: seq<Token>, pad: seq<char>, close: char)
  {
    function Text(): seq<char> {
      match this
      case Skip(c) => [c]
      case Empty(close) => [close]
      case Bare(body, pad, close) => body + pad + [close]
      case Quoted(tokens, pad, close) => [QUOTE] + TokensText(tokens) + [QUOTE] + pad + [close]
    }

    /** Blanks are skipped anywhere and line ends before a row; an empty field ends at the delimiter, or at a line end
        inside a row. */
    predicate Fits(delim: char, rowStart: bool) {
      match this
      case Skip(c) => Blank(delim, c) || (rowStart && IsTerm(c))
      case Empty(close) => if IsTerm(close) then !rowStart else close == delim
      case Bare(body, pad, close) => IsBody(delim, body) && Blanks(delim, pad) && Closes(delim, close)
      case Quoted(tokens, pad, close) =>
        delim != QUOTE && AreTokens(delim, tokens) && Blanks(delim, pad) && Closes(delim, close)
    }

    predicate EndsRow(delim: char)
      requires !Skip?
    {
      if Empty? then IsTerm(close) else close != delim
    }

    function Callbacks(delim: char): seq<Event> {
      match this
      case Skip(_) => []
      case Empty(_) => [Field([], false)] + if EndsRow(delim) then [EndRow] else []
      case Bare(body, _, _) => [Field(body, false)] + if EndsRow(delim) then [EndRow] else []
      case Quoted(tokens, _, _) => [Field(Value(tokens), true)] + if EndsRow(delim) then [EndRow] else []
    }
  }

  function ItemsText(items: seq<Item>): seq<char> {
    if items == [] then [] else ItemsText(items[..|items| - 1]) + items[|items| - 1].Text()
  }

  predicate AtRowStart(delim: char, items: seq<Item>) {
    if items == [] then true
    else if items[|items| - 1].Skip? then AtRowStart(delim, items[..|items| - 1])
    else items[|items| - 1].EndsRow(delim)
  }

  predicate AreItems(delim: char, items: seq<Item>) {
    forall i :: 0 <= i < |items| ==> items[i].Fits(delim, AtRowStart(delim, items[..i]))
  }

  function ItemCallbacks(delim: char, items: seq<Item>): seq<Event> {
    if items == [] then [] else ItemCallbacks(delim, items[..|items| - 1]) + items[|items| - 1].Callbacks(delim)
  }

  /** A field the text ends in: unquoted, quoted and not closed, or quoted and closed. */
  datatype Tail = Nothing | OpenBare(body: seq<char>, pad: seq<char>) | OpenQuoted(tokens: seq<Token>)
                | Ended(tokens: seq<Token>, pad: seq<char>)
  {
    function Text(): seq<char> {
      match this
      case Nothing => []
      case OpenBare(body, pad) => body + pad
      case OpenQuoted(tokens) => [QUOTE] + TokensText(tokens)
      case Ended(tokens, pad) => [QUOTE] + TokensText(tokens) + [QUOTE] + pad
    }

    predicate Fits(delim: char) {
      match this
      case Nothing => true
      case OpenBare(body, pad) => IsBody(delim, body) && Blanks(delim, pad)
      case OpenQuoted(tokens) => delim != QUOTE && AreTokens(delim, tokens) && !EndsLoose(tokens)
      case Ended(tokens, pad) => delim != QUOTE && AreTokens(delim, tokens) && Blanks(delim, pad)
    }

    /** A field is made even of nothing when a row is under way. */
    function Callbacks(rowStart: bool): seq<Event> {
      match this
      case Nothing => if rowStart then [] else [Field([], false), EndRow]
      case OpenBare(body, _) => [Field(body, false), EndRow]
      case OpenQuoted(tokens) => [Field(Value(tokens), true), EndRow]
      case Ended(tokens, _) => [Field(Value(tokens), true), EndRow]
    }
  }

  datatype Reading = Reading(items: seq<Item>, tail: Tail) {
    function Text(): seq<char> {
      ItemsText(items) + tail.Text()
    }

    predicate Fits(delim: char) {
      AreItems(delim, items) && tail.Fits(delim)
    }

    function Callbacks(delim: char): seq<Event> {
      ItemCallbacks(delim, items) + tail.Callbacks(AtRowStart(delim, items))
    }

    /** The parser's state once it has read this much. */
    function State(delim: char): Core {
      match tail
      case Nothing => if AtRowStart(delim, items) then Start else NextField
      case OpenBare(body, pad) => Core(FieldBegun, false, |pad|, body + pad)
      case OpenQuoted(tokens) => Core(FieldBegun, true, 0, Value(tokens))
      case Ended(tokens, pad) => Core(FieldMightHaveEnded, true, |pad|, Value(tokens) + [QUOTE] + pad)
    }
  }

  // ---------------------------------------------------------------------------
  // One more character

  function Close(r: Reading, item: Item): Reading {
    Reading(r.items + [item], Nothing)
  }

  function Extend(delim: char, r: Reading, c: char): Reading {
    match r.tail
    case Nothing =>
      if Blank(delim, c) || (AtRowStart(delim, r.items) && IsTerm(c)) then Close(r, Skip(c))
      else if IsTerm(c) || c == delim then Close(r, Empty(c))
      else if c == QUOTE then r.(tail := OpenQuoted([]))
      else r.(tail := OpenBare([c], []))
    case OpenBare(body, pad) =>
      if Closes(delim, c) then Close(r, Bare(body, pad, c))
      else if Blank(delim, c) then r.(tail := OpenBare(body, pad + [c]))
      else r.(tail := OpenBare(body + pad + [c], []))
    case OpenQuoted(tokens) =>
      if c == QUOTE then r.(tail := Ended(tokens, [])) else r.(tail := OpenQuoted(tokens + [Plain(c)]))
    case Ended(tokens, pad) =>
      if Closes(delim, c) then Close(r, Quoted(tokens, pad, c))
      else if Blank(delim, c) then r.(tail := Ended(tokens, pad + [c]))
      else if c != QUOTE then r.(tail := OpenQuoted(tokens + [Stray(pad, c)]))
      else if pad == [] then r.(tail := OpenQuoted(tokens + [Pair]))
      else r.(tail := Ended(tokens + [Loose(pad)], []))
  }

  lemma NextItem(delim: char, items: seq<Item>, item: Item)
    ensures ItemsText(items + [item]) == ItemsText(items) + item.Text()
    ensures ItemCallbacks(delim, items + [item]) == ItemCallbacks(delim, items) + item.Callbacks(delim)
    ensures AtRowStart(delim, items + [item]) == if item.Skip? then AtRowStart(delim, items) else item.EndsRow(delim)
  {
    assert (items + [item])[..|items|] == items;
  }

  lemma ItemsGrow(delim: char, items: seq<Item>, item: Item)
    requires AreItems(delim, items) && item.Fits(delim, AtRowStart(delim, items))
    ensures AreItems(delim, items + [item])
  {
    var all := items + [item];
    assert forall i :: 0 <= i <= |items| ==> all[..i] == items[..i];
    assert items[..|items|] == items;
  }

  lemma NextToken(tokens: seq<Token>, token: Token)
    ensures TokensText(tokens + [token]) == TokensText(tokens) + token.Text()
    ensures Value(tokens + [token]) == Value(tokens) + token.Value()
  {
    assert (tokens + [token])[..|tokens|] == tokens;
  }

  lemma TokensGrow(delim: char, tokens: seq<Token>, token: Token)
    requires AreTokens(delim, tokens) && token.Fits(delim) && (EndsLoose(tokens) ==> !token.Plain?)
    ensures AreTokens(delim, tokens + [token])
  {
  }

  lemma Assoc<T>(a: seq<T>, b: seq<T>, c: seq<T>)
    ensures a + (b + c) == (a + b) + c && a + [] == a && [] + a == a
  {
  }

  lemma CloseFits(delim: char, r: Reading, item: Item, c: char)
    requires r.Fits(delim) && item.Fits(delim, AtRowStart(delim, r.items)) && item.Text() == r.tail.Text() + [c]
    ensures Close(r, item).Fits(delim) && Close(r, item).Text() == r.Text() + [c]
  {
    hide AreItems, ItemsText, AtRowStart, Item.Fits, Item.Text;
    NextItem(delim, r.items, item);
    ItemsGrow(delim, r.items, item);
    Assoc(ItemsText(r.items), r.tail.Text(), [c]);
    Assoc(ItemsText(r.items + [item]), [], []);
  }

  lemma OpenFits(delim: char, r: Reading, tail: Tail, c: char)
    requires r.Fits(delim) && tail.Fits(delim) && tail.Text() == r.tail.Text() + [c]
    ensures r.(tail := tail).Fits(delim) && r.(tail := tail).Text() == r.Text() + [c]
  {
    hide AreItems, ItemsText, Tail.Text, Tail.Fits;
    Assoc(ItemsText(r.items), r.tail.Text(), [c]);
  }

  lemma ExtendNothing(delim: char, r: Reading, c: char)
    requires r.Fits(delim) && r.tail.Nothing?
    ensures Extend(delim, r, c).Fits(delim) && Extend(delim, r, c).Text() == r.Text() + [c]
  {
    hide AreItems, ItemsText, AtRowStart, Reading.Fits, Reading.Text;
    if Blank(delim, c) || (AtRowStart(delim, r.items) && IsTerm(c)) {
      CloseFits(delim, r, Skip(c), c);
    } else if IsTerm(c) || c == delim {
      CloseFits(delim, r, Empty(c), c);
    } else if c == QUOTE {
      OpenFits(delim, r, OpenQuoted([]), c);
    } else {
      OpenFits(delim, r, OpenBare([c], []), c);
    }
  }

  lemma ExtendBare(delim: char, r: Reading, c: char)
    requires r.Fits(delim) && r.tail.OpenBare?
    ensures Extend(delim, r, c).Fits(delim) && Extend(delim, r, c).Text() == r.Text() + [c]
  {
    hide AreItems, ItemsText, AtRowStart, Reading.Text;
    var body, pad := r.tail.body, r.tail.pad;
    if Closes(delim, c) {
      CloseFits(delim, r, Bare(body, pad, c), c);
    } else if Blank(delim, c) {
      OpenFits(delim, r, OpenBare(body, pad + [c]), c);
    } else {
      BodyGrows(delim, body, pad, c);
      OpenFits(delim, r, OpenBare(body + pad + [c], []), c);
    }
  }

  lemma BodyGrows(delim: char, body: seq<char>, pad: seq<char>, c: char)
    requires IsBody(delim, body) && Blanks(delim, pad) && !Closes(delim, c) && !Blank(delim, c)
    ensures IsBody(delim, body + pad + [c])
  {
    forall i | 0 <= i < |body + pad| ensures !Closes(delim, (body + pad)[i]) {
    }
  }

  lemma ExtendOpen(delim: char, r: Reading, c: char)
    requires r.Fits(delim) && r.tail.OpenQuoted?
    ensures Extend(delim, r, c).Fits(delim) && Extend(delim, r, c).Text() == r.Text() + [c]
  {
    hide AreItems, ItemsText, AtRowStart, Reading.Text;
    var tokens := r.tail.tokens;
    if c == QUOTE {
      OpenFits(delim, r, Ended(tokens, []), c);
    } else {
      NextToken(tokens, Plain(c));
      TokensGrow(delim, tokens, Plain(c));
      hide TokensText, AreTokens;
      OpenFits(delim, r, OpenQuoted(tokens + [Plain(c)]), c);
    }
  }

  lemma MoreContent(text: seq<char>, token: Token, pad: seq<char>, c: char)
    requires token == Stray(pad, c) || (c == QUOTE && pad == [] && token == Pair)
    ensures [QUOTE] + (text + token.Text()) == ([QUOTE] + text + [QUOTE] + pad) + [c]
  {
  }

  lemma MoreQuotes(text: seq<char>, pad: seq<char>)
    ensures [QUOTE] + (text + Loose(pad).Text()) + [QUOTE] + [] == ([QUOTE] + text + [QUOTE] + pad) + [QUOTE]
  {
  }

  lemma ExtendContent(delim: char, r: Reading, token: Token, c: char)
    requires r.Fits(delim) && r.tail.Ended? && token.Fits(delim)
    requires token == Stray(r.tail.pad, c) || (c == QUOTE && r.tail.pad == [] && token == Pair)
    ensures var tail := OpenQuoted(r.tail.tokens + [token]);
            r.(tail := tail).Fits(delim) && r.(tail := tail).Text() == r.Text() + [c]
  {
    hide AreItems, ItemsText, Reading.Text, TokensText, AreTokens, Value, Token.Text, Token.Fits;
    var tokens := r.tail.tokens;
    NextToken(tokens, token);
    TokensGrow(delim, tokens, token);
    MoreContent(TokensText(tokens), token, r.tail.pad, c);
    OpenFits(delim, r, OpenQuoted(tokens + [token]), c);
  }

  lemma ExtendLoose(delim: char, r: Reading)
    requires r.Fits(delim) && r.tail.Ended? && r.tail.pad != []
    ensures var tail := Ended(r.tail.tokens + [Loose(r.tail.pad)], []);
            r.(tail := tail).Fits(delim) && r.(tail := tail).Text() == r.Text() + [QUOTE]
  {
    hide AreItems, ItemsText, Reading.Text, TokensText, AreTokens, Value, Token.Text;
    var tokens, token := r.tail.tokens, Loose(r.tail.pad);
    NextToken(tokens, token);
    TokensGrow(delim, tokens, token);
    MoreQuotes(TokensText(tokens), r.tail.pad);
    OpenFits(delim, r, Ended(tokens + [token], []), QUOTE);
  }

  lemma ExtendEnded(delim: char, r: Reading, c: char)
    requires r.Fits(delim) && r.tail.Ended?
    ensures Extend(delim, r, c).Fits(delim) && Extend(delim, r, c).Text() == r.Text() + [c]
  {
    hide AreItems, ItemsText, AtRowStart, Reading.Text, TokensText, AreTokens;
    var tokens, pad := r.tail.tokens, r.tail.pad;
    if Closes(delim, c) {
      CloseFits(delim, r, Quoted(tokens, pad, c), c);
    } else if Blank(delim, c) {
      OpenFits(delim, r, Ended(tokens, pad + [c]), c);
    } else if c == QUOTE && pad != [] {
      ExtendLoose(delim, r);
    } else {
      ExtendContent(delim, r, if c == QUOTE then Pair else Stray(pad, c), c);
    }
  }

  /** One more character extends a reading to a reading. */
  lemma ExtendFits(delim: char, r: Reading, c: char)
    requires r.Fits(delim)
    ensures Extend(delim, r, c).Fits(delim) && Extend(delim, r, c).Text() == r.Text() + [c]
  {
    hide Reading.Fits, Reading.Text, Extend;
    match r.tail
    case Nothing => ExtendNothing(delim, r, c);
    case OpenBare(_, _) => ExtendBare(delim, r, c);
    case OpenQuoted(_) => ExtendOpen(delim, r, c);
    case Ended(_, _) => ExtendEnded(delim, r, c);
  }

  /** What the parser must do on the way from one reading to the next. */
  ghost predicate Follows(delim: char, r: Reading, c: char, next: Reading) {
    var (end, events) := Step(delim, r.State(delim), c);
    end == next.State(delim) && ItemCallbacks(delim, next.items) == ItemCallbacks(delim, r.items) + events
  }

  lemma CloseFollows(delim: char, r: Reading, item: Item, c: char)
    requires Step(delim, r.State(delim), c).1 == item.Callbacks(delim)
    requires Step(delim, r.State(delim), c).0 ==
             if (if item.Skip? then AtRowStart(delim, r.items) else item.EndsRow(delim)) then Start else NextField
    ensures Follows(delim, r, c, Close(r, item))
  {
    hide AtRowStart, ItemCallbacks, ItemsText, Item.Callbacks, Item.EndsRow, Step;
    NextItem(delim, r.items, item);
  }

  lemma OpenFollows(delim: char, r: Reading, tail: Tail, c: char)
    requires Step(delim, r.State(delim), c) == (r.(tail := tail).State(delim), [])
    ensures Follows(delim, r, c, r.(tail := tail))
  {
    hide ItemCallbacks, Step, Reading.State;
    Assoc(ItemCallbacks(delim, r.items), [], []);
  }

  lemma NothingFollows(delim: char, r: Reading, c: char)
    requires r.tail.Nothing?
    ensures Follows(delim, r, c, Extend(delim, r, c))
  {
    hide AtRowStart, Follows, Value;
    if Blank(delim, c) || (AtRowStart(delim, r.items) && IsTerm(c)) {
      CloseFollows(delim, r, Skip(c), c);
    } else if IsTerm(c) || c == delim {
      CloseFollows(delim, r, Empty(c), c);
    } else if c == QUOTE {
      EmptyValue();
      OpenFollows(delim, r, OpenQuoted([]), c);
    } else {
      Assoc([c], [], []);
      OpenFollows(delim, r, OpenBare([c], []), c);
    }
  }

  lemma BareFollows(delim: char, r: Reading, c: char)
    requires r.tail.OpenBare?
    ensures Follows(delim, r, c, Extend(delim, r, c))
  {
    hide AtRowStart, Follows, Value;
    var body, pad := r.tail.body, r.tail.pad;
    if Closes(delim, c) {
      assert Chop(body + pad, |pad|) == body;
      CloseFollows(delim, r, Bare(body, pad, c), c);
    } else if Blank(delim, c) {
      Assoc(body, pad, [c]);
      OpenFollows(delim, r, OpenBare(body, pad + [c]), c);
    } else {
      Assoc(body + pad + [c], [], []);
      OpenFollows(delim, r, OpenBare(body + pad + [c], []), c);
    }
  }

  lemma OpenQuotedFollows(delim: char, r: Reading, c: char)
    requires r.tail.OpenQuoted?
    ensures Follows(delim, r, c, Extend(delim, r, c))
  {
    hide AtRowStart, Follows, Value, TokensText;
    var tokens := r.tail.tokens;
    if c == QUOTE {
      Assoc(Value(tokens) + [QUOTE], [], []);
      OpenFollows(delim, r, Ended(tokens, []), c);
    } else {
      NextToken(tokens, Plain(c));
      OpenFollows(delim, r, OpenQuoted(tokens + [Plain(c)]), c);
    }
  }

  lemma LooseFollows(delim: char, r: Reading)
    requires r.tail.Ended? && delim != QUOTE && r.tail.pad != []
    ensures Follows(delim, r, QUOTE, r.(tail := Ended(r.tail.tokens + [Loose(r.tail.pad)], [])))
  {
    hide AtRowStart, Follows, Value, TokensText;
    var tokens, pad := r.tail.tokens, r.tail.pad;
    NextToken(tokens, Loose(pad));
    Assoc(Value(tokens), [QUOTE], pad);
    Assoc(Value(tokens) + [QUOTE] + pad + [QUOTE], [], []);
    OpenFollows(delim, r, Ended(tokens + [Loose(pad)], []), QUOTE);
  }

  lemma PairFollows(delim: char, r: Reading)
    requires r.tail.Ended? && delim != QUOTE && r.tail.pad == []
    ensures Follows(delim, r, QUOTE, r.(tail := OpenQuoted(r.tail.tokens + [Pair])))
  {
    hide AtRowStart, Follows, Value, TokensText;
    var tokens := r.tail.tokens;
    NextToken(tokens, Pair);
    Assoc(Value(tokens) + [QUOTE], [], []);
    OpenFollows(delim, r, OpenQuoted(tokens + [Pair]), QUOTE);
  }

  lemma StrayFollows(delim: char, r: Reading, c: char)
    requires r.tail.Ended? && c != QUOTE && !Closes(delim, c) && !Blank(delim, c)
    ensures Follows(delim, r, c, r.(tail := OpenQuoted(r.tail.tokens + [Stray(r.tail.pad, c)])))
  {
    hide AtRowStart, Follows, Value, TokensText;
    var tokens, pad := r.tail.tokens, r.tail.pad;
    NextToken(tokens, Stray(pad, c));
    Assoc(Value(tokens), [QUOTE], pad);
    Assoc(Value(tokens), [QUOTE] + pad, [c]);
    OpenFollows(delim, r, OpenQuoted(tokens + [Stray(pad, c)]), c);
  }

  lemma EndedFollows(delim: char, r: Reading, c: char)
    requires r.tail.Ended? && delim != QUOTE
    ensures Follows(delim, r, c, Extend(delim, r, c))
  {
    hide AtRowStart, Follows, Value;
    var tokens, pad := r.tail.tokens, r.tail.pad;
    if Closes(delim, c) {
      assert Chop(Value(tokens) + [QUOTE] + pad, |pad| + 1) == Value(tokens);
      CloseFollows(delim, r, Quoted(tokens, pad, c), c);
    } else if Blank(delim, c) {
      Assoc(Value(tokens) + [QUOTE], pad, [c]);
      OpenFollows(delim, r, Ended(tokens, pad + [c]), c);
    } else if c != QUOTE {
      StrayFollows(delim, r, c);
    } else if pad == [] {
      PairFollows(delim, r);
    } else {
      LooseFollows(delim, r);
    }
  }

  /** ... and the parser follows it. */
  lemma ExtendFollows(delim: char, r: Reading, c: char)
    requires r.Fits(delim)
    ensures Follows(delim, r, c, Extend(delim, r, c))
  {
    hide Follows, Extend, AreTokens, AreItems;
    match r.tail
    case Nothing => NothingFollows(delim, r, c);
    case OpenBare(_, _) => BareFollows(delim, r, c);
    case OpenQuoted(_) => OpenQuotedFollows(delim, r, c);
    case Ended(_, _) => EndedFollows(delim, r, c);
  }

  lemma EmptyValue()
    ensures Value([]) == []
  {
  }

  // ---------------------------------------------------------------------------
  // Every text has one reading

  function Read(delim: char, input: seq<char>): Reading {
    if input == [] then Reading([], Nothing)
    else Extend(delim, Read(delim, input[..|input| - 1]), input[|input| - 1])
  }

  lemma {:induction false} ReadFits(delim: char, input: seq<char>)
    ensures Read(delim, input).Fits(delim) && Read(delim, input).Text() == input
  {
    hide *;
    if input == [] {
      ReadNothing(delim);
    } else {
      var front, last := input[..|input| - 1], input[|input| - 1];
      ReadFits(delim, front);
      ReadNext(delim, front, last);
      ExtendFits(delim, Read(delim, front), last);
      assert front + [last] == input;
    }
  }

  lemma ReadNothing(delim: char)
    ensures Read(delim, []) == Reading([], Nothing) && Read(delim, []).Fits(delim) && Read(delim, []).Text() == []
  {
  }

  lemma ReadNext(delim: char, input: seq<char>, c: char)
    ensures Read(delim, input + [c]) == Extend(delim, Read(delim, input), c)
  {
    hide Extend;
    assert (input + [c])[..|input|] == input;
  }

  lemma {:induction false} RunFollows(delim: char, input: seq<char>)
    ensures var r := Read(delim, input);
            Run(delim, Start, input) == (r.State(delim), ItemCallbacks(delim, r.items))
  {
    hide Extend, Reading.Fits, Step;
    if input != [] {
      var front := input[..|input| - 1];
      hide Reading.State, ItemCallbacks;
      RunFollows(delim, front);
      ReadFits(delim, front);
      ExtendFollows(delim, Read(delim, front), input[|input| - 1]);
    }
  }

  /** The reading without its last character. */
  lemma Shrink(delim: char, r: Reading) returns (less: Reading, c: char)
    requires r.Fits(delim) && r != Reading([], Nothing)
    ensures less.Fits(delim) && Extend(delim, less, c) == r
  {
    match r.tail
    case Nothing => less, c := ShrinkItems(delim, r);
    case OpenBare(_, _) => less, c := ShrinkBare(delim, r);
    case OpenQuoted(_) => less, c := ShrinkOpen(delim, r);
    case Ended(_, _) => less, c := ShrinkEnded(delim, r);
  }

  lemma ItemsShrink(delim: char, items: seq<Item>)
    requires AreItems(delim, items) && items != []
    ensures var front := items[..|items| - 1];
            AreItems(delim, front) && items[|items| - 1].Fits(delim, AtRowStart(delim, front))
  {
    var front := items[..|items| - 1];
    assert forall i :: 0 <= i < |front| ==> front[i] == items[i] && front[..i] == items[..i];
  }

  lemma ShrinkItems(delim: char, r: Reading) returns (less: Reading, c: char)
    requires r.Fits(delim) && r.tail.Nothing? && r.items != []
    ensures less.Fits(delim) && Extend(delim, less, c) == r
  {
    hide AreItems, AtRowStart;
    var front, item := r.items[..|r.items| - 1], r.items[|r.items| - 1];
    ItemsShrink(delim, r.items);
    assert r.items == front + [item];
    match item
    case Skip(x) => less, c := Reading(front, Nothing), x;
    case Empty(close) => less, c := Reading(front, Nothing), close;
    case Bare(body, pad, close) => less, c := Reading(front, OpenBare(body, pad)), close;
    case Quoted(tokens, pad, close) => less, c := Reading(front, Ended(tokens, pad)), close;
  }

  /** A text that begins with anything but a blank is a body and the blanks after it. */
  lemma SplitPad(delim: char, s: seq<char>) returns (body: seq<char>, pad: seq<char>)
    requires |s| > 0 && !Blank(delim, s[0])
    ensures s == body + pad && Blanks(delim, pad) && |body| > 0 && !Blank(delim, body[|body| - 1])
  {
    if Blank(delim, s[|s| - 1]) {
      var b, p := SplitPad(delim, s[..|s| - 1]);
      body, pad := b, p + [s[|s| - 1]];
    } else {
      body, pad := s, [];
    }
  }

  lemma ShrinkBare(delim: char, r: Reading) returns (less: Reading, c: char)
    requires r.Fits(delim) && r.tail.OpenBare?
    ensures less.Fits(delim) && Extend(delim, less, c) == r
  {
    hide AreItems, AtRowStart;
    var body, pad := r.tail.body, r.tail.pad;
    if pad != [] {
      less, c := r.(tail := OpenBare(body, pad[..|pad| - 1])), pad[|pad| - 1];
      assert pad == pad[..|pad| - 1] + [c];
      assert !Closes(delim, c);
    } else if |body| == 1 {
      less, c := r.(tail := Nothing), body[0];
      assert body == [c];
    } else {
      c := body[|body| - 1];
      var b, p := SplitPad(delim, body[..|body| - 1]);
      assert body == b + p + [c];
      assert forall i :: 0 <= i < |b| ==> b[i] == body[i];
      less := r.(tail := OpenBare(b, p));
    }
  }

  lemma TokensShrink(delim: char, tokens: seq<Token>)
    requires AreTokens(delim, tokens) && tokens != []
    ensures AreTokens(delim, tokens[..|tokens| - 1]) && tokens[|tokens| - 1].Fits(delim)
    ensures tokens == tokens[..|tokens| - 1] + [tokens[|tokens| - 1]]
    ensures tokens[|tokens| - 1].Plain? ==> !EndsLoose(tokens[..|tokens| - 1])
  {
    var front := tokens[..|tokens| - 1];
    if EndsLoose(front) {
      assert tokens[|front| - 1].Loose?;
    }
  }

  lemma ShrinkOpen(delim: char, r: Reading) returns (less: Reading, c: char)
    requires r.Fits(delim) && r.tail.OpenQuoted?
    ensures less.Fits(delim) && Extend(delim, less, c) == r
  {
    hide AreItems, AtRowStart, AreTokens;
    var tokens := r.tail.tokens;
    if tokens == [] {
      less, c := r.(tail := Nothing), QUOTE;
    } else {
      TokensShrink(delim, tokens);
      var front := tokens[..|tokens| - 1];
      match tokens[|tokens| - 1]
      case Plain(x) => less, c := r.(tail := OpenQuoted(front)), x;
      case Pair => less, c := r.(tail := Ended(front, [])), QUOTE;
      case Stray(pad, x) => less, c := r.(tail := Ended(front, pad)), x;
    }
  }

  lemma ShrinkEnded(delim: char, r: Reading) returns (less: Reading, c: char)
    requires r.Fits(delim) && r.tail.Ended?
    ensures less.Fits(delim) && Extend(delim, less, c) == r
  {
    hide AreItems, AtRowStart, AreTokens;
    var tokens, pad := r.tail.tokens, r.tail.pad;
    if pad != [] {
      less, c := r.(tail := Ended(tokens, pad[..|pad| - 1])), pad[|pad| - 1];
      assert pad == pad[..|pad| - 1] + [c];
      assert Blank(delim, c) && !Closes(delim, c);
    } else if EndsLoose(tokens) {
      TokensShrink(delim, tokens);
      less, c := r.(tail := Ended(tokens[..|tokens| - 1], tokens[|tokens| - 1].pad)), QUOTE;
    } else {
      less, c := r.(tail := OpenQuoted(tokens)), QUOTE;
    }
  }

  /** The reading of a text is the only one. */
  lemma {:induction false} ReadIsUnique(delim: char, r: Reading)
    requires r.Fits(delim)
    ensures r == Read(delim, r.Text())
    decreases |r.Text()|
  {
    hide *;
    if r == Reading([], Nothing) {
      ReadNothing(delim);
    } else {
      var less, c := Shrink(delim, r);
      ExtendFits(delim, less, c);
      ReadIsUnique(delim, less);
      ReadNext(delim, less.Text(), c);
    }
  }

  /** All callbacks for a text, with those made at its end. */
  function Parsed(delim: char, input: seq<char>): seq<Event> {
    Run(delim, Start, input).1 + Fini(Run(delim, Start, input).0)
  }

  /** Every text has exactly one reading, and its callbacks are the ones the parser makes. */
  lemma ParsedIsReading(delim: char, input: seq<char>) returns (r: Reading)
    ensures r.Fits(delim) && r.Text() == input && r.Callbacks(delim) == Parsed(delim, input)
    ensures forall other: Reading :: other.Fits(delim) && other.Text() == input ==> other == r
  {
    r := Read(delim, input);
    ReadFits(delim, input);
    RunFollows(delim, input);
    assert Fini(r.State(delim)) == r.tail.Callbacks(AtRowStart(delim, r.items)) by {
      FiniFollows(delim, r);
    }
    forall other: Reading | other.Fits(delim) && other.Text() == input ensures other == r {
      ReadIsUnique(delim, other);
    }
  }

  lemma FiniFollows(delim: char, r: Reading)
    ensures Fini(r.State(delim)) == r.tail.Callbacks(AtRowStart(delim, r.items))
  {
    hide AtRowStart, Value;
    match r.tail
    case Nothing =>
    case OpenBare(body, pad) =>
      assert Chop(body + pad, |pad|) == body;
    case OpenQuoted(tokens) =>
    case Ended(tokens, pad) =>
      assert Chop(Value(tokens) + [QUOTE] + pad, |pad| + 1) == Value(tokens);
  }

  // ---------------------------------------------------------------------------
  // What this means for fields

  /** Nothing but blanks since the start of the text, a delimiter or a line end. */
  predicate OpenLeft(delim: char, s: seq<char>) {
    s == [] || s[|s| - 1] == delim || IsTerm(s[|s| - 1])
    || (Blank(delim, s[|s| - 1]) && OpenLeft(delim, s[..|s| - 1]))
  }

  /** Nothing but blanks up to a delimiter, a line end or the end of the text. */
  predicate OpenRight(delim: char, s: seq<char>) {
    s == [] || s[0] == delim || IsTerm(s[0]) || (Blank(delim, s[0]) && OpenRight(delim, s[1..]))
  }

  predicate Trimmed(text: seq<char>) {
    text == [] || (!IsSpace(text[0]) && !IsSpace(text[|text| - 1]))
  }

  /** `text` has no space or tab at its ends and stands in `input` between two bounds, with nothing but blanks on
      either side. */
  ghost predicate StandsIn(delim: char, input: seq<char>, text: seq<char>) {
    Trimmed(text) && exists pre, post :: input == pre + text + post && OpenLeft(delim, pre) && OpenRight(delim, post)
  }

  lemma {:induction false} BlanksOpenRight(delim: char, pad: seq<char>, post: seq<char>)
    requires Blanks(delim, pad) && OpenRight(delim, post)
    ensures OpenRight(delim, pad + post)
  {
    if pad == [] {
      assert pad + post == post;
    } else {
      BlanksOpenRight(delim, pad[1..], post);
      assert (pad + post)[1..] == pad[1..] + post;
    }
  }

  lemma BodyTrimmed(delim: char, body: seq<char>)
    requires IsBody(delim, body)
    ensures Trimmed(body)
  {
  }

  lemma {:induction false} ItemsOpenLeft(delim: char, items: seq<Item>)
    requires AreItems(delim, items)
    ensures OpenLeft(delim, ItemsText(items))
  {
    if items != [] {
      var front, item := items[..|items| - 1], items[|items| - 1];
      ItemsShrink(delim, items);
      hide AreItems;
      ItemsOpenLeft(delim, front);
      var pre, text := ItemsText(front), item.Text();
      hide ItemsText, TokensText;
      assert (pre + text)[|pre + text| - 1] == text[|text| - 1];
      if item.Skip? {
        assert (pre + text)[..|pre|] == pre;
      }
    }
  }

  lemma ItemFieldStands(delim: char, pre: seq<char>, item: Item, post: seq<char>, rowStart: bool, text: seq<char>)
    requires item.Fits(delim, rowStart) && Field(text, false) in item.Callbacks(delim) && OpenLeft(delim, pre)
    ensures StandsIn(delim, pre + item.Text() + post, text)
  {
    hide OpenLeft, TokensText, Value, IsBody;
    var close := [item.close];
    if item.Empty? {
      Split(pre, [], [], close, post);
      assert OpenRight(delim, close + post);
    } else {
      assert item.Bare?;
      var body, pad := item.body, item.pad;
      BodyTrimmed(delim, body);
      assert OpenRight(delim, close + post);
      BlanksOpenRight(delim, pad, close + post);
      Split(pre, body, pad, close, post);
    }
  }

  lemma Split(pre: seq<char>, body: seq<char>, pad: seq<char>, close: seq<char>, post: seq<char>)
    ensures pre + (body + pad + close) + post == pre + body + (pad + (close + post))
    ensures pre + close + post == pre + [] + (close + post)
  {
  }

  lemma {:induction false} ItemsFieldStands(delim: char, items: seq<Item>, post: seq<char>, text: seq<char>)
    requires AreItems(delim, items) && Field(text, false) in ItemCallbacks(delim, items)
    ensures StandsIn(delim, ItemsText(items) + post, text)
  {
    var front, item := items[..|items| - 1], items[|items| - 1];
    ItemsShrink(delim, items);
    hide AreItems, StandsIn, Item.Fits, Item.Text, Item.Callbacks;
    Assoc(ItemsText(front), item.Text(), post);
    if Field(text, false) in item.Callbacks(delim) {
      ItemsOpenLeft(delim, front);
      ItemFieldStands(delim, ItemsText(front), item, post, AtRowStart(delim, front), text);
    } else {
      ItemsFieldStands(delim, front, item.Text() + post, text);
    }
  }

  lemma TailFieldStands(delim: char, pre: seq<char>, tail: Tail, rowStart: bool, text: seq<char>)
    requires tail.Fits(delim) && Field(text, false) in tail.Callbacks(rowStart) && OpenLeft(delim, pre)
    ensures StandsIn(delim, pre + tail.Text(), text)
  {
    hide OpenLeft, TokensText, Value;
    if tail.Nothing? {
      assert pre + tail.Text() == pre + text + [] && OpenRight(delim, []);
    } else {
      assert tail.OpenBare?;
      BodyTrimmed(delim, tail.body);
      BlanksOpenRight(delim, tail.pad, []);
      assert pre + tail.Text() == pre + text + (tail.pad + []);
    }
  }

  /** An unquoted field is a stretch of the text between two bounds, without the blanks around it. */
  lemma BareFieldsStand(delim: char, input: seq<char>, text: seq<char>)
    requires Field(text, false) in Parsed(delim, input)
    ensures StandsIn(delim, input, text)
  {
    var r := ParsedIsReading(delim, input);
    hide AreItems, StandsIn, Tail.Fits, Parsed, Tail.Callbacks, Tail.Text;
    if Field(text, false) in ItemCallbacks(delim, r.items) {
      ItemsFieldStands(delim, r.items, r.tail.Text(), text);
    } else {
      ItemsOpenLeft(delim, r.items);
      TailFieldStands(delim, ItemsText(r.items), r.tail, AtRowStart(delim, r.items), text);
    }
  }

  lemma Runs(delim: char, s: Core, a: seq<char>, b: seq<char>, t: Core, events: seq<Event>)
    requires Run(delim, s, a) == (t, events)
    ensures Run(delim, s, a + b) == (Run(delim, t, b).0, events + Run(delim, t, b).1)
  {
    hide Run;
    RunConcat(delim, s, a, b);
  }

  /** Blanks before a field, and line ends before a row, change nothing. */
  lemma {:induction false} SkippedBefore(delim: char, s: Core, pad: seq<char>)
    requires s == Start || s == NextField
    requires forall i :: 0 <= i < |pad| ==> Blank(delim, pad[i]) || (s == Start && IsTerm(pad[i]))
    ensures Run(delim, s, pad) == (s, [])
  {
    if pad != [] {
      var front, last := pad[..|pad| - 1], pad[|pad| - 1];
      SkippedBefore(delim, s, front);
      assert Step(delim, s, last) == (s, []);
      Assoc<Event>([], [], []);
    }
  }

  /** Blanks between a closing quote and what closes the field are dropped. */
  lemma SkippedAfterQuote(delim: char, s: Core, pad: seq<char>, close: char)
    requires s.Safe() && s.pstate.FieldMightHaveEnded? && s.spaces == 0
    requires Blanks(delim, pad) && (close == delim || IsTerm(close))
    ensures Run(delim, s, pad + [close]) == Run(delim, s, [close])
  {
    PadAfterQuote(delim, s, pad);
    Runs(delim, s, pad, [close], s.(spaces := |pad|, entry := s.entry + pad), []);
    RunOne(delim, s, close);
    RunOne(delim, s.(spaces := |pad|, entry := s.entry + pad), close);
    assert Chop(s.entry + pad, |pad| + 1) == Chop(s.entry, 1);
  }

  lemma {:induction false} PadAfterQuote(delim: char, s: Core, pad: seq<char>)
    requires s.pstate.FieldMightHaveEnded? && s.spaces == 0 && Blanks(delim, pad)
    ensures Run(delim, s, pad) == (s.(spaces := |pad|, entry := s.entry + pad), [])
  {
    if pad == [] {
      assert s.entry + pad == s.entry;
    } else {
      var front := pad[..|pad| - 1];
      PadAfterQuote(delim, s, front);
      var last := pad[|front|];
      var mid := s.(spaces := |front|, entry := s.entry + front);
      assert Blank(delim, last) && s.entry + front + [last] == s.entry + pad;
      assert Step(delim, mid, last) == (s.(spaces := |pad|, entry := s.entry + pad), []);
      Assoc<Event>([], [], []);
    }
  }

  /** Feeding a text in any chunks: the callbacks are those of its one reading, and every unquoted field stands in the
      text between two bounds. */
  method ParseText(delim: char, blockSize: nat, sizeMax: nat, canAllocate: nat -> bool, chunks: seq<seq<char>>)
    returns (events: seq<Event>, ghost r: Reading)
    requires blockSize > 0 && |Join(chunks)| <= sizeMax && forall n: nat :: n <= sizeMax ==> canAllocate(n)
    ensures r.Fits(delim) && r.Text() == Join(chunks) && events == r.Callbacks(delim)
    ensures forall other: Reading :: other.Fits(delim) && other.Text() == Join(chunks) ==> other == r
    ensures forall text :: Field(text, false) in events ==> StandsIn(delim, Join(chunks), text)
  {
    hide Reading.Fits, Reading.Callbacks, StandsIn, Run, Join, Fini;
    var consumed;
    events, consumed := ParseChunks(delim, blockSize, sizeMax, canAllocate, chunks);
    var input := Join(chunks);
    r := ParsedIsReading(delim, input);
    forall text | Field(text, false) in events ensures StandsIn(delim, input, text) {
      BareFieldsStand(delim, input, text);
    }
  }
}
