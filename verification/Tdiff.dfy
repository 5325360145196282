/** Cells of a TDIFF row: printing (src/libcoopy_core/MergeOutputTdiff.cpp, src/libcoopy_core/Stringer.cpp) and
    parsing (src/libcoopy_full/PatchParser.cpp). Characters are bytes; 128 and above count as negative. */
module Tdiff {
  import opened Common

  const QUOTE := '\''
  const LF := '\n'
  const CR := '\r'
  const BACKSLASH := '\\'
  const BAR := '|'

  datatype Cell = Null | Text(text: string)

  // ---------------------------------------------------------------------------
  // Replacing

  predicate Starts(s: string, old': string) {
    |old'| <= |s| && s[..|old'|] == old'
  }

  /** Every occurrence of `old'`, found left to right, becomes `rep`; replacements are not looked at again. */
  function Replace(s: string, old': string, rep: string): string
    requires old' != []
  {
    if s == [] then []
    else if Starts(s, old') then rep + Replace(s[|old'|..], old', rep)
    else [s[0]] + Replace(s[1..], old', rep)
  }

  lemma {:induction false} ReplaceSkips(s: string, k: nat, old': string, rep: string)
    requires old' != [] && k <= |s|
    requires forall j :: 0 <= j < k ==> !Starts(s[j..], old')
    ensures Replace(s, old', rep) == s[..k] + Replace(s[k..], old', rep)
  {
    if k == 0 {
      assert s[0..] == s;
    } else {
      assert s[0..] == s;
      assert !Starts(s[0..], old');
      forall j | 0 <= j < k - 1 ensures !Starts(s[1..][j..], old') {
        assert s[1..][j..] == s[j + 1..];
      }
      ReplaceSkips(s[1..], k - 1, old', rep);
      assert s[1..][k - 1..] == s[k..];
      assert [s[0]] + s[1..][..k - 1] == s[..k];
    }
  }

  /** `std::string::find`. */
  method FindFrom(s: string, old': string, pos: nat) returns (k: int)
    requires pos <= |s|
    ensures k == -1 || (pos <= k <= |s| && Starts(s[k..], old'))
    ensures forall j :: pos <= j < (if k == -1 then |s| else k) ==> !Starts(s[j..], old')
  {
    k := pos;
    while k < |s| && !Starts(s[k..], old')
      invariant pos <= k <= |s|
      invariant forall j :: pos <= j < k ==> !Starts(s[j..], old')
    {
      k := k + 1;
    }
    if k == |s| && !Starts(s[k..], old') {
      k := -1;
    }
  }

  lemma ReplaceHere(s: string, old': string, rep: string)
    requires old' != [] && Starts(s, old')
    ensures Replace(s, old', rep) == rep + Replace(s[|old'|..], old', rep)
  {
  }

  lemma Regroup<T>(a: seq<T>, b: seq<T>, c: seq<T>, d: seq<T>)
    ensures a + (b + (c + d)) == a + b + c + d
  {
  }

  /** From `pos` on, the first occurrence is at `k`. */
  lemma ReplaceFirst(s: string, pos: nat, k: nat, old': string, rep: string)
    requires old' != [] && pos <= k <= |s| && Starts(s[k..], old')
    requires forall j :: pos <= j < k ==> !Starts(s[j..], old')
    ensures k + |old'| <= |s|
    ensures s[..pos] + Replace(s[pos..], old', rep) == s[..k] + rep + Replace(s[k + |old'|..], old', rep)
  {
    ReplaceHere(s[k..], old', rep);
    hide Replace;
    var tail := s[pos..];
    forall j | 0 <= j < k - pos ensures !Starts(tail[j..], old') {
      assert tail[j..] == s[pos + j..];
    }
    ReplaceSkips(tail, k - pos, old', rep);
    assert tail[k - pos..] == s[k..];
    assert s[k..][|old'|..] == s[k + |old'|..];
    var z := Replace(s[k + |old'|..], old', rep);
    assert s[..k] == s[..pos] + tail[..k - pos];
    Regroup(s[..pos], tail[..k - pos], rep, z);
  }

  lemma ReplaceEnd(s: string, pos: nat, old': string, rep: string)
    requires old' != [] && pos <= |s|
    requires forall j :: pos <= j < |s| ==> !Starts(s[j..], old')
    ensures s[..pos] + Replace(s[pos..], old', rep) == s
  {
    var tail := s[pos..];
    forall j | 0 <= j < |tail| ensures !Starts(tail[j..], old') {
      assert tail[j..] == s[pos + j..];
    }
    ReplaceSkips(tail, |tail|, old', rep);
    assert tail[|tail|..] == [] && tail[..|tail|] == tail && s[..pos] + tail == s;
  }

  /** `Stringer::replace`. */
  method ReplaceIn(s: string, old': string, rep: string) returns (str: string)
    requires old' != []
    ensures str == Replace(s, old', rep)
  {
    hide Replace, Starts;
    str := s;
    var pos: nat := 0;
    assert str[0..] == s && str[..0] == [];
    var k := FindFrom(str, old', pos);
    while k != -1
      invariant pos <= |str|
      invariant k == -1 || (pos <= k <= |str| && Starts(str[k..], old'))
      invariant forall j :: pos <= j < (if k == -1 then |str| else k) ==> !Starts(str[j..], old')
      invariant str[..pos] + Replace(str[pos..], old', rep) == Replace(s, old', rep)
      decreases |str| - pos, if k == -1 then 0 else 1
    {
      ReplaceFirst(str, pos, k, old', rep);
      ghost var was := str;
      str := str[..k] + rep + str[k + |old'|..];
      pos := k + |rep|;
      assert str[..pos] == was[..k] + rep;
      assert str[pos..] == was[k + |old'|..];
      k := FindFrom(str, old', pos);
    }
    ReplaceEnd(str, pos, old', rep);
  }

  // ---------------------------------------------------------------------------
  // Printing

  predicate IsMark(ch: char) {
    ch == LF || ch == CR || ch == '!' || ch == ':' || ch == '=' || ch == BAR || ch == QUOTE || ch as int < 32
      || ch as int >= 128
  }

  /** A character, given the one before it, that forces quoting. */
  predicate ForcesQuote(text: string, i: nat)
    requires i < |text|
  {
    IsMark(text[i]) || (text[i] == '>' && i > 0 && text[i - 1] == '-')
  }

  predicate NeedQuote(text: string) {
    exists i :: 0 <= i < |text| && ForcesQuote(text, i)
  }

  function Doubled(t: string): string {
    if t == [] then [] else (if t[0] == QUOTE then [QUOTE, QUOTE] else [t[0]]) + Doubled(t[1..])
  }

  function Quoted(t: string): string {
    [QUOTE] + Doubled(t) + [QUOTE]
  }

  function Escaped(s: string): string {
    Replace(Replace(s, [LF], [BACKSLASH, 'n']), [CR], [BACKSLASH, 'r'])
  }

  /** Whether the text is printed between quotes. */
  predicate InQuotes(text: string) {
    text == "NULL" || NeedQuote(text)
  }

  function Printed(c: Cell): string {
    match c
    case Null => "NULL"
    case Text(text) => if InQuotes(text) then Escaped(Quoted(text)) else text
  }

  /** `quoteSql` with a single quote as delimiter and `alwaysQuote`. */
  method QuoteSql(x: string) returns (result: string)
    ensures result == Quoted(x)
  {
    var easy := true;
    for i := 0 to |x|
      invariant easy <==> forall j :: 0 <= j < i ==> x[j] != QUOTE
    {
      if x[i] == QUOTE {
        easy := false;
      }
    }
    if easy {
      result := [QUOTE] + x + [QUOTE];
      DoubledPlain(x);
    } else {
      result := [QUOTE];
      for i := 0 to |x|
        invariant result + Doubled(x[i..]) == [QUOTE] + Doubled(x)
      {
        assert x[i..][1..] == x[i + 1..];
        if x[i] != QUOTE {
          result := result + [x[i]];
        } else {
          result := result + [QUOTE, QUOTE];
        }
      }
      assert x[|x|..] == [];
      result := result + [QUOTE];
    }
  }

  lemma {:induction false} DoubledPlain(x: string)
    requires forall j :: 0 <= j < |x| ==> x[j] != QUOTE
    ensures Doubled(x) == x
  {
    if x != [] {
      DoubledPlain(x[1..]);
    }
  }

  lemma ReplaceNothing(s: string, ch: char, rep: string)
    requires ch !in s
    ensures Replace(s, [ch], rep) == s
  {
    forall j | 0 <= j < |s| ensures !Starts(s[j..], [ch]) {
      assert s[j..][0] == s[j];
    }
    ReplaceSkips(s, |s|, [ch], rep);
    assert s[..|s|] == s && s[|s|..] == [];
  }

  lemma NullIsEscaped()
    ensures Escaped(Quoted("NULL")) == "'NULL'"
  {
    DoubledPlain("NULL");
    var q := Quoted("NULL");
    assert q == [QUOTE] + "NULL" + [QUOTE] == "'NULL'";
    ReplaceNothing(q, LF, [BACKSLASH, 'n']);
    ReplaceNothing(q, CR, [BACKSLASH, 'r']);
  }

  /** `celly`. */
  method Celly(c: Cell) returns (v: string)
    ensures v == Printed(c)
  {
    if c == Text("NULL") {
      NullIsEscaped();
      return "'NULL'";
    }
    if c == Null {
      return "NULL";
    }
    var text := c.text;
    var needQuote := false;
    var lastWasMinus := false;
    var i := 0;
    while i < |text| && !needQuote
      invariant 0 <= i <= |text|
      invariant needQuote ==> NeedQuote(text)
      invariant !needQuote ==> forall j :: 0 <= j < i ==> !ForcesQuote(text, j)
      invariant !needQuote ==> (lastWasMinus <==> i > 0 && text[i - 1] == '-')
    {
      if IsMark(text[i]) {
        needQuote := true;
        assert ForcesQuote(text, i);
      } else if text[i] == '>' && lastWasMinus {
        needQuote := true;
        assert ForcesQuote(text, i);
      }
      lastWasMinus := text[i] == '-';
      i := i + 1;
    }
    v := text;
    if needQuote {
      v := QuoteSql(text);
      v := ReplaceIn(v, [LF], [BACKSLASH, 'n']);
      v := ReplaceIn(v, [CR], [BACKSLASH, 'r']);
    }
  }

  /** What a row says about one column: the old cell, the new one, each if given; a cell printed without an arrow,
      as the only cell of an inserted row is, counts as old. */
  datatype Slot = Slot(was: Option<Cell>, becomes: Option<Cell>)

  function PrintedSlot(slot: Slot): string {
    (if slot.was.Some? then Printed(slot.was.value) else "*") +
    if slot.becomes.Some? then "->" + Printed(slot.becomes.value) else ""
  }

  function PrintedSlots(slots: seq<Slot>): string {
    if slots == [] then [] else PrintedSlot(slots[0]) + [BAR] + PrintedSlots(slots[1..])
  }

  /** A row line of a diff, in factored form and without conflict. */
  function PrintedRow(tag: char, slots: seq<Slot>): string {
    [tag, ' ', BAR] + PrintedSlots(slots)
  }

  /** What `updateRow` prints for one column. */
  method UpdateCell(slot: Slot) returns (v: string)
    ensures v == PrintedSlot(slot)
  {
    hide Printed;
    v := "";
    var transition := slot.was.Some?;
    if !transition && slot.becomes.Some? {
      v := "*->";
    }
    var shown := false;
    if transition {
      v := Celly(slot.was.value);
      shown := true;
    }
    if slot.becomes.Some? {
      var w := Celly(slot.becomes.value);
      v := v + (if transition then "->" else "") + w;
      shown := true;
    }
    if !shown {
      v := "*";
    }
  }

  /** The cell part of `updateRow`. */
  method UpdateRow(tag: char, slots: seq<Slot>) returns (line: string)
    ensures line == PrintedRow(tag, slots)
  {
    hide PrintedSlot;
    line := [tag, ' ', BAR];
    assert slots[0..] == slots;
    for i := 0 to |slots|
      invariant line + PrintedSlots(slots[i..]) == PrintedRow(tag, slots)
    {
      var v := UpdateCell(slots[i]);
      assert slots[i..][1..] == slots[i + 1..];
      assert line + (v + [BAR] + PrintedSlots(slots[i + 1..])) == line + v + [BAR] + PrintedSlots(slots[i + 1..]);
      line := line + v + [BAR];
    }
  }

  // ---------------------------------------------------------------------------
  // Splitting a line into parts

  datatype Splitter = Splitter(all: seq<string>, result: string, quote: bool, pending: bool, commit: bool,
                               haveBars: bool)

  const Fresh := Splitter([], [], false, false, false, false)

  function Take(s: Splitter, ch: char): Splitter {
    if ch == QUOTE then s.(quote := !s.quote, result := s.result + [ch], pending := true)
    else if s.quote then s.(result := s.result + [ch], pending := true)
    else if ((ch == ' ' || ch == CR || ch == '\t') && !s.commit) || ch == BAR then
      var t := s.(all := if s.pending then s.all + [s.result] else s.all, pending := false, result := []);
      if ch == BAR then t.(pending := true, commit := true, haveBars := true) else t
    else s.(result := s.result + [ch], pending := true)
  }

  function TakeAll(s: Splitter, line: string): Splitter
    decreases |line|
  {
    if line == [] then s else TakeAll(Take(s, line[0]), line[1..])
  }

  function Unescaped(s: string): string {
    Replace(Replace(Replace(s, [BACKSLASH, 'n'], [LF]), [BACKSLASH, 'r'], [CR]), [BACKSLASH, BACKSLASH], [BACKSLASH])
  }

  function UnescapedAll(parts: seq<string>): (r: seq<string>)
    ensures |r| == |parts| && forall i :: 0 <= i < |parts| ==> r[i] == Unescaped(parts[i])
  {
    seq(|parts|, i requires 0 <= i < |parts| => Unescaped(parts[i]))
  }

  function Split(line: string): seq<string> {
    var s := TakeAll(Fresh, line);
    UnescapedAll(if s.pending && s.result != [] && !s.haveBars then s.all + [s.result] else s.all)
  }

  /** `normalizedMessage`. */
  method NormalizedMessage(line: string) returns (all: seq<string>)
    ensures all == Split(line)
  {
    all := [];
    var result := "";
    var quote, pending, commit, haveBars := false, false, false, false;
    assert line[0..] == line;
    for i := 0 to |line|
      invariant TakeAll(Splitter(all, result, quote, pending, commit, haveBars), line[i..]) == TakeAll(Fresh, line)
    {
      var ch := line[i];
      assert line[i..][1..] == line[i + 1..];
      if ch == QUOTE {
        quote := !quote;
        result := result + [ch];
        pending := true;
      } else if quote {
        result := result + [ch];
        pending := true;
      } else if ((ch == ' ' || ch == CR || ch == '\t') && !commit) || ch == BAR {
        if pending {
          all := all + [result];
          pending := false;
        }
        result := "";
        if ch == BAR {
          pending, commit, haveBars := true, true, true;
        }
      } else {
        result := result + [ch];
        pending := true;
      }
    }
    if pending && result != "" && !haveBars {
      all := all + [result];
    }
    ghost var parts := all;
    for i := 0 to |all|
      invariant |all| == |parts|
      invariant forall j :: 0 <= j < i ==> all[j] == Unescaped(parts[j])
      invariant forall j :: i <= j < |all| ==> all[j] == parts[j]
    {
      var part := ReplaceIn(all[i], [BACKSLASH, 'n'], [LF]);
      part := ReplaceIn(part, [BACKSLASH, 'r'], [CR]);
      part := ReplaceIn(part, [BACKSLASH, BACKSLASH], [BACKSLASH]);
      all := all[i := part];
    }
  }

  // ---------------------------------------------------------------------------
  // Peeling a part

  datatype Sep = Nothing | Colon | Equals | Arrow | Bang

  function Width(sep: Sep): nat {
    if sep == Nothing then 0 else if sep == Arrow then 2 else 1
  }

  /** The flags of `peel` after `n` characters. `dash`: the state that waits for `>`; `bang`: a `!` was seen. */
  datatype Peeler = Peeler(n: nat, quote: bool, dash: bool, bang: bool, first: bool, hasQuote: bool, conflict: bool)

  const Unpeeled := Peeler(0, false, false, false, true, false, false)

  /** The separator that ends the scan at `ch`, or nothing. */
  function Separator(p: Peeler, ch: char): Sep {
    if ch == QUOTE || p.quote then Nothing
    else if ch == ':' && !p.dash then Colon
    else if ch == '=' && !p.dash then Equals
    else if ch == '>' && p.dash then Arrow
    else if ch == '!' && p.bang then Bang
    else Nothing
  }

  function Move(p: Peeler, ch: char): Peeler {
    var q := p.(n := p.n + 1, first := false);
    if ch == QUOTE then q.(hasQuote := p.hasQuote || p.first, dash := false, quote := !p.quote)
    else if p.quote then q.(dash := false)
    else if ch == '-' && !p.dash then q.(dash := true)
    else if ch == '!' && Separator(p, ch) == Nothing then q.(conflict := true, bang := true, first := p.n == 0)
    else if ch == '!' then q.(conflict := true)
    else q.(dash := false)
  }

  /** Where the scan stops: the flags then, and the separator (`Nothing` at the end of the part). */
  datatype Stop = Stop(peeler: Peeler, sep: Sep)

  function Scan(p: Peeler, s: string): Stop
    decreases |s|
  {
    if s == [] then Stop(p, Nothing)
    else if Separator(p, s[0]) != Nothing then Stop(Move(p, s[0]), Separator(p, s[0]))
    else Scan(Move(p, s[0]), s[1..])
  }

  lemma MoveCounts(p: Peeler, ch: char)
    ensures Move(p, ch).n == p.n + 1
  {
  }

  lemma {:induction false} ScanStops(p: Peeler, s: string)
    ensures var e := Scan(p, s);
      p.n <= e.peeler.n <= p.n + |s| &&
      (e.sep != Nothing ==> p.n < e.peeler.n) &&
      (e.sep == Arrow && !p.dash ==> p.n + 1 < e.peeler.n)
    decreases |s|
  {
    if s != [] && Separator(p, s[0]) == Nothing {
      MoveCounts(p, s[0]);
      ScanStops(Move(p, s[0]), s[1..]);
    }
  }

  lemma ScanNone(p: Peeler)
    ensures Scan(p, []) == Stop(p, Nothing)
  {
  }

  lemma ScanOne(p: Peeler, ch: char, y: string)
    ensures Scan(p, [ch] + y) ==
            if Separator(p, ch) == Nothing then Scan(Move(p, ch), y) else Stop(Move(p, ch), Separator(p, ch))
  {
    assert ([ch] + y)[1..] == y;
  }

  datatype Peeled = Peeled(result: string, sep: Sep, rem: string, hasQuote: bool, conflict: bool)

  function Stripped(s: string): string {
    if |s| < 2 then "" else s[1..|s| - 1]
  }

  function Peel(s: string): Peeled {
    var stop := Scan(Unpeeled, s);
    ScanStops(Unpeeled, s);
    var p := stop.peeler;
    var cut := if stop.sep == Nothing then s else s[..p.n - Width(stop.sep)];
    var bare := if stop.sep != Nothing && cut != [] && cut[0] == '!' then cut[1..] else cut;
    Peeled(if p.hasQuote then Replace(Stripped(bare), [QUOTE, QUOTE], [QUOTE]) else bare,
           stop.sep, if stop.sep == Nothing then "" else s[p.n..], p.hasQuote, p.conflict)
  }

  function CellOf(txt: string, quoted: bool): Cell {
    if !quoted && txt == "NULL" then Null else Text(txt)
  }

  predicate IsGiven(txt: string, quoted: bool) {
    quoted || txt != "*"
  }

  function Given(txt: string, quoted: bool, otherwise: Option<Cell>): Option<Cell> {
    if IsGiven(txt, quoted) then Some(CellOf(txt, quoted)) else otherwise
  }

  /** The fields of `TDiffPart`, each value with its `has` flag. */
  datatype Part = Part(key: Option<string>, val: Option<Cell>, nval: Option<Cell>, cval: Option<Cell>,
                       pval: Option<Cell>,
                       conflict: bool, isId: bool, isFresh: bool)

  /** `applyElement`: the part afterwards and the separator afterwards. */
  function Element(p: Part, txt: string, pre: Sep, post: Sep, quoted: bool, columnLike: bool): (Part, Sep) {
    if post == Bang then (p.(pval := Given(txt, quoted, p.pval)), pre)
    else
      (if pre == Nothing then
         if !columnLike && post != Equals && post != Colon then p.(val := Given(txt, quoted, p.val))
         else p.(key := Some(txt))
       else if pre == Arrow then
         if columnLike then p.(isFresh := true)
         else p.(nval := Given(txt, quoted, p.nval), isFresh := p.isFresh || p.val.None?)
       else if pre == Equals || pre == Colon then
         if columnLike then p.(isId := pre == Equals) else p.(isId := pre == Equals, val := Given(txt, quoted, p.val))
       else p, post)
  }

  /** A part's elements, at most four, applied from the first separator `pre` on. */
  function Elements(p: Part, s: string, pre: Sep, columnLike: bool, most: nat): Part
    decreases most
  {
    if most == 0 then p
    else
      var e := Peel(s);
      var (q, post) := Element(p.(conflict := p.conflict || e.conflict), e.result, pre, e.sep, e.hasQuote, columnLike);
      if e.sep == Nothing then q else Elements(q, e.rem, post, columnLike, most - 1)
  }

  /** Reading a part; `apply` does not clear `pval`. */
  function PartOf(s: string, columnLike: bool, pval: Option<Cell>): Part {
    var p := Elements(Part(None, None, None, None, pval, false, false, false), s, Nothing, columnLike, 4);
    if p.conflict && p.nval.Some? then p.(cval := p.nval, nval := if p.val.Some? then p.val else p.nval) else p
  }

  /** The scan of `peel`: how far it goes, the separator it ends at, and the flags it sets. */
  method ScanPart(s: string) returns (i: nat, sep: Sep, hasQuote: bool, conflict: bool)
    ensures var stop := Scan(Unpeeled, s);
      i == stop.peeler.n && sep == stop.sep && hasQuote == stop.peeler.hasQuote && conflict == stop.peeler.conflict
  {
    hide Scan;
    var quote, dash, bang, first := false, false, false, true;
    i, sep, hasQuote, conflict := 0, Nothing, false, false;
    assert s[0..] == s;
    while i < |s| && sep == Nothing
      invariant i <= |s|
      invariant sep == Nothing ==>
        Scan(Peeler(i, quote, dash, bang, first, hasQuote, conflict), s[i..]) == Scan(Unpeeled, s)
      invariant sep != Nothing ==> Scan(Unpeeled, s).sep == sep && Scan(Unpeeled, s).peeler.n == i
      invariant sep != Nothing ==>
        Scan(Unpeeled, s).peeler.hasQuote == hasQuote && Scan(Unpeeled, s).peeler.conflict == conflict
      decreases |s| - i
    {
      var ch := s[i];
      assert s[i..] == [ch] + s[i + 1..];
      ghost var p := Peeler(i, quote, dash, bang, first, hasQuote, conflict);
      ScanOne(p, ch, s[i + 1..]);
      var wasFirst := first;
      first := false;
      if ch == QUOTE {
        if wasFirst {
          hasQuote := true;
        }
        dash := false;
        quote := !quote;
      } else if quote {
        dash := false;
      } else if ch == ':' && !dash {
        sep := Colon;
      } else if ch == '=' && !dash {
        sep := Equals;
      } else if ch == '-' && !dash {
        dash := true;
      } else if ch == '>' && dash {
        sep := Arrow;
      } else if ch == '!' {
        conflict := true;
        if !bang {
          bang := true;
          if i == 0 {
            first := true;
          }
        } else {
          sep := Bang;
        }
      } else {
        dash := false;
      }
      i := i + 1;
    }
    if sep == Nothing {
      assert s[i..] == [];
      ScanNone(Peeler(i, quote, dash, bang, first, hasQuote, conflict));
    }
  }

  class TDiffPart {
    var part: Part

    constructor ()
      ensures part == Part(None, None, None, None, None, false, false, false)
    {
      part := Part(None, None, None, None, None, false, false, false);
    }

    method PeelFrom(s: string) returns (result: string, sep: Sep, rem: string, hasQuote: bool)
      modifies this
      ensures var e := Peel(s);
        result == e.result && sep == e.sep && rem == e.rem && hasQuote == e.hasQuote &&
        part == old(part).(conflict := old(part).conflict || e.conflict)
    {
      hide Scan, Replace;
      var i, conflict;
      i, sep, hasQuote, conflict := ScanPart(s);
      ScanStops(Unpeeled, s);
      result := s;
      rem := "";
      if sep != Nothing {
        result := s[..i - Width(sep)];
        if result != "" && result[0] == '!' {
          result := result[1..];
        }
        rem := s[i..];
      }
      if hasQuote {
        result := Stripped(result);
        result := ReplaceIn(result, [QUOTE, QUOTE], [QUOTE]);
      }
      part := part.(conflict := part.conflict || conflict);
    }

    method ApplyElement(txt: string, pre: Sep, post: Sep, quoted: bool, columnLike: bool) returns (sep: Sep)
      modifies this
      ensures (part, sep) == Element(old(part), txt, pre, post, quoted, columnLike)
    {
      sep := post;
      if post == Bang {
        if IsGiven(txt, quoted) {
          part := part.(pval := Some(CellOf(txt, quoted)));
        }
        return pre;
      }
      if pre == Nothing {
        if !columnLike && post != Equals && post != Colon {
          if IsGiven(txt, quoted) {
            part := part.(val := Some(CellOf(txt, quoted)));
          }
        } else {
          part := part.(key := Some(txt));
        }
      } else if pre == Arrow {
        if !columnLike {
          if IsGiven(txt, quoted) {
            part := part.(nval := Some(CellOf(txt, quoted)));
          }
          if part.val.None? {
            part := part.(isFresh := true);
          }
        } else {
          part := part.(isFresh := true);
        }
      } else if pre == Equals || pre == Colon {
        part := part.(isId := pre == Equals);
        if !columnLike && IsGiven(txt, quoted) {
          part := part.(val := Some(CellOf(txt, quoted)));
        }
      }
    }

    method Apply(s: string, columnLike: bool)
      modifies this
      ensures part == PartOf(s, columnLike, old(part).pval)
    {
      hide Peel, Element;
      part := Part(None, None, None, None, part.pval, false, false, false);
      ghost var start := part;
      var rest, pre, go := s, Nothing, true;
      var k := 0;
      while go && k < 4
        invariant k <= 4
        invariant (if go then Elements(part, rest, pre, columnLike, 4 - k) else part) ==
          Elements(start, s, Nothing, columnLike, 4)
        decreases 4 - k
      {
        var r, sep, rem, q := PeelFrom(rest);
        var post := ApplyElement(r, pre, sep, q, columnLike);
        go := sep != Nothing;
        pre := post;
        rest := rem;
        k := k + 1;
      }
      if part.conflict && part.nval.Some? {
        part := part.(cval := part.nval, nval := if part.val.Some? then part.val else part.nval);
      }
    }
  }

  // ---------------------------------------------------------------------------
  // What `apply` leaves standing

  /** One of the first `most` elements of a part is a parent value: it is given, and a `!` separator follows. */
  predicate GivesParent(s: string, most: nat)
    decreases most
  {
    most > 0 &&
    var e := Peel(s);
    (e.sep == Bang && IsGiven(e.result, e.hasQuote)) || (e.sep != Nothing && GivesParent(e.rem, most - 1))
  }

  lemma ElementParent(p: Part, txt: string, pre: Sep, post: Sep, quoted: bool, columnLike: bool)
    ensures Element(p, txt, pre, post, quoted, columnLike).0.pval ==
            if post == Bang then Given(txt, quoted, p.pval) else p.pval
    ensures Element(p, txt, pre, post, quoted, columnLike).1 == if post == Bang then pre else post
  {
  }

  lemma ElementsNext(p: Part, s: string, pre: Sep, columnLike: bool, most: nat)
    requires most > 0
    ensures var e := Peel(s);
      var (q, post) := Element(p.(conflict := p.conflict || e.conflict), e.result, pre, e.sep, e.hasQuote, columnLike);
      Elements(p, s, pre, columnLike, most) ==
        if e.sep == Nothing then q else Elements(q, e.rem, post, columnLike, most - 1)
  {
    hide Peel, Element;
  }

  lemma {:induction false} ElementsParent(p: Part, s: string, pre: Sep, columnLike: bool, most: nat)
    ensures !GivesParent(s, most) ==> Elements(p, s, pre, columnLike, most).pval == p.pval
    ensures GivesParent(s, most) || p.pval.Some? ==> Elements(p, s, pre, columnLike, most).pval.Some?
    decreases most
  {
    if most > 0 {
      hide Peel, Element, Elements;
      var e := Peel(s);
      var p0 := p.(conflict := p.conflict || e.conflict);
      var (q, post) := Element(p0, e.result, pre, e.sep, e.hasQuote, columnLike);
      ElementParent(p0, e.result, pre, e.sep, e.hasQuote, columnLike);
      ElementsNext(p, s, pre, columnLike, most);
      if e.sep != Nothing {
        ElementsParent(q, e.rem, post, columnLike, most - 1);
      }
    }
  }

  /** An earlier parent value shows through a new part exactly when the part gives none of its own. */
  lemma EarlierParentShows(s: string, columnLike: bool)
    ensures (forall pval :: PartOf(s, columnLike, pval).pval == pval) <==> !GivesParent(s, 4)
  {
    var none := Part(None, None, None, None, None, false, false, false);
    hide Elements, GivesParent;
    forall pval | !GivesParent(s, 4) ensures PartOf(s, columnLike, pval).pval == pval {
      ElementsParent(none.(pval := pval), s, Nothing, columnLike, 4);
    }
    if GivesParent(s, 4) {
      ElementsParent(none, s, Nothing, columnLike, 4);
      assert PartOf(s, columnLike, None).pval != None;
    }
  }

  lemma {:induction false} NoBangNoStop(p: Peeler, s: string)
    requires '!' !in s
    ensures Scan(p, s).sep != Bang
    decreases |s|
  {
    if s != [] && Separator(p, s[0]) == Nothing {
      NoBangNoStop(Move(p, s[0]), s[1..]);
    }
  }

  /** In particular it shows through every part without a `!`. */
  lemma {:induction false} NoBangGivesNoParent(s: string, most: nat)
    requires '!' !in s
    ensures !GivesParent(s, most)
    decreases most
  {
    if most > 0 {
      NoBangNoStop(Unpeeled, s);
      ScanStops(Unpeeled, s);
      NoBangGivesNoParent(Peel(s).rem, most - 1);
    }
  }
}
