/** The incremental CSV parser (src/libcsv/libcsv.c), without the strict, append-null and
    report-all-newlines options, and with the default notions of space and line end. */
module CsvParser {

  const QUOTE := '"'
  const SPACE := ' '
  const TAB := '\t'
  const CR := '\r'
  const LF := '\n'

  predicate IsSpace(c: char) { c == SPACE || c == TAB }
  predicate IsTerm(c: char) { c == CR || c == LF }

  datatype PState = RowNotBegun | FieldNotBegun | FieldBegun | FieldMightHaveEnded

  /** A callback: a field with its quoted flag, or the end of a row. */
  datatype Event = Field(text: seq<char>, quoted: bool) | EndRow

  /** The parser between characters; `entry` is the used part of the entry buffer. */
  datatype Core = Core(pstate: PState, quoted: bool, spaces: nat, entry: seq<char>) {
    /** In every reachable state the trims cannot underflow, and an open quoted field has no pending spaces. */
    predicate Safe() {
      && spaces <= |entry|
      && (pstate.FieldMightHaveEnded? ==> quoted && spaces < |entry|)
      && (pstate.FieldBegun? && quoted ==> spaces == 0)
      && (pstate.RowNotBegun? || pstate.FieldNotBegun? ==> entry == [] && spaces == 0 && !quoted)
    }
  }

  const Start := Core(RowNotBegun, false, 0, [])

  function Chop(s: seq<char>, n: nat): seq<char> {
    if n <= |s| then s[..|s| - n] else []
  }

  /** SUBMIT_FIELD: an unquoted field loses its trailing spaces. */
  function FieldOf(s: Core): Event {
    Field(if s.quoted then s.entry else Chop(s.entry, s.spaces), s.quoted)
  }

  const NextField := Core(FieldNotBegun, false, 0, [])

  /** One character. */
  function Step(delim: char, s: Core, c: char): (Core, seq<Event>) {
    match s.pstate
    case RowNotBegun | FieldNotBegun =>
      if IsSpace(c) && c != delim then (s, [])
      else if IsTerm(c) then
        if s.pstate.FieldNotBegun? then (Start, [FieldOf(s), EndRow]) else (s, [])
      else if c == delim then (NextField, [FieldOf(s)])
      else if c == QUOTE then (s.(pstate := FieldBegun, quoted := true), [])
      else (s.(pstate := FieldBegun, quoted := false, entry := s.entry + [c]), [])
    case FieldBegun =>
      if c == QUOTE then
        if s.quoted then (s.(pstate := FieldMightHaveEnded, entry := s.entry + [c]), [])
        else (s.(spaces := 0, entry := s.entry + [c]), [])
      else if c == delim then
        if s.quoted then (s.(entry := s.entry + [c]), []) else (NextField, [FieldOf(s)])
      else if IsTerm(c) then
        if s.quoted then (s.(entry := s.entry + [c]), []) else (Start, [FieldOf(s), EndRow])
      else if !s.quoted && IsSpace(c) then (s.(spaces := s.spaces + 1, entry := s.entry + [c]), [])
      else (s.(spaces := 0, entry := s.entry + [c]), [])
    case FieldMightHaveEnded =>
      if c == delim then (NextField, [FieldOf(s.(entry := Chop(s.entry, s.spaces + 1)))])
      else if IsTerm(c) then (Start, [FieldOf(s.(entry := Chop(s.entry, s.spaces + 1))), EndRow])
      else if IsSpace(c) then (s.(spaces := s.spaces + 1, entry := s.entry + [c]), [])
      else if c == QUOTE then
        if s.spaces > 0 then (s.(spaces := 0, entry := s.entry + [c]), [])
        else (s.(pstate := FieldBegun), [])
      else (s.(pstate := FieldBegun, spaces := 0, entry := s.entry + [c]), [])
  }

  /** A run over a text: the final state and all callbacks. */
  function Run(delim: char, s: Core, input: seq<char>): (r: (Core, seq<Event>)) {
    if input == [] then (s, [])
    else
      var (mid, first) := Run(delim, s, input[..|input| - 1]);
      var (end, last) := Step(delim, mid, input[|input| - 1]);
      (end, first + last)
  }

  /** `csv_fini`. */
  function Fini(s: Core): seq<Event> {
    match s.pstate
    case RowNotBegun => []
    case FieldMightHaveEnded => [FieldOf(s.(entry := Chop(s.entry, s.spaces + 1))), EndRow]
    case _ => [FieldOf(s), EndRow]
  }

  lemma StepIsSafe(delim: char, s: Core, c: char)
    requires s.Safe()
    ensures Step(delim, s, c).0.Safe()
  {
  }

  /** Every state reachable from the start is safe. */
  lemma {:induction false} RunIsSafe(delim: char, input: seq<char>)
    ensures Run(delim, Start, input).0.Safe()
  {
    if input != [] {
      RunIsSafe(delim, input[..|input| - 1]);
      StepIsSafe(delim, Run(delim, Start, input[..|input| - 1]).0, input[|input| - 1]);
    }
  }

  lemma RunOne(delim: char, s: Core, c: char)
    ensures Run(delim, s, [c]) == Step(delim, s, c)
  {
    assert [c][..0] == [];
    assert [] + Step(delim, s, c).1 == Step(delim, s, c).1;
  }

  lemma RunNothing(delim: char, s: Core, input: seq<char>)
    ensures Run(delim, s, input[..0]) == (s, [])
  {
  }

  lemma RunGrows(delim: char, s: Core, input: seq<char>, pos: nat)
    requires pos < |input|
    ensures var (mid, first) := Run(delim, s, input[..pos]);
            var (end, last) := Step(delim, mid, input[pos]);
            Run(delim, s, input[..pos + 1]) == (end, first + last)
  {
    assert input[..pos + 1][..pos] == input[..pos];
  }

  /** Parsing in two pieces is parsing the whole. */
  lemma {:induction false} RunConcat(delim: char, s: Core, a: seq<char>, b: seq<char>)
    ensures var (mid, first) := Run(delim, s, a);
            var (end, last) := Run(delim, mid, b);
            Run(delim, s, a + b) == (end, first + last)
  {
    hide Step;
    var (mid, first) := Run(delim, s, a);
    if b == [] {
      assert a + b == a && first + [] == first;
    } else {
      var front := b[..|b| - 1];
      RunConcat(delim, s, a, front);
      assert (a + b)[..|a + b| - 1] == a + front;
      var (mid', more) := Run(delim, mid, front);
      var last := Step(delim, mid', b[|b| - 1]).1;
      assert (first + more) + last == first + (more + last);
    }
  }

  function Join(chunks: seq<seq<char>>): seq<char> {
    if chunks == [] then [] else Join(chunks[..|chunks| - 1]) + chunks[|chunks| - 1]
  }

  // ---------------------------------------------------------------------------
  // The parser object

  datatype Status = Ok | TooBig | NoMemory

  class CsvParser {
    const delim: char
    const blockSize: nat
    const sizeMax: nat
    const canAllocate: nat -> bool
    var buffer: array<char>
    var entryPos: nat
    var pstate: PState
    var quoted: bool
    var spaces: nat
    var status: Status
    var events: seq<Event>   // the callbacks made so far

    ghost predicate Valid()
      reads this, buffer
    {
      entryPos <= buffer.Length <= sizeMax && View().Safe()
    }

    ghost function View(): Core
      reads this, buffer
      requires entryPos <= buffer.Length
    {
      Core(pstate, quoted, spaces, buffer[..entryPos])
    }

    constructor (delim: char, blockSize: nat, sizeMax: nat, canAllocate: nat -> bool)
      ensures Valid() && View() == Start && events == [] && status == Ok
      ensures this.delim == delim && this.canAllocate == canAllocate && this.sizeMax == sizeMax
        && this.blockSize == blockSize
      ensures fresh(buffer)
    {
      this.delim, this.blockSize, this.sizeMax, this.canAllocate := delim, blockSize, sizeMax, canAllocate;
      buffer := new char[0];
      entryPos, pstate, quoted, spaces, status, events := 0, RowNotBegun, false, 0, Ok, [];
    }

    /** `csv_increase_buffer`: ask for a block, halve the request until it is granted or nothing is left of it. */
    method IncreaseBuffer() returns (ok: bool)
      requires Valid()
      modifies this`buffer, this`status
      ensures Valid() && View() == old(View()) && events == old(events)
      ensures ok ==> fresh(buffer) && buffer.Length > old(buffer.Length)
      ensures !ok ==> buffer == old(buffer) && status != Ok
      ensures blockSize > 0 && old(buffer.Length) < sizeMax && (forall n: nat :: n <= sizeMax ==> canAllocate(n)) ==> ok
    {
      var toAdd := blockSize;
      if buffer.Length + toAdd >= sizeMax {
        toAdd := sizeMax - buffer.Length;
      }
      if toAdd == 0 {
        status := TooBig;
        return false;
      }
      while !canAllocate(buffer.Length + toAdd)
        invariant 0 < toAdd && buffer.Length + toAdd <= sizeMax && buffer == old(buffer) && status == old(status)
        invariant View() == old(View())
        decreases toAdd
      {
        toAdd := toAdd / 2;
        if toAdd == 0 {
          status := NoMemory;
          return false;
        }
      }
      var bigger := new char[buffer.Length + toAdd](i requires 0 <= i reads this, buffer =>
                                                      if i < buffer.Length then buffer[i] else ' ');
      assert bigger[..entryPos] == buffer[..entryPos];
      buffer := bigger;
      return true;
    }

    /** SUBMIT_CHAR. */
    method SubmitChar(c: char)
      requires entryPos < buffer.Length
      modifies this`entryPos, buffer
      ensures entryPos == old(entryPos) + 1 && buffer[..entryPos] == old(buffer[..entryPos]) + [c]
    {
      buffer[entryPos] := c;
      entryPos := entryPos + 1;
    }

    /** SUBMIT_FIELD. */
    method SubmitField()
      requires entryPos <= buffer.Length && (!quoted ==> spaces <= entryPos)
      modifies this`entryPos, this`pstate, this`quoted, this`spaces, this`events
      ensures events == old(events) + [FieldOf(old(View()))]
      ensures entryPos == 0 && View() == NextField
    {
      if !quoted {
        assert buffer[..entryPos - spaces] == buffer[..entryPos][..entryPos - spaces];
        entryPos := entryPos - spaces;
      }
      events := events + [Field(buffer[..entryPos], quoted)];
      pstate := FieldNotBegun;
      entryPos, quoted, spaces := 0, false, 0;
    }

    /** SUBMIT_ROW. */
    method SubmitRow()
      modifies this`entryPos, this`pstate, this`quoted, this`spaces, this`events
      ensures events == old(events) + [EndRow] && entryPos == 0 && View() == Start
    {
      events := events + [EndRow];
      pstate := RowNotBegun;
      entryPos, quoted, spaces := 0, false, 0;
    }

    method ConsumeOutside(c: char)
      requires Valid() && entryPos < buffer.Length && (pstate.RowNotBegun? || pstate.FieldNotBegun?)
      modifies this`entryPos, this`pstate, this`quoted, this`spaces, this`events, buffer
      ensures Valid() && entryPos <= old(entryPos) + 1
      ensures View() == Step(delim, old(View()), c).0
      ensures events == old(events) + Step(delim, old(View()), c).1
    {
      if IsSpace(c) && c != delim {
      } else if IsTerm(c) {
        if pstate.FieldNotBegun? {
          SubmitField();
          SubmitRow();
        }
      } else if c == delim {
        SubmitField();
      } else if c == QUOTE {
        pstate, quoted := FieldBegun, true;
      } else {
        pstate, quoted := FieldBegun, false;
        SubmitChar(c);
      }
    }

    method ConsumeInside(c: char)
      requires Valid() && entryPos < buffer.Length && pstate.FieldBegun?
      modifies this`entryPos, this`pstate, this`quoted, this`spaces, this`events, buffer
      ensures Valid() && entryPos <= old(entryPos) + 1
      ensures View() == Step(delim, old(View()), c).0
      ensures events == old(events) + Step(delim, old(View()), c).1
    {
      if c == QUOTE {
        if quoted {
          SubmitChar(c);
          pstate := FieldMightHaveEnded;
        } else {
          SubmitChar(c);
          spaces := 0;
        }
      } else if c == delim {
        if quoted { SubmitChar(c); } else { SubmitField(); }
      } else if IsTerm(c) {
        if !quoted {
          SubmitField();
          SubmitRow();
        } else {
          SubmitChar(c);
        }
      } else if !quoted && IsSpace(c) {
        SubmitChar(c);
        spaces := spaces + 1;
      } else {
        SubmitChar(c);
        spaces := 0;
      }
    }

    /** Getting rid of trailing spaces and the quote before them. */
    method DropQuote()
      requires entryPos <= buffer.Length && spaces < entryPos
      modifies this`entryPos
      ensures entryPos == old(entryPos) - spaces - 1
        && View() == old(View()).(entry := Chop(old(View()).entry, spaces + 1))
    {
      assert buffer[..entryPos - spaces - 1] == buffer[..entryPos][..entryPos - spaces - 1];
      entryPos := entryPos - (spaces + 1);
    }

    method ConsumeAfterQuote(c: char)
      requires Valid() && entryPos < buffer.Length && pstate.FieldMightHaveEnded?
      modifies this`entryPos, this`pstate, this`quoted, this`spaces, this`events, buffer
      ensures Valid() && entryPos <= old(entryPos) + 1
      ensures View() == Step(delim, old(View()), c).0
      ensures events == old(events) + Step(delim, old(View()), c).1
    {
      if c == delim {
        DropQuote();
        SubmitField();
      } else if IsTerm(c) {
        DropQuote();
        SubmitField();
        SubmitRow();
      } else if IsSpace(c) {
        SubmitChar(c);
        spaces := spaces + 1;
      } else if c == QUOTE {
        if spaces > 0 {
          spaces := 0;
          SubmitChar(c);
        } else {
          pstate := FieldBegun;
        }
      } else {
        pstate, spaces := FieldBegun, 0;
        SubmitChar(c);
      }
    }

    /** The switch of `csv_parse` on one character. */
    method Consume(c: char)
      requires Valid() && entryPos < buffer.Length
      modifies this`entryPos, this`pstate, this`quoted, this`spaces, this`events, buffer
      ensures Valid() && entryPos <= old(entryPos) + 1
      ensures View() == Step(delim, old(View()), c).0
      ensures events == old(events) + Step(delim, old(View()), c).1
    {
      hide Step;
      match pstate
      case RowNotBegun | FieldNotBegun => ConsumeOutside(c);
      case FieldBegun => ConsumeInside(c);
      case FieldMightHaveEnded => ConsumeAfterQuote(c);
    }

    /** `csv_parse`: on a failed allocation it stops early, having processed exactly the prefix it reports. */
    method Parse(input: seq<char>) returns (pos: nat)
      requires Valid()
      modifies this, buffer
      ensures Valid() && pos <= |input| && entryPos <= old(entryPos) + pos
      ensures View() == Run(delim, old(View()), input[..pos]).0
      ensures events == old(events) + Run(delim, old(View()), input[..pos]).1
      ensures buffer == old(buffer) || fresh(buffer)
      ensures pos < |input| ==> status != Ok
      ensures (blockSize > 0 && old(entryPos) + |input| <= sizeMax
               && forall n: nat :: n <= sizeMax ==> canAllocate(n)) ==>
                pos == |input|
    {
      hide Step, Run, Core.Safe;
      pos := 0;
      ghost var start := View();
      RunNothing(delim, start, input);
      assert events + [] == events;
      if buffer.Length == 0 && pos < |input| {
        var ok := IncreaseBuffer();
        if !ok {
          return;
        }
      }
      while pos < |input|
        invariant Valid() && pos <= |input| && entryPos <= old(entryPos) + pos
        invariant View() == Run(delim, start, input[..pos]).0
        invariant events == old(events) + Run(delim, start, input[..pos]).1
        invariant buffer == old(buffer) || fresh(buffer)
      {
        if entryPos == buffer.Length {
          var ok := IncreaseBuffer();
          if !ok {
            return;
          }
        }
        RunGrows(delim, start, input, pos);
        ghost var before, r := events, Run(delim, start, input[..pos]).1;
        Consume(input[pos]);
        assert events == old(events) + (r + events[|before|..]);
        pos := pos + 1;
      }
    }

    /** `csv_fini`. */
    method Finish()
      requires Valid()
      modifies this
      ensures Valid() && View() == Start && status == Ok
      ensures events == old(events) + Fini(old(View()))
    {
      if !pstate.RowNotBegun? {
        if pstate.FieldMightHaveEnded? {
          DropQuote();
        }
        SubmitField();
        SubmitRow();
      }
      spaces, quoted, entryPos, status := 0, false, 0, Ok;
      pstate := RowNotBegun;
    }
  }

  /** However a text is cut into chunks, feeding the chunks and finishing makes the same callbacks as
      feeding the whole text, and every byte is consumed. */
  method ParseChunks(delim: char, blockSize: nat, sizeMax: nat, canAllocate: nat -> bool, chunks: seq<seq<char>>)
    returns (events: seq<Event>, consumed: nat)
    requires blockSize > 0 && |Join(chunks)| <= sizeMax && forall n: nat :: n <= sizeMax ==> canAllocate(n)
    ensures consumed == |Join(chunks)|
    ensures events == Run(delim, Start, Join(chunks)).1 + Fini(Run(delim, Start, Join(chunks)).0)
  {
    hide Step, Run, Join, Core.Safe;
    JoinNothing(chunks);
    RunNothing(delim, Start, []);
    var p := new CsvParser(delim, blockSize, sizeMax, canAllocate);
    consumed := 0;
    for i := 0 to |chunks|
      invariant p.Valid() && fresh(p) && fresh(p.buffer) && consumed == |Join(chunks[..i])|
      invariant p.delim == delim && p.blockSize == blockSize && p.sizeMax == sizeMax && p.canAllocate == canAllocate
      invariant p.entryPos <= consumed
      invariant p.View() == Run(delim, Start, Join(chunks[..i])).0 && p.events == Run(delim, Start, Join(chunks[..i])).1
    {
      JoinGrows(chunks, i);
      RunConcat(delim, Start, Join(chunks[..i]), chunks[i]);
      assert chunks[i][..|chunks[i]|] == chunks[i];
      var n := p.Parse(chunks[i]);
      consumed := consumed + n;
    }
    assert chunks[..|chunks|] == chunks;
    p.Finish();
    events := p.events;
  }

  lemma JoinNothing(chunks: seq<seq<char>>)
    ensures Join(chunks[..0]) == []
  {
  }

  lemma {:induction false} JoinGrows(chunks: seq<seq<char>>, i: nat)
    requires i < |chunks|
    ensures Join(chunks[..i + 1]) == Join(chunks[..i]) + chunks[i]
    ensures |Join(chunks[..i + 1])| <= |Join(chunks)|
    decreases |chunks|
  {
    assert chunks[..i + 1][..i] == chunks[..i];
    if i + 1 < |chunks| {
      var front := chunks[..|chunks| - 1];
      JoinGrows(front, i);
      assert front[..i + 1] == chunks[..i + 1];
    } else {
      assert chunks[..i + 1] == chunks;
    }
  }
}
