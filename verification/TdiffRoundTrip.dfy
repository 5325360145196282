/** A TDIFF row printed and read back: the parts always come apart as printed, and a slot is read back
    exactly when no text in it is a lone star or holds an escape of its own, and its old text does not
    run into the arrow. */
module TdiffRoundTrip {
  import opened Common
  import opened Tdiff

  // ---------------------------------------------------------------------------
  // Escapes

  /** One pass of unescaping: a backslash and `b` become `c`. */
  function Pass(s: string, b: char, c: char): string {
    Replace(s, [BACKSLASH, b], [c])
  }

  lemma StartsPair(s: string, a: char, b: char)
    ensures Starts(s, [a, b]) <==> |s| >= 2 && s[0] == a && s[1] == b
  {
    if |s| >= 2 {
      assert s[..2] == [s[0], s[1]];
    }
  }

  lemma StartsOne(s: string, a: char)
    ensures Starts(s, [a]) <==> |s| >= 1 && s[0] == a
  {
    if |s| >= 1 {
      assert s[..1] == [s[0]];
    }
  }

  predicate HasPair(s: string, b: char) {
    exists i :: 0 <= i < |s| - 1 && s[i] == BACKSLASH && s[i + 1] == b
  }

  lemma {:induction false} PassChanges(s: string, b: char, c: char)
    ensures |Pass(s, b, c)| <= |s|
    ensures HasPair(s, b) <==> |Pass(s, b, c)| < |s|
    ensures !HasPair(s, b) ==> Pass(s, b, c) == s
  {
    StartsPair(s, BACKSLASH, b);
    if s != [] {
      if Starts(s, [BACKSLASH, b]) {
        assert s[0] == BACKSLASH && s[0 + 1] == b;
        PassChanges(s[2..], b, c);
      } else {
        PassChanges(s[1..], b, c);
        if HasPair(s, b) {
          var i :| 0 <= i < |s| - 1 && s[i] == BACKSLASH && s[i + 1] == b;
          assert s[1..][i - 1] == BACKSLASH && s[1..][i - 1 + 1] == b;
        }
      }
    }
  }

  /** No backslash is followed by `n`, `r` or a backslash. */
  predicate Clean(t: string) {
    !HasPair(t, 'n') && !HasPair(t, 'r') && !HasPair(t, BACKSLASH)
  }

  lemma UnescapedIffClean(t: string)
    ensures Unescaped(t) == t <==> Clean(t)
  {
    var u := Pass(t, 'n', LF);
    var v := Pass(u, 'r', CR);
    PassChanges(t, 'n', LF);
    PassChanges(u, 'r', CR);
    PassChanges(v, BACKSLASH, BACKSLASH);
    assert Unescaped(t) == Pass(v, BACKSLASH, BACKSLASH);
  }

  /** Reading a letter escape also reads what printing it wrote. */
  lemma {:induction false} PassUndoes(s: string, b: char, e: char)
    requires b != BACKSLASH && e != BACKSLASH && e != b
    ensures Pass(Replace(s, [e], [BACKSLASH, b]), b, e) == Pass(s, b, e)
  {
    if s != [] {
      var rep := [BACKSLASH, b];
      var w := Replace(s, [e], rep);
      StartsOne(s, e);
      StartsPair(s, BACKSLASH, b);
      StartsPair(w, BACKSLASH, b);
      PassUndoes(s[1..], b, e);
      if s[0] == e {
        assert w[2..] == Replace(s[1..], [e], rep);
      } else {
        assert w[1..] == Replace(s[1..], [e], rep);
        if Starts(s, rep) {
          StartsOne(s[1..], e);
          PassUndoes(s[2..], b, e);
          assert s[1..][1..] == s[2..];
          assert w[2..] == Replace(s[2..], [e], rep);
        } else if |s| > 1 {
          StartsOne(s[1..], e);
        }
      }
    }
  }

  lemma PassCons(ch: char, y: string, b: char, c: char)
    requires ch != BACKSLASH || y == [] || y[0] != b
    ensures Pass([ch] + y, b, c) == [ch] + Pass(y, b, c)
  {
    StartsPair([ch] + y, BACKSLASH, b);
    assert ([ch] + y)[1..] == y;
  }

  lemma PassPair(y: string, b: char, c: char)
    ensures Pass([BACKSLASH, b] + y, b, c) == [c] + Pass(y, b, c)
  {
    StartsPair([BACKSLASH, b] + y, BACKSLASH, b);
    assert ([BACKSLASH, b] + y)[2..] == y;
  }

  lemma ReplaceCons(ch: char, y: string, e: char, rep: string)
    ensures Replace([ch] + y, [e], rep) == (if ch == e then rep else [ch]) + Replace(y, [e], rep)
  {
    StartsOne([ch] + y, e);
    assert ([ch] + y)[1..] == y;
  }

  lemma TwoThen(a: char, b: char, y: string)
    ensures [a, b] + y == [a] + ([b] + y)
  {
  }

  function EscapedReturns(s: string): string {
    Replace(s, [CR], [BACKSLASH, 'r'])
  }

  /** Escaping carriage returns and reading line feeds do not meet. */
  predicate Commutes(s: string) {
    Pass(EscapedReturns(s), 'n', LF) == EscapedReturns(Pass(s, 'n', LF))
  }

  lemma CommutesAtReturn(z: string)
    requires Commutes(z)
    ensures Commutes([CR] + z)
  {
    var w := EscapedReturns(z);
    ReplaceCons(CR, z, CR, [BACKSLASH, 'r']);
    PassCons(CR, z, 'n', LF);
    ReplaceCons(CR, Pass(z, 'n', LF), CR, [BACKSLASH, 'r']);
    hide Replace, Pass;
    TwoThen(BACKSLASH, 'r', w);
    PassCons(BACKSLASH, ['r'] + w, 'n', LF);
    PassCons('r', w, 'n', LF);
    TwoThen(BACKSLASH, 'r', Pass(w, 'n', LF));
  }

  lemma CommutesAtFeed(y: string)
    requires Commutes(y)
    ensures Commutes([BACKSLASH, 'n'] + y)
  {
    var v := EscapedReturns(y);
    TwoThen(BACKSLASH, 'n', y);
    ReplaceCons(BACKSLASH, ['n'] + y, CR, [BACKSLASH, 'r']);
    ReplaceCons('n', y, CR, [BACKSLASH, 'r']);
    PassPair(y, 'n', LF);
    ReplaceCons(LF, Pass(y, 'n', LF), CR, [BACKSLASH, 'r']);
    hide Replace, Pass;
    TwoThen(BACKSLASH, 'n', v);
    PassPair(v, 'n', LF);
  }

  lemma CommutesElsewhere(ch: char, z: string)
    requires Commutes(z) && ch != CR && (ch != BACKSLASH || z == [] || z[0] != 'n')
    ensures Commutes([ch] + z)
  {
    var w := EscapedReturns(z);
    if z != [] {
      assert z == [z[0]] + z[1..];
      ReplaceCons(z[0], z[1..], CR, [BACKSLASH, 'r']);
    }
    assert w == [] || w[0] != 'n' || ch != BACKSLASH;
    ReplaceCons(ch, z, CR, [BACKSLASH, 'r']);
    PassCons(ch, z, 'n', LF);
    ReplaceCons(ch, Pass(z, 'n', LF), CR, [BACKSLASH, 'r']);
    hide Replace, Pass;
    PassCons(ch, w, 'n', LF);
  }

  lemma {:induction false} PassCommutes(s: string)
    ensures Commutes(s)
  {
    if s != [] {
      PassCommutes(s[1..]);
      if |s| > 1 {
        PassCommutes(s[2..]);
      }
      hide Commutes;
      assert s == [s[0]] + s[1..];
      if s[0] == CR {
        CommutesAtReturn(s[1..]);
      } else if |s| > 1 && s[0] == BACKSLASH && s[1] == 'n' {
        assert s == [BACKSLASH, 'n'] + s[2..];
        CommutesAtFeed(s[2..]);
      } else {
        CommutesElsewhere(s[0], s[1..]);
      }
    }
  }

  lemma EscapesVanish(s: string)
    ensures Unescaped(Escaped(s)) == Unescaped(s)
  {
    var e := Replace(s, [LF], [BACKSLASH, 'n']);
    PassUndoes(s, 'n', LF);
    PassCommutes(e);
    PassUndoes(Pass(e, 'n', LF), 'r', CR);
    assert Pass(Escaped(s), 'n', LF) == Replace(Pass(s, 'n', LF), [CR], [BACKSLASH, 'r']);
    assert Pass(Pass(Escaped(s), 'n', LF), 'r', CR) == Pass(Pass(s, 'n', LF), 'r', CR);
  }

  // ---------------------------------------------------------------------------
  // Escapes across the pieces of a part

  lemma {:induction false} PassPulls(x: string, y: string, b: char, c: char)
    requires BACKSLASH !in x
    ensures Pass(x + y, b, c) == x + Pass(y, b, c)
  {
    if x == [] {
      assert x + y == y;
    } else {
      StartsPair(x + y, BACKSLASH, b);
      assert (x + y)[1..] == x[1..] + y;
      PassPulls(x[1..], y, b, c);
    }
  }

  lemma {:induction false} PassJoins(x: string, y: string, b: char, c: char)
    requires y != [] && y[0] != b && y[0] != BACKSLASH
    ensures Pass(x + y, b, c) == Pass(x, b, c) + Pass(y, b, c)
    ensures Pass(y, b, c) != [] && Pass(y, b, c)[0] == y[0]
  {
    PassHead(y, b, c);
    if x == [] {
      assert x + y == y;
    } else if |x| > 1 && x[0] == BACKSLASH && x[1] == b {
      var z := x[2..];
      assert x == [BACKSLASH, b] + z && x + y == [BACKSLASH, b] + (z + y);
      PassPair(z, b, c);
      PassPair(z + y, b, c);
      PassJoins(z, y, b, c);
      hide Pass;
      assert [c] + (Pass(z, b, c) + Pass(y, b, c)) == [c] + Pass(z, b, c) + Pass(y, b, c);
    } else {
      var z := x[1..];
      assert x == [x[0]] + z && x + y == [x[0]] + (z + y);
      PassCons(x[0], z, b, c);
      PassCons(x[0], z + y, b, c);
      PassJoins(z, y, b, c);
      hide Pass;
      assert [x[0]] + (Pass(z, b, c) + Pass(y, b, c)) == [x[0]] + Pass(z, b, c) + Pass(y, b, c);
    }
  }

  lemma PassHead(y: string, b: char, c: char)
    requires y != [] && y[0] != BACKSLASH
    ensures Pass(y, b, c) != [] && Pass(y, b, c)[0] == y[0]
  {
    assert y == [y[0]] + y[1..];
    PassCons(y[0], y[1..], b, c);
  }

  lemma UnescapedPulls(x: string, y: string)
    requires BACKSLASH !in x
    ensures Unescaped(x + y) == x + Unescaped(y)
  {
    PassPulls(x, y, 'n', LF);
    PassPulls(x, Pass(y, 'n', LF), 'r', CR);
    PassPulls(x, Pass(Pass(y, 'n', LF), 'r', CR), BACKSLASH, BACKSLASH);
  }

  lemma UnescapedJoins(x: string, y: string)
    requires y != [] && y[0] != 'n' && y[0] != 'r' && y[0] != BACKSLASH
    ensures Unescaped(x + y) == Unescaped(x) + Unescaped(y)
  {
    PassJoins(x, y, 'n', LF);
    var x1, y1 := Pass(x, 'n', LF), Pass(y, 'n', LF);
    PassJoins(x1, y1, 'r', CR);
    PassJoins(Pass(x1, 'r', CR), Pass(y1, 'r', CR), BACKSLASH, BACKSLASH);
  }

  lemma UnescapedPlain(x: string)
    requires BACKSLASH !in x
    ensures Unescaped(x) == x
  {
    UnescapedPulls(x, "");
    assert x + "" == x && Unescaped("") == "";
  }

  lemma DoubledCons(ch: char, y: string)
    ensures Doubled([ch] + y) == (if ch == QUOTE then [QUOTE, QUOTE] else [ch]) + Doubled(y)
  {
    assert ([ch] + y)[1..] == y;
  }

  predicate Doubles(t: string, b: char, c: char) {
    Pass(Doubled(t), b, c) == Doubled(Pass(t, b, c))
  }

  lemma DoublesAtQuote(z: string, b: char, c: char)
    requires b != QUOTE && Doubles(z, b, c)
    ensures Doubles([QUOTE] + z, b, c)
  {
    var w := Doubled(z);
    DoubledCons(QUOTE, z);
    PassCons(QUOTE, z, b, c);
    DoubledCons(QUOTE, Pass(z, b, c));
    hide Pass, Doubled;
    TwoThen(QUOTE, QUOTE, w);
    PassCons(QUOTE, [QUOTE] + w, b, c);
    PassCons(QUOTE, w, b, c);
    TwoThen(QUOTE, QUOTE, Pass(w, b, c));
  }

  lemma DoublesAtPair(y: string, b: char, c: char)
    requires b != QUOTE && c != QUOTE && Doubles(y, b, c)
    ensures Doubles([BACKSLASH, b] + y, b, c)
  {
    TwoThen(BACKSLASH, b, y);
    DoubledCons(BACKSLASH, [b] + y);
    DoubledCons(b, y);
    DoubledCons(c, Pass(y, b, c));
    PassPair(y, b, c);
    hide Pass, Doubled;
    TwoThen(BACKSLASH, b, Doubled(y));
    PassPair(Doubled(y), b, c);
  }

  lemma DoublesElsewhere(ch: char, z: string, b: char, c: char)
    requires b != QUOTE && ch != QUOTE && Doubles(z, b, c) && (ch != BACKSLASH || z == [] || z[0] != b)
    ensures Doubles([ch] + z, b, c)
  {
    var w := Doubled(z);
    if z != [] {
      assert z == [z[0]] + z[1..];
      DoubledCons(z[0], z[1..]);
    }
    assert w == [] || w[0] != b || ch != BACKSLASH;
    DoubledCons(ch, z);
    PassCons(ch, z, b, c);
    DoubledCons(ch, Pass(z, b, c));
    hide Pass, Doubled;
    PassCons(ch, w, b, c);
  }

  lemma {:induction false} PassDoubles(t: string, b: char, c: char)
    requires b != QUOTE && c != QUOTE
    ensures Doubles(t, b, c)
  {
    if t != [] {
      PassDoubles(t[1..], b, c);
      if |t| > 1 {
        PassDoubles(t[2..], b, c);
      }
      hide Doubles;
      assert t == [t[0]] + t[1..];
      if t[0] == QUOTE {
        DoublesAtQuote(t[1..], b, c);
      } else if |t| > 1 && t[0] == BACKSLASH && t[1] == b {
        assert t == [BACKSLASH, b] + t[2..];
        DoublesAtPair(t[2..], b, c);
      } else {
        DoublesElsewhere(t[0], t[1..], b, c);
      }
    }
  }

  lemma UnescapedDoubles(t: string)
    ensures Unescaped(Doubled(t)) == Doubled(Unescaped(t))
  {
    PassDoubles(t, 'n', LF);
    PassDoubles(Pass(t, 'n', LF), 'r', CR);
    PassDoubles(Pass(Pass(t, 'n', LF), 'r', CR), BACKSLASH, BACKSLASH);
  }

  lemma UnescapedQuoted(t: string)
    ensures Unescaped(Escaped(Quoted(t))) == Quoted(Unescaped(t))
  {
    EscapesVanish(Quoted(t));
    assert Quoted(t) == [QUOTE] + (Doubled(t) + [QUOTE]);
    UnescapedPulls([QUOTE], Doubled(t) + [QUOTE]);
    UnescapedJoins(Doubled(t), [QUOTE]);
    UnescapedPlain([QUOTE]);
    UnescapedDoubles(t);
  }

  lemma {:induction false} DoublesUndone(t: string)
    ensures Replace(Doubled(t), [QUOTE, QUOTE], [QUOTE]) == t
  {
    if t != [] {
      var w := Doubled(t);
      StartsPair(w, QUOTE, QUOTE);
      DoublesUndone(t[1..]);
      if t[0] == QUOTE {
        assert w[2..] == Doubled(t[1..]);
      } else {
        assert w[1..] == Doubled(t[1..]);
      }
    }
  }

  // ---------------------------------------------------------------------------
  // Texts printed without quotes

  /** Nothing here ends a peel; `prev`: a dash stands before. */
  predicate Quiet(prev: bool, s: string)
    decreases |s|
  {
    s == [] ||
    (s[0] != QUOTE && s[0] != ':' && s[0] != '=' && s[0] != '!' && !(s[0] == '>' && prev) && Quiet(s[0] == '-', s[1..]))
  }

  /** The state that waits for `>` after `s`. */
  predicate Dash(d: bool, s: string)
    decreases |s|
  {
    if s == [] then d else Dash(s[0] == '-' && !d, s[1..])
  }

  function TrailingDashes(t: string): nat {
    if t == [] || t[|t| - 1] != '-' then 0 else 1 + TrailingDashes(t[..|t| - 1])
  }

  lemma {:induction false} DashSnoc(d: bool, s: string, ch: char)
    ensures Dash(d, s + [ch]) == (ch == '-' && !Dash(d, s))
    decreases |s|
  {
    if s == [] {
      assert (s + [ch])[1..] == [];
    } else {
      assert (s + [ch])[1..] == s[1..] + [ch];
      DashSnoc(s[0] == '-' && !d, s[1..], ch);
    }
  }

  lemma {:induction false} DashIsOdd(t: string)
    ensures Dash(false, t) <==> TrailingDashes(t) % 2 == 1
  {
    if t != [] {
      var s := t[..|t| - 1];
      assert t == s + [t[|t| - 1]];
      DashSnoc(false, s, t[|t| - 1]);
      DashIsOdd(s);
    }
  }

  lemma {:induction false} UnquotedIsQuiet(t: string, i: nat)
    requires !NeedQuote(t) && i <= |t|
    ensures Quiet(i > 0 && t[i - 1] == '-', t[i..])
    decreases |t| - i
  {
    if i < |t| {
      assert !ForcesQuote(t, i);
      assert t[i..][1..] == t[i + 1..];
      UnquotedIsQuiet(t, i + 1);
    }
  }

  lemma {:induction false} PassStaysQuiet(prev: bool, d: bool, s: string, b: char, c: char)
    requires Quiet(prev, s)
    requires b != '-' && (c == LF || c == CR || c == BACKSLASH)
    ensures Quiet(prev, Pass(s, b, c)) && Dash(d, Pass(s, b, c)) == Dash(d, s)
    decreases |s|
  {
    if s != [] {
      var w := Pass(s, b, c);
      StartsPair(s, BACKSLASH, b);
      if Starts(s, [BACKSLASH, b]) {
        assert s[1..][1..] == s[2..];
        assert Quiet(false, s[2..]) && Dash(d, s) == Dash(false, s[2..]);
        PassStaysQuiet(false, false, s[2..], b, c);
        assert w[1..] == Pass(s[2..], b, c);
      } else {
        PassStaysQuiet(s[0] == '-', s[0] == '-' && !d, s[1..], b, c);
        assert w[1..] == Pass(s[1..], b, c);
      }
    }
  }

  lemma UnescapedStaysQuiet(t: string)
    requires !NeedQuote(t)
    ensures Quiet(false, Unescaped(t)) && Dash(false, Unescaped(t)) == Dash(false, t)
  {
    UnquotedIsQuiet(t, 0);
    assert t[0..] == t;
    var u := Pass(t, 'n', LF);
    PassStaysQuiet(false, false, t, 'n', LF);
    PassStaysQuiet(false, false, u, 'r', CR);
    PassStaysQuiet(false, false, Pass(u, 'r', CR), BACKSLASH, BACKSLASH);
  }

  // ---------------------------------------------------------------------------
  // Peeling

  function PastQuiet(p: Peeler, x: string): Peeler {
    p.(n := p.n + |x|, dash := Dash(p.dash, x), first := p.first && x == [])
  }

  lemma QuietMove(p: Peeler, prev: bool, x: string)
    requires x != [] && Quiet(prev, x) && !p.quote && (p.dash ==> prev)
    ensures Separator(p, x[0]) == Nothing
      && Move(p, x[0]) == p.(n := p.n + 1, first := false, dash := x[0] == '-' && !p.dash)
  {
  }

  lemma {:induction false} ScanQuiet(p: Peeler, prev: bool, x: string, y: string)
    requires Quiet(prev, x) && !p.quote && (p.dash ==> prev)
    ensures Scan(p, x + y) == Scan(PastQuiet(p, x), y)
    decreases |x|
  {
    hide Scan;
    if x == [] {
      assert x + y == y;
      assert PastQuiet(p, x) == p;
    } else {
      assert x + y == [x[0]] + (x[1..] + y);
      ScanOne(p, x[0], x[1..] + y);
      QuietMove(p, prev, x);
      ScanQuiet(Move(p, x[0]), x[0] == '-', x[1..], y);
    }
  }

  lemma ScanQuotedChar(p: Peeler, ch: char, y: string)
    requires p.quote && !p.dash && !p.first
    ensures Scan(p, Doubled([ch]) + y) == Scan(p.(n := p.n + |Doubled([ch])|), y)
  {
    hide Scan;
    var w := Doubled([ch]);
    assert [ch][1..] == [] && Doubled([]) == [];
    if ch == QUOTE {
      assert w == [QUOTE, QUOTE] && w + y == [QUOTE] + ([QUOTE] + y);
      ScanOne(p, QUOTE, [QUOTE] + y);
      ScanOne(Move(p, QUOTE), QUOTE, y);
      assert Move(Move(p, QUOTE), QUOTE) == p.(n := p.n + 2);
    } else {
      assert w == [ch];
      assert Move(p, ch) == p.(n := p.n + 1);
      ScanOne(p, ch, y);
    }
  }

  lemma {:induction false} ScanDoubled(p: Peeler, t: string, y: string)
    requires p.quote && !p.dash && !p.first
    ensures Scan(p, Doubled(t) + y) == Scan(p.(n := p.n + |Doubled(t)|), y)
    decreases |t|
  {
    hide Scan;
    if t == [] {
      assert Doubled(t) + y == y;
    } else {
      var w, v := Doubled([t[0]]), Doubled(t[1..]);
      assert [t[0]] + t[1..] == t;
      DoubledConcat([t[0]], t[1..]);
      assert Doubled(t) + y == w + (v + y);
      ScanQuotedChar(p, t[0], v + y);
      ScanDoubled(p.(n := p.n + |w|), t[1..], y);
    }
  }

  lemma QuoteMove(p: Peeler)
    ensures Separator(p, QUOTE) == Nothing
    ensures Move(p, QUOTE) == Peeler(p.n + 1, !p.quote, false, p.bang, false, p.hasQuote || p.first, p.conflict)
  {
  }

  lemma ScanQuoted(p: Peeler, t: string, y: string)
    requires !p.quote
    ensures Scan(p, Quoted(t) + y) ==
            Scan(Peeler(p.n + |Quoted(t)|, false, false, p.bang, false, p.hasQuote || p.first, p.conflict), y)
  {
    hide Scan, Doubled, Move, Separator;
    var d := Doubled(t);
    assert Quoted(t) + y == [QUOTE] + (d + ([QUOTE] + y));
    ScanOne(p, QUOTE, d + ([QUOTE] + y));
    QuoteMove(p);
    var q := Move(p, QUOTE);
    ScanDoubled(q, t, [QUOTE] + y);
    var r := q.(n := q.n + |d|);
    ScanOne(r, QUOTE, y);
    QuoteMove(r);
  }

  /** A cell as it stands in an unescaped part. */
  function Raw(c: Cell): string {
    if c.Null? then "NULL" else if InQuotes(c.text) then Quoted(Unescaped(c.text)) else Unescaped(c.text)
  }

  function Content(c: Cell): string {
    if c.Null? then "NULL" else Unescaped(c.text)
  }

  predicate IsQuoted(c: Cell) {
    c.Text? && InQuotes(c.text)
  }

  /** The old text runs into the arrow: unquoted, with an odd number of dashes at its end. */
  predicate RunsIntoArrow(c: Cell) {
    c.Text? && !InQuotes(c.text) && TrailingDashes(c.text) % 2 == 1
  }

  lemma RawIsUnescaped(c: Cell)
    ensures Unescaped(Printed(c)) == Raw(c)
  {
    if c.Null? {
      UnescapedPlain("NULL");
    } else if InQuotes(c.text) {
      UnescapedQuoted(c.text);
    }
  }

  lemma RawIsQuiet(c: Cell)
    requires !IsQuoted(c)
    ensures Quiet(false, Raw(c)) && (Dash(false, Raw(c)) <==> RunsIntoArrow(c))
  {
    if c.Null? {
      assert !NeedQuote("NULL");
      UnescapedStaysQuiet("NULL");
      UnescapedPlain("NULL");
      DashIsOdd("NULL");
      assert TrailingDashes("NULL") == 0;
    } else {
      UnescapedStaysQuiet(c.text);
      DashIsOdd(c.text);
    }
  }

  /** The flags after a cell. */
  function PastRaw(p: Peeler, c: Cell): Peeler {
    if IsQuoted(c) then Peeler(p.n + |Raw(c)|, false, false, p.bang, false, p.hasQuote || p.first, p.conflict)
    else PastQuiet(p, Raw(c))
  }

  lemma ScanRaw(p: Peeler, c: Cell, y: string)
    requires !p.quote && !p.dash
    ensures Scan(p, Raw(c) + y) == Scan(PastRaw(p, c), y)
  {
    hide Scan, Quiet, Unescaped, Quoted, Dash;
    if IsQuoted(c) {
      ScanQuoted(p, Unescaped(c.text), y);
    } else {
      RawIsQuiet(c);
      ScanQuiet(p, false, Raw(c), y);
    }
  }

  /** What the quotes hold. */
  lemma RawContent(c: Cell)
    ensures (if IsQuoted(c) then Replace(Stripped(Raw(c)), [QUOTE, QUOTE], [QUOTE]) else Raw(c)) == Content(c)
  {
    if IsQuoted(c) {
      DoublesUndone(Unescaped(c.text));
      assert Stripped(Raw(c)) == Doubled(Unescaped(c.text));
    }
  }

  lemma PeelAlone(c: Cell)
    ensures Peel(Raw(c)) == Peeled(Content(c), Nothing, "", IsQuoted(c), false)
  {
    ScanRaw(Unpeeled, c, "");
    assert Raw(c) + "" == Raw(c);
    RawContent(c);
  }

  lemma ScanBefore(c: Cell, r: string)
    requires !RunsIntoArrow(c)
    ensures var stop := Scan(Unpeeled, Raw(c) + ("->" + r));
      stop.sep == Arrow && stop.peeler.n == |Raw(c)| + 2 && stop.peeler.hasQuote == IsQuoted(c) && !stop.peeler.conflict
  {
    hide Scan, Quiet;
    var p := PastRaw(Unpeeled, c);
    ScanRaw(Unpeeled, c, "->" + r);
    if !IsQuoted(c) {
      RawIsQuiet(c);
    }
    assert !p.dash;
    assert "->" + r == ['-'] + (['>'] + r);
    ScanOne(p, '-', ['>'] + r);
    ScanOne(Move(p, '-'), '>', r);
  }

  lemma RawHead(c: Cell)
    ensures Raw(c) == [] || Raw(c)[0] != '!'
  {
    if !IsQuoted(c) {
      RawIsQuiet(c);
    }
  }

  lemma CutAtArrow(w: string, r: string)
    ensures var s := w + ("->" + r); s[..|w|] == w && |w| + 2 <= |s| && s[|w| + 2..] == r
  {
  }

  lemma PeelBefore(c: Cell, r: string)
    requires !RunsIntoArrow(c)
    ensures Peel(Raw(c) + ("->" + r)) == Peeled(Content(c), Arrow, r, IsQuoted(c), false)
  {
    ScanBefore(c, r);
    RawContent(c);
    RawHead(c);
    hide Scan, Quiet, Raw, Replace, Content, IsQuoted, RunsIntoArrow, Stripped;
    CutAtArrow(Raw(c), r);
  }

  lemma PeelBlocked(c: Cell, d: Cell)
    requires RunsIntoArrow(c)
    ensures Peel(Raw(c) + ("->" + Raw(d))).sep == Nothing
  {
    var y := "->" + Raw(d);
    var p := PastRaw(Unpeeled, c);
    ScanRaw(Unpeeled, c, y);
    RawIsQuiet(c);
    assert y[1..] == ">" + Raw(d) && (">" + Raw(d))[1..] == Raw(d);
    assert Scan(p, y) == Scan(Move(p, '-'), ">" + Raw(d)) == Scan(Move(Move(p, '-'), '>'), Raw(d));
    ScanRaw(Move(Move(p, '-'), '>'), d, "");
    assert Raw(d) + "" == Raw(d);
  }

  // ---------------------------------------------------------------------------
  // One slot

  predicate CellSurvives(c: Cell) {
    c.Null? || (c.text != "*" && Clean(c.text))
  }

  predicate Survives(slot: Slot) {
    (slot.was.Some? ==> CellSurvives(slot.was.value)) &&
    (slot.becomes.Some? ==> CellSurvives(slot.becomes.value)) &&
    !(slot.was.Some? && slot.becomes.Some? && RunsIntoArrow(slot.was.value))
  }

  /** The part that says the slot and nothing else. */
  function Saying(slot: Slot): Part {
    Part(None, slot.was, slot.becomes, None, None, false, false, slot.was.None? && slot.becomes.Some?)
  }

  function Reading(part: string): Part {
    PartOf(part, false, None)
  }

  function Kept(c: Cell): Option<Cell> {
    Given(Content(c), IsQuoted(c), None)
  }

  lemma KeptIffSurvives(c: Cell)
    ensures Kept(c) == Some(c) <==> CellSurvives(c)
  {
    if c.Text? {
      UnescapedIffClean(c.text);
    }
  }

  const Blank := Part(None, None, None, None, None, false, false, false)

  lemma ReadAlone(c: Cell)
    ensures Reading(Raw(c)) == Blank.(val := Kept(c))
  {
    PeelAlone(c);
    hide Peel;
    assert Elements(Blank, Raw(c), Nothing, false, 4) ==
      Element(Blank, Content(c), Nothing, Nothing, IsQuoted(c), false).0;
  }

  lemma ReadOld(c: Cell, s: string, r: string)
    requires Peel(s) == Peeled(Content(c), Arrow, r, IsQuoted(c), false)
    ensures Elements(Blank, s, Nothing, false, 4) == Elements(Blank.(val := Kept(c)), r, Arrow, false, 3)
  {
    hide Peel, Content, IsQuoted;
    ElementsNext(Blank, s, Nothing, false, 4);
  }

  lemma ReadNew(q: Part, d: Cell)
    requires !q.conflict && q.nval == None && !q.isFresh
    ensures Elements(q, Raw(d), Arrow, false, 3) == q.(nval := Kept(d), isFresh := q.val.None?)
  {
    PeelAlone(d);
    hide Peel, Raw, Content, IsQuoted;
    ElementsNext(q, Raw(d), Arrow, false, 3);
  }

  lemma ReadBoth(c: Cell, d: Cell)
    requires !RunsIntoArrow(c)
    ensures Reading(Raw(c) + ("->" + Raw(d))) == Blank.(val := Kept(c), nval := Kept(d), isFresh := Kept(c).None?)
  {
    hide Peel, Raw, Elements, Kept;
    PeelBefore(c, Raw(d));
    ReadOld(c, Raw(c) + ("->" + Raw(d)), Raw(d));
    ReadNew(Blank.(val := Kept(c)), d);
  }

  lemma ReadBlocked(c: Cell, d: Cell)
    requires RunsIntoArrow(c)
    ensures Reading(Raw(c) + ("->" + Raw(d))).nval == None
  {
    PeelBlocked(c, d);
    hide Peel;
    var s := Raw(c) + ("->" + Raw(d));
    var e := Peel(s);
    var p := Elements(Blank, s, Nothing, false, 4);
    assert p == Element(Blank.(conflict := e.conflict), e.result, Nothing, Nothing, e.hasQuote, false).0;
  }

  function Told(c: Option<Cell>): Cell {
    if c.Some? then c.value else Text("*")
  }

  lemma StarIsPlain()
    ensures Printed(Text("*")) == "*" && Kept(Text("*")) == None && !RunsIntoArrow(Text("*"))
  {
    assert !NeedQuote("*");
    UnescapedPlain("*");
  }

  lemma SlotIsRaw(slot: Slot)
    ensures Unescaped(PrintedSlot(slot)) ==
            Raw(Told(slot.was)) + if slot.becomes.Some? then "->" + Raw(slot.becomes.value) else ""
  {
    StarIsPlain();
    var w := Printed(Told(slot.was));
    RawIsUnescaped(Told(slot.was));
    if slot.becomes.Some? {
      var v := Printed(slot.becomes.value);
      assert PrintedSlot(slot) == w + ("->" + v);
      UnescapedJoins(w, "->" + v);
      UnescapedPulls("->", v);
      RawIsUnescaped(slot.becomes.value);
    } else {
      assert PrintedSlot(slot) == w;
    }
  }

  /** A printed slot says what it said exactly when it survives. */
  lemma SlotRoundTrip(slot: Slot)
    ensures Reading(Unescaped(PrintedSlot(slot))) == Saying(slot) <==> Survives(slot)
  {
    SlotIsRaw(slot);
    StarIsPlain();
    var c := Told(slot.was);
    KeptIffSurvives(c);
    if slot.becomes.None? {
      assert Raw(c) + "" == Raw(c);
      ReadAlone(c);
    } else {
      var d := slot.becomes.value;
      KeptIffSurvives(d);
      if RunsIntoArrow(c) {
        ReadBlocked(c, d);
      } else {
        ReadBoth(c, d);
      }
    }
  }

  // ---------------------------------------------------------------------------
  // The line

  lemma {:induction false} TakeConcat(s: Splitter, x: string, y: string)
    ensures TakeAll(s, x + y) == TakeAll(TakeAll(s, x), y)
    decreases |x|
  {
    if x == [] {
      assert x + y == y;
    } else {
      assert (x + y)[1..] == x[1..] + y;
      TakeConcat(Take(s, x[0]), x[1..], y);
    }
  }

  lemma TakeOne(s: Splitter, ch: char, y: string)
    ensures TakeAll(s, [ch] + y) == TakeAll(Take(s, ch), y)
  {
    assert ([ch] + y)[1..] == y;
  }

  lemma TakeNone(s: Splitter)
    ensures TakeAll(s, []) == s
  {
  }

  /** The splitter is inside a row, past the first bar and outside quotes. */
  predicate InRow(s: Splitter) {
    !s.quote && s.pending && s.commit && s.haveBars
  }

  lemma {:induction false} TakePlain(s: Splitter, x: string)
    requires InRow(s) && QUOTE !in x && BAR !in x
    ensures TakeAll(s, x) == s.(result := s.result + x)
    decreases |x|
  {
    if x == [] {
      assert s.result + x == s.result;
    } else {
      TakePlain(Take(s, x[0]), x[1..]);
      assert s.result + [x[0]] + x[1..] == s.result + x;
    }
  }

  lemma TakeQuotedChar(s: Splitter, ch: char, y: string)
    requires s.quote && s.pending
    ensures TakeAll(s, Doubled([ch]) + y) == TakeAll(s.(result := s.result + Doubled([ch])), y)
  {
    hide TakeAll;
    var w := Doubled([ch]);
    assert [ch][1..] == [] && Doubled([]) == [];
    if ch == QUOTE {
      assert w == [QUOTE, QUOTE] && w + y == [QUOTE] + ([QUOTE] + y);
      TakeOne(s, QUOTE, [QUOTE] + y);
      TakeOne(Take(s, QUOTE), QUOTE, y);
      assert s.result + [QUOTE] + [QUOTE] == s.result + w;
    } else {
      assert w == [ch];
      TakeOne(s, ch, y);
    }
  }

  lemma {:induction false} TakeDoubled(s: Splitter, t: string)
    requires s.quote && s.pending
    ensures TakeAll(s, Doubled(t)) == s.(result := s.result + Doubled(t))
    decreases |t|
  {
    hide TakeAll, Take;
    if t == [] {
      TakeNone(s);
      assert s.result + Doubled(t) == s.result;
    } else {
      var w, v := Doubled([t[0]]), Doubled(t[1..]);
      assert [t[0]] + t[1..] == t;
      DoubledConcat([t[0]], t[1..]);
      TakeQuotedChar(s, t[0], v);
      TakeDoubled(s.(result := s.result + w), t[1..]);
      assert s.result + w + v == s.result + (w + v);
    }
  }

  lemma TakeQuoted(s: Splitter, t: string)
    requires InRow(s)
    ensures TakeAll(s, Quoted(t)) == s.(result := s.result + Quoted(t))
  {
    hide TakeAll, Doubled;
    var d := Doubled(t);
    assert Quoted(t) == [QUOTE] + (d + [QUOTE]);
    TakeOne(s, QUOTE, d + [QUOTE]);
    var u := Take(s, QUOTE);
    TakeConcat(u, d, [QUOTE]);
    TakeDoubled(u, t);
    var v := u.(result := u.result + d);
    assert [QUOTE] == [QUOTE] + [];
    TakeOne(v, QUOTE, []);
    TakeNone(Take(v, QUOTE));
    assert s.result + [QUOTE] + d + [QUOTE] == s.result + Quoted(t);
  }

  lemma Assoc(a: string, b: string, c: string)
    ensures a + b + c == a + (b + c)
  {
  }

  lemma {:induction false} ReplaceConcat(x: string, y: string, e: char, rep: string)
    ensures Replace(x + y, [e], rep) == Replace(x, [e], rep) + Replace(y, [e], rep)
  {
    if x == [] {
      assert x + y == y;
    } else {
      hide Replace;
      var z := x[1..];
      var head := if x[0] == e then rep else [x[0]];
      assert x == [x[0]] + z;
      Assoc([x[0]], z, y);
      ReplaceCons(x[0], z, e, rep);
      ReplaceCons(x[0], z + y, e, rep);
      ReplaceConcat(z, y, e, rep);
      Assoc(head, Replace(z, [e], rep), Replace(y, [e], rep));
    }
  }

  lemma {:induction false} DoubledConcat(x: string, y: string)
    ensures Doubled(x + y) == Doubled(x) + Doubled(y)
  {
    if x == [] {
      assert x + y == y;
    } else {
      assert (x + y)[1..] == x[1..] + y;
      DoubledConcat(x[1..], y);
    }
  }

  lemma {:induction false} ReplaceDoubles(t: string, e: char, rep: string)
    requires e != QUOTE && QUOTE !in rep
    ensures Replace(Doubled(t), [e], rep) == Doubled(Replace(t, [e], rep))
  {
    if t != [] {
      StartsOne(t, e);
      ReplaceDoubles(t[1..], e, rep);
      var head := if t[0] == QUOTE then [QUOTE, QUOTE] else [t[0]];
      ReplaceConcat(head, Doubled(t[1..]), e, rep);
      if t[0] == e {
        DoubledConcat(rep, Replace(t[1..], [e], rep));
        DoubledPlain(rep);
        StartsOne(head, e);
        assert Replace(head[1..], [e], rep) == [];
        assert Replace(head, [e], rep) == rep;
      } else {
        ReplaceNothing(head, e, rep);
        DoubledConcat([t[0]], Replace(t[1..], [e], rep));
      }
    }
  }

  lemma ReplaceQuoted(t: string, e: char, rep: string)
    requires e != QUOTE && QUOTE !in rep
    ensures Replace(Quoted(t), [e], rep) == Quoted(Replace(t, [e], rep))
  {
    ReplaceConcat([QUOTE] + Doubled(t), [QUOTE], e, rep);
    ReplaceConcat([QUOTE], Doubled(t), e, rep);
    ReplaceNothing([QUOTE], e, rep);
    ReplaceDoubles(t, e, rep);
  }

  lemma TakeCell(s: Splitter, c: Cell)
    requires InRow(s)
    ensures TakeAll(s, Printed(c)) == s.(result := s.result + Printed(c))
  {
    if IsQuoted(c) {
      ReplaceQuoted(c.text, LF, [BACKSLASH, 'n']);
      var u := Replace(c.text, [LF], [BACKSLASH, 'n']);
      ReplaceQuoted(u, CR, [BACKSLASH, 'r']);
      TakeQuoted(s, Replace(u, [CR], [BACKSLASH, 'r']));
    } else {
      var w := Printed(c);
      forall i | 0 <= i < |w| ensures w[i] != QUOTE && w[i] != BAR {
        if c.Text? {
          assert !ForcesQuote(w, i);
        }
      }
      TakePlain(s, w);
    }
  }

  lemma TakeTwo(s: Splitter, w: string, v: string)
    requires InRow(s)
    requires TakeAll(s, w) == s.(result := s.result + w)
    requires var u := s.(result := s.result + w + "->"); TakeAll(u, v) == u.(result := u.result + v)
    ensures TakeAll(s, w + ("->" + v)) == s.(result := s.result + (w + ("->" + v)))
  {
    hide TakeAll, Take;
    var u := s.(result := s.result + w);
    TakeConcat(s, w, "->" + v);
    TakeConcat(u, "->", v);
    TakePlain(u, "->");
    assert s.result + w + "->" + v == s.result + (w + ("->" + v));
  }

  lemma TakeSlotText(s: Splitter, slot: Slot)
    requires InRow(s)
    ensures TakeAll(s, PrintedSlot(slot)) == s.(result := s.result + PrintedSlot(slot))
  {
    StarIsPlain();
    hide TakeAll, Printed;
    var w := Printed(Told(slot.was));
    TakeCell(s, Told(slot.was));
    if slot.becomes.Some? {
      var v := Printed(slot.becomes.value);
      TakeCell(s.(result := s.result + w + "->"), slot.becomes.value);
      TakeTwo(s, w, v);
      assert PrintedSlot(slot) == w + ("->" + v);
    } else {
      assert PrintedSlot(slot) == w;
    }
  }

  lemma TakeSlot(s: Splitter, slot: Slot)
    requires InRow(s)
    ensures TakeAll(s, PrintedSlot(slot) + [BAR]) == s.(all := s.all + [s.result + PrintedSlot(slot)], result := [])
  {
    hide TakeAll, PrintedSlot;
    var all := PrintedSlot(slot);
    TakeSlotText(s, slot);
    var e := s.(result := s.result + all);
    TakeConcat(s, all, [BAR]);
    assert [BAR] == [BAR] + [];
    TakeOne(e, BAR, []);
    TakeNone(Take(e, BAR));
  }

  function PartsOf(slots: seq<Slot>): (r: seq<string>)
    ensures |r| == |slots| && forall i :: 0 <= i < |slots| ==> r[i] == PrintedSlot(slots[i])
  {
    seq(|slots|, i requires 0 <= i < |slots| => PrintedSlot(slots[i]))
  }

  lemma PartsCons(slots: seq<Slot>)
    requires slots != []
    ensures PartsOf(slots) == [PrintedSlot(slots[0])] + PartsOf(slots[1..])
  {
  }

  lemma TakeSlotThen(s: Splitter, slot: Slot, tail: string, parts: seq<string>)
    requires InRow(s) && s.result == []
    requires var u := s.(all := s.all + [PrintedSlot(slot)]); TakeAll(u, tail) == u.(all := u.all + parts)
    ensures TakeAll(s, PrintedSlot(slot) + [BAR] + tail) == s.(all := s.all + ([PrintedSlot(slot)] + parts))
  {
    hide TakeAll, Take, PrintedSlot;
    var w := PrintedSlot(slot);
    TakeSlot(s, slot);
    assert s.result + w == w;
    TakeConcat(s, w + [BAR], tail);
    assert s.all + [w] + parts == s.all + ([w] + parts);
  }

  lemma {:induction false} TakeSlots(s: Splitter, slots: seq<Slot>)
    requires InRow(s) && s.result == []
    ensures TakeAll(s, PrintedSlots(slots)) == s.(all := s.all + PartsOf(slots))
    decreases |slots|
  {
    if slots == [] {
      TakeNone(s);
      assert s.all + PartsOf(slots) == s.all;
    } else {
      PartsCons(slots);
      TakeSlots(s.(all := s.all + [PrintedSlot(slots[0])]), slots[1..]);
      hide TakeAll, Take, PrintedSlot, PartsOf;
      TakeSlotThen(s, slots[0], PrintedSlots(slots[1..]), PartsOf(slots[1..]));
    }
  }

  predicate IsTag(ch: char) {
    ch == '=' || ch == '+' || ch == '-' || ch == '*' || ch == ':'
  }

  lemma TakeTag(tag: char, rest: string)
    requires IsTag(tag)
    ensures TakeAll(Fresh, [tag, ' ', BAR] + rest) == TakeAll(Splitter([[tag]], [], false, true, true, true), rest)
  {
    var line := [tag, ' ', BAR] + rest;
    var a := Take(Fresh, tag);
    assert a == Splitter([], [tag], false, true, false, false);
    var b := Take(a, ' ');
    assert b == Splitter([[tag]], [], false, false, false, false);
    assert line[1..] == [' ', BAR] + rest && line[1..][1..] == [BAR] + rest && line[1..][1..][1..] == rest;
    assert TakeAll(Fresh, line) == TakeAll(a, line[1..]) == TakeAll(b, line[1..][1..]) == TakeAll(Take(b, BAR), rest);
  }

  lemma RowSplits(tag: char, slots: seq<Slot>)
    requires IsTag(tag)
    ensures Split(PrintedRow(tag, slots)) == [[tag]] + UnescapedAll(PartsOf(slots))
  {
    var line := PrintedRow(tag, slots);
    TakeTag(tag, PrintedSlots(slots));
    var s := Splitter([[tag]], [], false, true, true, true);
    TakeSlots(s, slots);
    assert TakeAll(Fresh, line).all == [[tag]] + PartsOf(slots);
    UnescapedPlain([tag]);
  }

  /** The row law: a printed row comes apart into its tag and one part per slot, whatever the texts, and
      each part says its slot exactly when that slot survives. */
  lemma RowRoundTrip(tag: char, slots: seq<Slot>)
    requires IsTag(tag)
    ensures var parts := Split(PrintedRow(tag, slots));
      |parts| == |slots| + 1 && parts[0] == [tag] &&
      forall i :: 0 <= i < |slots| ==> (Reading(parts[i + 1]) == Saying(slots[i]) <==> Survives(slots[i]))
  {
    hide Split, PrintedRow, Reading, Saying, Survives, Unescaped, PrintedSlot;
    RowSplits(tag, slots);
    var parts := Split(PrintedRow(tag, slots));
    forall i | 0 <= i < |slots| ensures Reading(parts[i + 1]) == Saying(slots[i]) <==> Survives(slots[i]) {
      SlotRoundTrip(slots[i]);
      assert parts[i + 1] == Unescaped(PrintedSlot(slots[i]));
    }
  }

  predicate IsPlainText(c: Option<Cell>) {
    c.Some? && c.value.Text? ==> BACKSLASH !in c.value.text && c.value.text != "*"
  }

  predicate EndsInDash(c: Option<Cell>) {
    c.Some? && c.value.Text? && c.value.text != "" && c.value.text[|c.value.text| - 1] == '-'
  }

  lemma PlainSurvives(slot: Slot)
    requires IsPlainText(slot.was) && IsPlainText(slot.becomes) && !EndsInDash(slot.was)
    ensures Survives(slot)
  {
  }

  /** The law as the diff format promises it: no backslash, no lone star, no dash before an arrow. */
  lemma PlainRowRoundTrip(tag: char, slots: seq<Slot>)
    requires IsTag(tag)
    requires forall i :: 0 <= i < |slots| ==>
      IsPlainText(slots[i].was) && IsPlainText(slots[i].becomes) && !EndsInDash(slots[i].was)
    ensures |Split(PrintedRow(tag, slots))| == |slots| + 1
    ensures forall i :: 0 <= i < |slots| ==> Reading(Split(PrintedRow(tag, slots))[i + 1]) == Saying(slots[i])
  {
    RowRoundTrip(tag, slots);
    hide Split, PrintedRow, Reading;
    forall i | 0 <= i < |slots| ensures Survives(slots[i]) {
      PlainSurvives(slots[i]);
    }
  }

  /** A row printed, split and read by the program's own steps. */
  method SendRow(tag: char, slots: seq<Slot>) returns (parts: seq<Part>)
    requires IsTag(tag)
    ensures |parts| == |slots|
    ensures forall i :: 0 <= i < |slots| ==> (parts[i] == Saying(slots[i]) <==> Survives(slots[i]))
  {
    hide Survives, PartOf, Split, PrintedRow, Saying;
    var line := UpdateRow(tag, slots);
    var msg := NormalizedMessage(line);
    RowRoundTrip(tag, slots);
    parts := [];
    for i := 1 to |msg|
      invariant |parts| == i - 1
      invariant forall j :: 0 <= j < i - 1 ==> parts[j] == Reading(msg[j + 1])
    {
      var part := new TDiffPart();
      part.Apply(msg[i], false);
      parts := parts + [part.part];
    }
  }

  lemma NeverSurvive()
    ensures !CellSurvives(Text("\\n")) && RunsIntoArrow(Text("a-"))
  {
    var t := "\\n";
    assert t[0] == BACKSLASH && t[0 + 1] == 'n';
    assert !NeedQuote("a-");
    assert "a-"[..1] == "a";
    assert TrailingDashes("a-") == 1 + TrailingDashes("a");
  }

  predicate Differs(slot: Slot) {
    Reading(Unescaped(PrintedSlot(slot))) != Saying(slot)
  }

  /** Three texts that do not come back: an escape of its own, a lone star, a dash before the arrow. */
  lemma TextsLost(new': Cell)
    ensures Differs(Slot(Some(Text("\\n")), None)) && Differs(Slot(Some(Text("*")), None))
    ensures Differs(Slot(Some(Text("a-")), Some(new')))
  {
    NeverSurvive();
    SlotRoundTrip(Slot(Some(Text("\\n")), None));
    SlotRoundTrip(Slot(Some(Text("*")), None));
    SlotRoundTrip(Slot(Some(Text("a-")), Some(new')));
    hide Reading, Unescaped, PrintedSlot, Saying, RunsIntoArrow, Clean;
  }
}
