/** The streaming context pass of src/ruby/sql_compare.rb: changes in key order with up to two unchanged rows
    of context on each side and markers where rows are dropped. */
module SqlContext {
  import opened SqlDiff

  type Key = seq<Value>

  /** A row handed to the output: a marker, a context row, or a change. */
  datatype Out = Skip | Context(row: Row) | Change(rc: RowChange)

  /** What stands at one key: a row that is the same in both tables, or a pending change. */
  datatype Item = Same(row: Row) | Changed(rc: RowChange)

  function Shows(x: Item): Out {
    if x.Same? then Context(x.row) else Change(x.rc)
  }

  // ---------------------------------------------------------------------------
  // What should be shown

  /** A change, or a row at most two places from one. */
  predicate Shown(xs: seq<Item>, i: int) {
    exists j :: 0 <= j < |xs| && xs[j].Changed? && i - 2 <= j <= i + 2
  }

  /** A marker stands where a shown item follows a dropped one. */
  function Piece(xs: seq<Item>, i: nat): seq<Out>
    requires i < |xs|
  {
    if !Shown(xs, i) then []
    else if i > 0 && !Shown(xs, i - 1) then [Skip, Shows(xs[i])]
    else [Shows(xs[i])]
  }

  function Pieces(xs: seq<Item>, n: nat): seq<Out>
    requires n <= |xs|
  {
    if n == 0 then [] else Pieces(xs, n - 1) + Piece(xs, n - 1)
  }

  /** The unchanged items at the end. */
  function Quiet(xs: seq<Item>): (n: nat)
    ensures n <= |xs|
  {
    if xs == [] || xs[|xs| - 1].Changed? then 0 else 1 + Quiet(xs[..|xs| - 1])
  }

  /** The dropped items at the end. */
  function Dropped(xs: seq<Item>): (n: nat)
    ensures n <= Quiet(xs)
  {
    if Quiet(xs) == |xs| then |xs| else if Quiet(xs) <= 2 then 0 else Quiet(xs) - 2
  }

  predicate AnyChange(xs: seq<Item>) {
    Quiet(xs) < |xs|
  }

  /** All that is shown; one more marker at the end when there was a change and three or more rows are dropped
      after it. */
  function Declared(xs: seq<Item>): seq<Out> {
    Pieces(xs, |xs|) + if AnyChange(xs) && Dropped(xs) > 2 then [Skip] else []
  }

  // ---------------------------------------------------------------------------
  // The pass

  datatype Pass = Pass(out: seq<Out>, hist: seq<Row>, pending: nat, skipped: bool, noted: bool)

  const Begin := Pass([], [], 0, false, false)

  function Marker(skipped: bool): seq<Out> {
    if skipped then [Skip] else []
  }

  function Contexts(rows: seq<Row>): (r: seq<Out>)
    ensures |r| == |rows| && forall i :: 0 <= i < |r| ==> r[i] == Context(rows[i])
  {
    seq(|rows|, i requires 0 <= i < |rows| => Context(rows[i]))
  }

  function Hit(p: Pass, rc: RowChange): Pass {
    Pass(p.out + Marker(p.skipped) + Contexts(p.hist) + [Change(rc)], [], 2, false, true)
  }

  function Pass0(p: Pass, row: Row): Pass {
    if p.pending > 0
      then p.(out := p.out + Marker(p.skipped) + [Context(row)], pending := p.pending - 1, skipped := false)
    else if |p.hist| < 2 then p.(hist := p.hist + [row])
    else p.(hist := (p.hist + [row])[1..], skipped := true)
  }

  function StepItem(p: Pass, x: Item): Pass {
    if x.Changed? then Hit(p, x.rc) else Pass0(p, x.row)
  }

  function RunItems(xs: seq<Item>): Pass {
    if xs == [] then Begin else StepItem(RunItems(xs[..|xs| - 1]), xs[|xs| - 1])
  }

  function Finished(p: Pass): seq<Out> {
    p.out + Marker(p.skipped && p.noted)
  }

  // ---------------------------------------------------------------------------
  // The pass shows what should be shown

  lemma {:induction false} QuietIsSame(xs: seq<Item>, i: nat)
    requires i < |xs|
    ensures i >= |xs| - Quiet(xs) ==> xs[i].Same?
    ensures AnyChange(xs) && i == |xs| - Quiet(xs) - 1 ==> xs[i].Changed?
  {
    var n := |xs| - 1;
    if xs[n].Same? && i < n {
      QuietIsSame(xs[..n], i);
    }
  }

  /** The end of the list: which items are shown there. */
  lemma TailShown(xs: seq<Item>, i: int)
    requires |xs| - Quiet(xs) - 1 <= i < |xs|
    ensures Shown(xs, i) <==> i < |xs| - Dropped(xs) && i >= 0
  {
    var last := |xs| - Quiet(xs) - 1;
    forall j | last < j < |xs| ensures xs[j].Same? {
      QuietIsSame(xs, j);
    }
    if AnyChange(xs) {
      QuietIsSame(xs, last);
    }
  }

  lemma ShownMore(xs: seq<Item>, x: Item, i: int)
    ensures Shown(xs + [x], i) <==> Shown(xs, i) || (x.Changed? && |xs| - 2 <= i <= |xs| + 2)
  {
    var ys := xs + [x];
    assert ys[|xs|] == x;
    if Shown(xs, i) {
      var j :| 0 <= j < |xs| && xs[j].Changed? && i - 2 <= j <= i + 2;
      assert ys[j] == xs[j];
    }
  }

  lemma {:induction false} PiecesMore(xs: seq<Item>, x: Item, n: nat)
    requires n <= |xs| && forall i :: 0 <= i < n ==> Shown(xs + [x], i) == Shown(xs, i)
    ensures Pieces(xs + [x], n) == Pieces(xs, n)
  {
    if n > 0 {
      PiecesMore(xs, x, n - 1);
    }
  }

  /** Dropped items print nothing. */
  lemma {:induction false} PiecesEnd(xs: seq<Item>, n: nat)
    requires |xs| - Dropped(xs) <= n <= |xs|
    ensures Pieces(xs, n) == Pieces(xs, |xs| - Dropped(xs))
    decreases n
  {
    if n > |xs| - Dropped(xs) {
      TailShown(xs, n - 1);
      PiecesEnd(xs, n - 1);
    }
  }

  function RowOf(x: Item): Row {
    if x.Same? then x.row else []
  }

  function LastRows(xs: seq<Item>, k: nat): (r: seq<Row>)
    requires k <= |xs|
    ensures |r| == k && forall i :: 0 <= i < k ==> r[i] == RowOf(xs[|xs| - k + i])
  {
    seq(k, i requires 0 <= i < k => RowOf(xs[|xs| - k + i]))
  }

  function Held(xs: seq<Item>): (k: nat)
    ensures k <= |xs|
  {
    if Dropped(xs) > 2 then 2 else Dropped(xs)
  }

  function Due(xs: seq<Item>): nat {
    if !AnyChange(xs) || Quiet(xs) >= 2 then 0 else 2 - Quiet(xs)
  }

  /** The state of the pass after `xs`. */
  function Expected(xs: seq<Item>): Pass {
    Pass(Pieces(xs, |xs|), LastRows(xs, Held(xs)), Due(xs), Dropped(xs) > 2, AnyChange(xs))
  }

  lemma QuietMore(xs: seq<Item>, x: Item)
    ensures Quiet(xs + [x]) == (if x.Changed? then 0 else Quiet(xs) + 1)
  {
    assert (xs + [x])[..|xs|] == xs;
  }

  lemma PiecesNext(xs: seq<Item>, n: nat)
    requires n < |xs|
    ensures Pieces(xs, n + 1) == Pieces(xs, n) + Piece(xs, n)
  {
  }

  /** A row is shown at once exactly when one is due. */
  lemma PieceSame(xs: seq<Item>, x: Item)
    requires x.Same?
    ensures Piece(xs + [x], |xs|) == if Due(xs) > 0 then [Context(x.row)] else []
  {
    hide Shown, Quiet;
    var ys, n := xs + [x], |xs|;
    QuietMore(xs, x);
    TailShown(ys, n);
    if Due(xs) > 0 {
      TailShown(ys, n - 1);
      assert ys[n] == x;
    }
  }

  lemma PiecesSame(xs: seq<Item>, x: Item)
    requires x.Same?
    ensures Pieces(xs + [x], |xs| + 1) == Pieces(xs, |xs|) + if Due(xs) > 0 then [Context(x.row)] else []
  {
    hide Shown, Pieces, Piece, Due;
    forall i | 0 <= i < |xs| ensures Shown(xs + [x], i) == Shown(xs, i) {
      ShownMore(xs, x, i);
    }
    PiecesMore(xs, x, |xs|);
    PieceSame(xs, x);
    PiecesNext(xs + [x], |xs|);
  }

  lemma RowsSame(xs: seq<Item>, x: Item, k: nat)
    requires x.Same? && k <= |xs|
    ensures LastRows(xs + [x], k + 1) == LastRows(xs, k) + [x.row]
  {
  }

  lemma PassSame(xs: seq<Item>, x: Item)
    requires x.Same?
    ensures Expected(xs + [x]) == Pass0(Expected(xs), x.row)
  {
    hide Pieces, Quiet, LastRows;
    var ys := xs + [x];
    QuietMore(xs, x);
    PiecesSame(xs, x);
    var p := Expected(xs);
    if Due(xs) > 0 {
      assert Held(xs) == Held(ys) == 0;
      assert p.out + Marker(p.skipped) == p.out;
      assert LastRows(ys, 0) == LastRows(xs, 0);
    } else if Dropped(xs) < 2 {
      assert Held(ys) == Held(xs) + 1;
      RowsSame(xs, x, Held(xs));
      assert p.out + [] == p.out;
    } else {
      assert Held(ys) == Held(xs) == 2;
      RowsSame(xs, x, 2);
      assert LastRows(ys, 2) == LastRows(ys, 3)[1..];
      assert p.out + [] == p.out;
    }
  }

  /** A change shows what was held back, and nothing else that was not shown before. */
  lemma ShownByChange(xs: seq<Item>, x: Item, i: int)
    requires x.Changed? && 0 <= i <= |xs|
    ensures Shown(xs + [x], i) <==> Shown(xs, i) || i >= |xs| - Held(xs)
  {
    ShownMore(xs, x, i);
    if i < |xs| && i >= |xs| - Quiet(xs) - 1 {
      TailShown(xs, i);
    }
  }

  lemma PassChanged(xs: seq<Item>, x: Item)
    requires x.Changed?
    ensures Expected(xs + [x]) == Hit(Expected(xs), x.rc)
  {
    hide Shown, Quiet, Pieces;
    var ys, n, k := xs + [x], |xs|, Held(xs);
    var m := n - k;
    QuietMore(xs, x);
    forall i | 0 <= i <= n ensures Shown(ys, i) <==> Shown(xs, i) || i >= m {
      ShownByChange(xs, x, i);
    }
    PiecesMore(xs, x, m);
    PiecesEnd(xs, n);
    PiecesEnd(xs, m);
    if m > 0 {
      TailShown(xs, m - 1);
    }
    forall i | m <= i < n ensures ys[i] == Same(RowOf(xs[i])) {
      QuietIsSame(xs, i);
    }
    PiecesAfter(xs, x, k);
    assert LastRows(ys, 0) == [];
  }

  /** The held rows and the change, piece by piece. */
  lemma PiecesAfter(xs: seq<Item>, x: Item, k: nat)
    requires x.Changed? && k <= 2 && k <= |xs|
    requires forall i :: |xs| - k <= i <= |xs| ==> Shown(xs + [x], i)
    requires forall i :: |xs| - k <= i < |xs| ==> (xs + [x])[i] == Same(RowOf(xs[i]))
    ensures var ys, m := xs + [x], |xs| - k;
      Pieces(ys, |ys|) ==
        Pieces(ys, m) + Marker(m > 0 && !Shown(ys, m - 1)) + Contexts(LastRows(xs, k)) + [Change(x.rc)]
  {
    hide Shown, Pieces;
    var ys, n, m := xs + [x], |xs|, |xs| - k;
    assert ys[n] == x;
    PiecesNext(ys, n);
    var rows := Contexts(LastRows(xs, k));
    if k == 0 {
      assert rows == [];
    } else if k == 1 {
      PiecesNext(ys, m);
      assert rows == [Context(RowOf(xs[m]))];
    } else {
      PiecesNext(ys, m);
      PiecesNext(ys, m + 1);
      assert rows == [Context(RowOf(xs[m])), Context(RowOf(xs[m + 1]))];
    }
  }

  lemma {:induction false} RunIsExpected(xs: seq<Item>)
    ensures RunItems(xs) == Expected(xs)
  {
    if xs != [] {
      var ys := xs[..|xs| - 1];
      assert xs == ys + [xs[|xs| - 1]];
      RunIsExpected(ys);
      if xs[|xs| - 1].Same? {
        PassSame(ys, xs[|xs| - 1]);
      } else {
        PassChanged(ys, xs[|xs| - 1]);
      }
    } else {
      assert LastRows(xs, 0) == [];
    }
  }

  /** The streaming pass meets its declarative meaning. */
  lemma PassIsDeclared(xs: seq<Item>)
    ensures Finished(RunItems(xs)) == Declared(xs)
  {
    RunIsExpected(xs);
  }

  lemma {:induction false} PiecesEndShown(xs: seq<Item>, n: nat)
    requires n <= |xs| && Pieces(xs, n) != []
    ensures Pieces(xs, n)[|Pieces(xs, n)| - 1] != Skip
  {
    if Piece(xs, n - 1) == [] {
      PiecesEndShown(xs, n - 1);
    }
  }

  /** The end is marked only after a change and from three dropped rows on: one or two rows dropped there leave no
      trace. */
  lemma EndMarker(xs: seq<Item>)
    ensures Declared(xs) != [] && Declared(xs)[|Declared(xs)| - 1] == Skip <==> AnyChange(xs) && Dropped(xs) > 2
  {
    if Pieces(xs, |xs|) != [] {
      PiecesEndShown(xs, |xs|);
    }
  }
}
