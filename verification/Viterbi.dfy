/** The layered cheapest-path engine (src/libcoopy_core/Viterbi.cpp).

    Costs are `real`: the single-precision rounding of the original is not modelled. */
module Viterbi {

  /** One call of `addTransition`. */
  datatype Trans = Trans(from: nat, to: nat, cost: real)

  /** A sparse sheet: cells are filed under `y * w + x`, so changing `w` refiles nothing. */
  datatype Grid<T(==)> = Grid(w: nat, data: map<int, T>, zero: T) {
    function Get(x: nat, y: nat): T {
      var k := Key(w, x, y);
      if k in data then data[k] else zero
    }

    function Set(x: nat, y: nat, v: T): Grid<T> {
      this.(data := data[Key(w, x, y) := v])
    }
  }

  /** The filing key, by repeated addition. */
  function Key(w: nat, x: nat, y: nat): nat {
    if y == 0 then x else w + Key(w, x, y - 1)
  }

  lemma {:induction false} KeyIsRowMajor(w: nat, x: nat, y: nat)
    ensures Key(w, x, y) == y * w + x
  {
    if y > 0 {
      KeyIsRowMajor(w, x, y - 1);
    }
  }

  lemma {:induction false} KeyBounds(w: nat, x: nat, y: nat, rows: nat)
    requires x < w
    ensures Key(w, x, y) < Key(w, 0, rows) <==> y < rows
  {
    if y > 0 && rows > 0 {
      KeyBounds(w, x, y - 1, rows - 1);
    }
  }

  /** Distinct cells of a grid are filed under distinct keys. */
  lemma {:induction false} KeyInjective(w: nat, x: nat, y: nat, x': nat, y': nat)
    requires x < w && x' < w && Key(w, x, y) == Key(w, x', y')
    ensures x == x' && y == y'
  {
    if y > 0 && y' > 0 {
      KeyInjective(w, x, y - 1, x', y' - 1);
    }
  }

  lemma GetSet<T>(g: Grid<T>, x: nat, y: nat, v: T, x': nat, y': nat)
    requires x < g.w && x' < g.w
    ensures g.Set(x, y, v).Get(x', y') == if x == x' && y == y' then v else g.Get(x', y')
  {
    if Key(g.w, x, y) == Key(g.w, x', y') {
      KeyInjective(g.w, x, y, x', y');
    }
  }

  /** The number of states, the current layer, and the two tables of the class. */
  datatype Trellis = Trellis(states: nat, index: nat, cost: Grid<real>, src: Grid<int>) {
    predicate Sourced(s: nat, t: nat) {
      src.Get(s, t) != -1
    }

    /** The cost of standing in `s` before layer `t` is entered; the first layer starts for free. */
    function Before(s: nat, t: nat): real {
      if t == 0 then 0.0 else cost.Get(s, t - 1)
    }

    predicate CanLeave(s: nat, t: nat) {
      t == 0 || Sourced(s, t - 1)
    }

    /** `nonDestructiveResize`: the width changes, the filed cells do not move. */
    function Widen(s: nat): Trellis {
      if s < states then this
      else this.(states := s + 1, cost := cost.(w := s + 1), src := src.(w := s + 1))
    }

    /** The effect of `addTransition` on the tables, once the layer is open. */
    function Relax(tr: Trans): Trellis {
      var wide := Widen(tr.from).Widen(tr.to);
      var total := tr.cost + wide.Before(tr.from, index);
      if wide.CanLeave(tr.from, index) && (total < wide.cost.Get(tr.to, index) || !wide.Sourced(tr.to, index)) then
        wide.(cost := wide.cost.Set(tr.to, index, total), src := wide.src.Set(tr.to, index, tr.from))
      else
        wide
    }
  }

  function Fresh(states: nat): Trellis {
    Trellis(states, 0, Grid(states, map[], 0.0), Grid(states, map[], -1))
  }

  // ---------------------------------------------------------------------------
  // Chains: the reference meaning of a sequence of layers

  /** A chain takes one transition from each of the first `|c|` layers, end to end. */
  ghost predicate IsChain(layers: seq<set<Trans>>, c: seq<Trans>) {
    && |c| <= |layers|
    && (forall i :: 0 <= i < |c| ==> c[i] in layers[i])
    && (forall i :: 0 < i < |c| ==> c[i - 1].to == c[i].from)
  }

  ghost predicate ChainTo(layers: seq<set<Trans>>, c: seq<Trans>, s: nat, t: nat) {
    IsChain(layers, c) && |c| == t + 1 && c[t].to == s
  }

  function Total(c: seq<Trans>): real {
    if c == [] then 0.0 else Total(c[..|c| - 1]) + c[|c| - 1].cost
  }

  /** A full chain that no other full chain undercuts. */
  ghost predicate IsCheapest(layers: seq<set<Trans>>, c: seq<Trans>) {
    && IsChain(layers, c) && |c| == |layers|
    && forall d :: IsChain(layers, d) && |d| == |layers| ==> Total(c) <= Total(d)
  }

  lemma ChainPrefix(layers: seq<set<Trans>>, c: seq<Trans>)
    requires IsChain(layers, c) && c != []
    ensures IsChain(layers, c[..|c| - 1])
  {
  }

  // ---------------------------------------------------------------------------
  // What the tables know about the layers

  /** One filed cell is justified by a transition out of a state that is itself filed. */
  ghost predicate Justified(t: Trellis, layers: seq<set<Trans>>, s: nat, y: nat)
    requires y < |layers|
  {
    exists tr :: tr in layers[y] && tr.to == s && tr.from == t.src.Get(s, y) && tr.from < t.states
                 && t.CanLeave(tr.from, y) && t.cost.Get(s, y) == tr.cost + t.Before(tr.from, y)
  }

  ghost predicate Relaxed(t: Trellis, tr: Trans, y: nat) {
    && tr.from < t.states && tr.to < t.states
    && (t.CanLeave(tr.from, y) ==> t.Sourced(tr.to, y) && t.cost.Get(tr.to, y) <= tr.cost + t.Before(tr.from, y))
  }

  ghost predicate Tracks(t: Trellis, layers: seq<set<Trans>>) {
    && t.cost.w == t.src.w == t.states && t.src.zero == -1
    && (forall k :: k in t.src.data ==> 0 <= k < Key(t.states, 0, |layers|))
    && (forall s: nat, y: nat {:trigger Justified(t, layers, s, y)} ::
          s < t.states && y < |layers| && t.Sourced(s, y) ==> Justified(t, layers, s, y))
    && (forall y: nat, tr {:trigger Relaxed(t, tr, y)} :: y < |layers| && tr in layers[y] ==> Relaxed(t, tr, y))
  }

  /** No cell is filed beyond the first layer. */
  ghost predicate OnlyFirstLayer(t: Trellis, layers: seq<set<Trans>>) {
    forall s: nat, y: nat :: s < t.states && 1 <= y < |layers| ==> !t.Sourced(s, y)
  }

  ghost predicate Fits(t: Trellis, layers: seq<set<Trans>>, s: nat) {
    s < t.states || OnlyFirstLayer(t, layers)
  }

  lemma WidenTracks(t: Trellis, layers: seq<set<Trans>>, s: nat)
    requires Tracks(t, layers) && Fits(t, layers, s)
    ensures Tracks(t.Widen(s), layers)
    ensures OnlyFirstLayer(t, layers) ==> OnlyFirstLayer(t.Widen(s), layers)
  {
    var wide := t.Widen(s);
    if t.states <= s {
      KeyMonotone(t.states, s + 1, |layers|);
      forall x: nat, y: nat | x < wide.states && y < |layers| && wide.Sourced(x, y)
        ensures y == 0 && x < t.states && t.Sourced(x, 0)
      {
        var x', y' := CellOf(t.states, |layers|, Key(wide.states, x, y));
        assert t.Sourced(x', y') && y' == 0;
        KeyBounds(wide.states, x, y, 1);
      }
      forall x: nat, y: nat | x < wide.states && y < |layers| && wide.Sourced(x, y)
        ensures Justified(wide, layers, x, y)
      {
        assert Justified(t, layers, x, 0);
      }
      forall y: nat, tr | y < |layers| && tr in layers[y]
        ensures Relaxed(wide, tr, y)
      {
        assert Relaxed(t, tr, y);
      }
    }
  }

  lemma {:induction false} KeyMonotone(w: nat, w': nat, rows: nat)
    requires w <= w'
    ensures forall x: nat :: Key(w, x, rows) <= Key(w', x, rows)
    ensures w < w' && rows > 0 ==> forall x: nat :: Key(w, x, rows) < Key(w', x, rows)
  {
    if rows > 0 {
      KeyMonotone(w, w', rows - 1);
    }
  }

  /** The cell filed under a key. */
  lemma {:induction false} CellOf(w: nat, rows: nat, k: nat) returns (x: nat, y: nat)
    requires k < Key(w, 0, rows)
    ensures x < w && y < rows && Key(w, x, y) == k
  {
    if k < w {
      x, y := k, 0;
    } else {
      x, y := CellOf(w, rows - 1, k - w);
      y := y + 1;
    }
  }

  /** `addTransition` keeps the tables exact, provided the state range was settled in the first layer. */
  lemma RelaxTracks(t: Trellis, layers: seq<set<Trans>>, tr: Trans)
    requires Tracks(t, layers) && |layers| == t.index + 1
    requires Fits(t, layers, tr.from) && Fits(t, layers, tr.to)
    ensures Tracks(t.Relax(tr), layers[t.index := layers[t.index] + {tr}])
  {
    hide Tracks, OnlyFirstLayer;
    WidenTracks(t, layers, tr.from);
    WidenTracks(t.Widen(tr.from), layers, tr.to);
    var wide := t.Widen(tr.from).Widen(tr.to);
    RelaxInRange(wide, layers, tr);
  }

  /** Only the target cell of the current layer can change. */
  lemma RelaxElsewhere(t: Trellis, tr: Trans, x: nat, y: nat)
    requires t.cost.w == t.src.w == t.states && tr.from < t.states && tr.to < t.states && x < t.states
    requires x != tr.to || y != t.index
    ensures t.Relax(tr).cost.Get(x, y) == t.cost.Get(x, y) && t.Relax(tr).src.Get(x, y) == t.src.Get(x, y)
  {
    GetSet(t.cost, tr.to, t.index, tr.cost + t.Before(tr.from, t.index), x, y);
    GetSet(t.src, tr.to, t.index, tr.from, x, y);
  }

  /** The target cell ends up at the smaller of what it held and what the transition offers. */
  lemma RelaxHere(t: Trellis, tr: Trans)
    requires t.cost.w == t.src.w == t.states && tr.from < t.states && tr.to < t.states
    ensures var n, u := t.index, t.Relax(tr);
            if t.CanLeave(tr.from, n)
              && (tr.cost + t.Before(tr.from, n) < t.cost.Get(tr.to, n) || !t.Sourced(tr.to, n)) then
              u.src.Get(tr.to, n) == tr.from && u.cost.Get(tr.to, n) == tr.cost + t.Before(tr.from, n)
            else u == t
  {
    GetSet(t.cost, tr.to, t.index, tr.cost + t.Before(tr.from, t.index), tr.to, t.index);
    GetSet(t.src, tr.to, t.index, tr.from, tr.to, t.index);
  }

  lemma RelaxKeepsBefore(t: Trellis, tr: Trans, s: nat, y: nat)
    requires t.cost.w == t.src.w == t.states && tr.from < t.states && tr.to < t.states && s < t.states && y <= t.index
    ensures t.Relax(tr).Before(s, y) == t.Before(s, y) && t.Relax(tr).CanLeave(s, y) == t.CanLeave(s, y)
  {
    if y > 0 {
      RelaxElsewhere(t, tr, s, y - 1);
    }
  }

  lemma RelaxJustifies(t: Trellis, layers: seq<set<Trans>>, tr: Trans, x: nat, y: nat)
    requires Tracks(t, layers) && |layers| == t.index + 1 && tr.from < t.states && tr.to < t.states
    requires x < t.states && y < |layers| && t.Relax(tr).Sourced(x, y)
    ensures Justified(t.Relax(tr), layers[t.index := layers[t.index] + {tr}], x, y)
  {
    hide Trellis.Relax;
    var layers' := layers[t.index := layers[t.index] + {tr}];
    RelaxHere(t, tr);
    RelaxKeepsBefore(t, tr, tr.from, y);
    RelaxRelaxes(t, layers, tr, t.index, tr);
    if x == tr.to && y == t.index && t.Relax(tr) != t {
      assert tr in layers'[y];
    } else {
      if t.Relax(tr) != t {
        RelaxElsewhere(t, tr, x, y);
      }
      assert Justified(t, layers, x, y);
      var old' :| old' in layers[y] && old'.to == x && old'.from == t.src.Get(x, y) && old'.from < t.states
                  && t.CanLeave(old'.from, y) && t.cost.Get(x, y) == old'.cost + t.Before(old'.from, y);
      RelaxKeepsBefore(t, tr, old'.from, y);
      assert old' in layers'[y];
    }
  }

  lemma RelaxRelaxes(t: Trellis, layers: seq<set<Trans>>, tr: Trans, y: nat, e: Trans)
    requires Tracks(t, layers) && |layers| == t.index + 1 && tr.from < t.states && tr.to < t.states
    requires y < |layers| && (e in layers[y] || (e == tr && y == t.index))
    ensures Relaxed(t.Relax(tr), e, y) && t.Relax(tr).states == t.states
  {
    RelaxHere(t, tr);
    assert e in layers[y] ==> Relaxed(t, e, y);
    RelaxKeepsBefore(t, tr, e.from, y);
    if e.to != tr.to || y != t.index {
      RelaxElsewhere(t, tr, e.to, y);
    }
  }

  lemma RelaxInRange(t: Trellis, layers: seq<set<Trans>>, tr: Trans)
    requires Tracks(t, layers) && |layers| == t.index + 1 && tr.from < t.states && tr.to < t.states
    ensures Tracks(t.Relax(tr), layers[t.index := layers[t.index] + {tr}])
  {
    var n := t.index;
    var after := t.Relax(tr);
    var layers' := layers[n := layers[n] + {tr}];
    KeyBounds(t.states, tr.to, n, |layers|);
    forall x: nat, y: nat | x < t.states && y < |layers'| && after.Sourced(x, y)
      ensures Justified(after, layers', x, y)
    {
      RelaxJustifies(t, layers, tr, x, y);
    }
    forall y: nat, e | y < |layers'| && e in layers'[y]
      ensures Relaxed(after, e, y)
    {
      RelaxRelaxes(t, layers, tr, y, e);
    }
  }

  /** Opening a layer files nothing. */
  lemma OpenTracks(t: Trellis, layers: seq<set<Trans>>)
    requires Tracks(t, layers) && |layers| == t.index
    ensures Tracks(t, layers + [{}])
  {
    var more := layers + [{}];
    forall s: nat, y: nat | s < t.states && y < |more| && t.Sourced(s, y)
      ensures Justified(t, more, s, y)
    {
      KeyBounds(t.states, s, y, |layers|);
      assert Justified(t, layers, s, y);
    }
  }

  // ---------------------------------------------------------------------------
  // Optimality

  /** No chain is cheaper than what the table says, and every state a chain reaches is sourced. */
  lemma {:induction false} ChainIsFiled(t: Trellis, layers: seq<set<Trans>>, c: seq<Trans>)
    requires Tracks(t, layers) && IsChain(layers, c) && c != []
    ensures var last := |c| - 1;
            c[last].to < t.states && t.Sourced(c[last].to, last) && t.cost.Get(c[last].to, last) <= Total(c)
  {
    var last := |c| - 1;
    if last > 0 {
      ChainPrefix(layers, c);
      ChainIsFiled(t, layers, c[..last]);
      assert c[..last][last - 1] == c[last - 1];
    }
    assert Relaxed(t, c[last], last);
  }

  /** A transition that justifies a filed cell. */
  ghost function Last(t: Trellis, layers: seq<set<Trans>>, s: nat, y: nat): (tr: Trans)
    requires y < |layers| && Justified(t, layers, s, y)
    ensures tr in layers[y] && tr.to == s && tr.from == t.src.Get(s, y) && tr.from < t.states
    ensures t.CanLeave(tr.from, y) && t.cost.Get(s, y) == tr.cost + t.Before(tr.from, y)
  {
    var tr :| tr in layers[y] && tr.to == s && tr.from == t.src.Get(s, y) && tr.from < t.states
              && t.CanLeave(tr.from, y) && t.cost.Get(s, y) == tr.cost + t.Before(tr.from, y);
    tr
  }

  /** The chain that following `src` backwards uncovers. */
  ghost function Trace(t: Trellis, layers: seq<set<Trans>>, s: nat, y: nat): (c: seq<Trans>)
    requires Tracks(t, layers) && s < t.states && y < |layers| && t.Sourced(s, y)
    decreases y
  {
    assert Justified(t, layers, s, y);
    var tr := Last(t, layers, s, y);
    if y == 0 then [tr] else Trace(t, layers, tr.from, y - 1) + [tr]
  }

  /** `c` reaches `s` at layer `y` for its filed cost, along the filed sources. */
  ghost predicate IsTrace(t: Trellis, layers: seq<set<Trans>>, c: seq<Trans>, s: nat, y: nat) {
    && ChainTo(layers, c, s, y) && Total(c) == t.cost.Get(s, y)
    && forall i :: 0 <= i <= y ==> c[i].to < t.states && c[i].from == t.src.Get(c[i].to, i)
  }

  lemma TraceStarts(t: Trellis, layers: seq<set<Trans>>, tr: Trans)
    requires |layers| > 0 && tr in layers[0] && tr.to < t.states
    requires tr.from == t.src.Get(tr.to, 0) && t.cost.Get(tr.to, 0) == tr.cost
    ensures IsTrace(t, layers, [tr], tr.to, 0)
  {
    hide Grid.Get;
    assert [tr][..0] == [] && Total([]) == 0.0;
    assert Total([tr]) == Total([tr][..0]) + tr.cost;
  }

  lemma TraceGoesOn(t: Trellis, layers: seq<set<Trans>>, front: seq<Trans>, tr: Trans, y: nat)
    requires 0 < y < |layers| && IsTrace(t, layers, front, tr.from, y - 1) && tr in layers[y] && tr.to < t.states
    requires tr.from == t.src.Get(tr.to, y) && t.cost.Get(tr.to, y) == tr.cost + t.cost.Get(tr.from, y - 1)
    ensures IsTrace(t, layers, front + [tr], tr.to, y)
  {
    hide Grid.Get;
    var c := front + [tr];
    LongerChain(layers, front, tr);
    hide Total, IsChain;
    forall i | 0 <= i <= y ensures c[i].to < t.states && c[i].from == t.src.Get(c[i].to, i) {
      if i < y {
        assert c[i] == front[i];
      }
    }
  }

  lemma LongerChain(layers: seq<set<Trans>>, c: seq<Trans>, tr: Trans)
    requires IsChain(layers, c) && c != [] && |c| < |layers| && tr in layers[|c|] && tr.from == c[|c| - 1].to
    ensures IsChain(layers, c + [tr]) && Total(c + [tr]) == Total(c) + tr.cost
  {
    var d := c + [tr];
    assert d[..|c|] == c;
    forall i | 0 <= i < |d| ensures d[i] in layers[i] && (i > 0 ==> d[i - 1].to == d[i].from) {
      if i < |c| {
        assert d[i] == c[i] && (i > 0 ==> d[i - 1] == c[i - 1]);
      }
    }
  }

  /** Following the sources back from a filed cell spells a chain of the filed cost. */
  lemma {:induction false} TraceIsChain(t: Trellis, layers: seq<set<Trans>>, s: nat, y: nat)
    requires Tracks(t, layers) && s < t.states && y < |layers| && t.Sourced(s, y)
    ensures IsTrace(t, layers, Trace(t, layers, s, y), s, y)
    decreases y
  {
    assert Justified(t, layers, s, y);
    var tr := Last(t, layers, s, y);
    hide Tracks, Justified, IsTrace, Grid.Get;
    if y == 0 {
      TraceStarts(t, layers, tr);
    } else {
      TraceIsChain(t, layers, tr.from, y - 1);
      TraceGoesOn(t, layers, Trace(t, layers, tr.from, y - 1), tr, y);
    }
  }

  /** A state is sourced at a layer exactly when some chain reaches it there. */
  lemma SourcedIffReached(t: Trellis, layers: seq<set<Trans>>, s: nat, y: nat)
    requires Tracks(t, layers) && s < t.states && y < |layers|
    ensures t.Sourced(s, y) <==> exists c :: ChainTo(layers, c, s, y)
  {
    if t.Sourced(s, y) {
      TraceIsChain(t, layers, s, y);
      assert ChainTo(layers, Trace(t, layers, s, y), s, y);
    }
    forall c | ChainTo(layers, c, s, y)
      ensures t.Sourced(s, y)
    {
      ChainIsFiled(t, layers, c);
    }
  }

  lemma GreatestCell(t: Trellis, layers: seq<set<Trans>>, cells: set<(nat, nat)>) returns (x: nat, y: nat)
    requires cells != {}
    ensures (x, y) in cells && forall c :: c in cells ==> Key(t.states, c.0, c.1) <= Key(t.states, x, y)
  {
    var c :| c in cells;
    x, y := c.0, c.1;
    var rest := cells - {c};
    if rest != {} {
      var x', y' := GreatestCell(t, layers, rest);
      if Key(t.states, x, y) < Key(t.states, x', y') {
        x, y := x', y';
      }
    }
    assert cells == rest + {c};
  }

  /** The greatest cell filed beyond the first layer is not found again once the width has grown. */
  lemma GrowthLoses(t: Trellis, layers: seq<set<Trans>>, s: nat, x: nat, y: nat)
    requires Tracks(t, layers) && t.states <= s && x < t.states && 1 <= y < |layers|
    requires forall x': nat, y': nat :: x' < t.states && 1 <= y' < |layers| && t.Sourced(x', y') ==>
               Key(t.states, x', y') <= Key(t.states, x, y)
    ensures !t.Widen(s).Sourced(x, y)
  {
    var wide := t.Widen(s);
    var k := Key(wide.states, x, y);
    KeyMonotone(t.states, wide.states, y);
    if k in t.src.data {
      var x', y' := CellOf(t.states, |layers|, k);
      KeyBounds(t.states, x', y', 1);
      assert Key(t.states, 0, 1) == t.states <= k;
      assert !t.Sourced(x', y');
    }
  }

  /** Naming a new state keeps the tables exact if and only if nothing is filed beyond the first layer:
      the filed cells do not move when the width changes, so later growth loses chains. */
  lemma GrowthIsExactIff(t: Trellis, layers: seq<set<Trans>>, s: nat)
    requires Tracks(t, layers) && t.states <= s
    ensures Tracks(t.Widen(s), layers) <==> OnlyFirstLayer(t, layers)
  {
    hide Tracks;
    var wide := t.Widen(s);
    if OnlyFirstLayer(t, layers) {
      WidenTracks(t, layers, s);
    } else {
      var cells := set x, y | 0 <= x < t.states && 1 <= y < |layers| && t.Sourced(x, y) :: (x as nat, y as nat);
      var x0: nat, y0: nat :| x0 < t.states && 1 <= y0 < |layers| && t.Sourced(x0, y0);
      assert (x0, y0) in cells;
      var x, y := GreatestCell(t, layers, cells);
      forall x': nat, y': nat | x' < t.states && 1 <= y' < |layers| && t.Sourced(x', y')
        ensures Key(t.states, x', y') <= Key(t.states, x, y)
      {
        assert (x', y') in cells;
      }
      GrowthLoses(t, layers, s, x, y);
      SourcedIffReached(t, layers, x, y);
      if Tracks(wide, layers) {
        SourcedIffReached(wide, layers, x, y);
        assert false;
      }
    }
  }

  /** A concrete loss: the run 0 -> 0, 0 -> 0 is forgotten once a transition first names state 1. */
  lemma LateGrowthForgets()
    ensures var t := Fresh(1).Relax(Trans(0, 0, 0.0)).(index := 1).Relax(Trans(0, 0, 5.0));
            t.Sourced(0, 1) && !t.Relax(Trans(0, 1, 7.0)).Sourced(0, 1)
  {
  }

  // ---------------------------------------------------------------------------
  // The class

  ghost predicate Reachable(layers: seq<set<Trans>>) {
    layers != [] ==> exists c :: IsChain(layers, c) && |c| == |layers|
  }

  /** `path` lists the states a cheapest full chain arrives in, `best` is its cost. */
  ghost predicate IsBestPath(layers: seq<set<Trans>>, path: seq<int>, best: real) {
    exists c: seq<Trans> :: IsCheapest(layers, c) && Total(c) == best && |path| == |c|
                && forall i :: 0 <= i < |c| ==> path[i] == c[i].to
  }

  class Viterbi {
    var trellis: Trellis
    var open: bool      // mode == 1
    var pathValid: bool
    var bestCost: real
    var path: seq<int>
    ghost var layers: seq<set<Trans>>

    ghost predicate Shape()
      reads this
    {
      |layers| == trellis.index + if open then 1 else 0
    }

    ghost predicate Valid()
      reads this
    {
      && Shape()
      && Tracks(trellis, layers)
      && (pathValid ==> !open && (layers != [] ==> IsBestPath(layers, path, bestCost)))
    }

    constructor (states: nat)
      ensures Valid() && layers == [] && !open && trellis.states == states
    {
      trellis, open, pathValid, bestCost, path, layers := Fresh(states), false, false, 0.0, [], [];
    }

    method BeginTransitions()
      requires Shape()
      modifies this
      ensures open && !pathValid && trellis == old(trellis)
      ensures layers == if old(open) then old(layers) else old(layers) + [{}]
      ensures Shape() && (old(Valid()) ==> Valid())
    {
      if !open && Valid() {
        OpenTracks(trellis, layers);
      }
      layers := if open then layers else layers + [{}];
      pathValid, open := false, true;
    }

    method EndTransitions()
      requires Shape()
      modifies this
      ensures !open && !pathValid && layers == old(layers)
      ensures trellis == old(trellis).(index := |layers|)
      ensures Shape() && (old(Valid()) ==> Valid())
    {
      pathValid := false;
      if open {
        trellis := trellis.(index := trellis.index + 1);
      }
      open := false;
      if old(Valid()) {
        IndexIsIrrelevant(old(trellis), layers, trellis.index);
      }
    }

    method AddTransition(s0: nat, s1: nat, c: real)
      requires Shape()
      modifies this
      ensures open && !pathValid && Shape()
      ensures trellis == old(trellis).Relax(Trans(s0, s1, c))
      ensures var before := if old(open) then old(layers) else old(layers) + [{}];
              layers == before[trellis.index := before[trellis.index] + {Trans(s0, s1, c)}]
      ensures old(Valid() && Fits(trellis, layers, s0) && Fits(trellis, layers, s1)) ==> Valid()
    {
      BeginTransitions();
      ghost var before := layers;
      if old(Valid() && Fits(trellis, layers, s0) && Fits(trellis, layers, s1)) {
        if old(OnlyFirstLayer(trellis, layers)) {
          StillFirst(old(trellis), old(layers), layers);
        }
        RelaxTracks(trellis, layers, Trans(s0, s1, c));
      }
      trellis := trellis.Relax(Trans(s0, s1, c));
      layers := layers[trellis.index := layers[trellis.index] + {Trans(s0, s1, c)}];
    }

    /** The cheapest path through all the layers; the original asserts that there is one. */
    method CalculatePath()
      requires Valid() && Reachable(layers)
      modifies this
      ensures Valid() && pathValid && layers == old(layers)
      ensures layers != [] ==> IsBestPath(layers, path, bestCost)
    {
      if pathValid {
        return;
      }
      EndTransitions();
      if trellis.index == 0 {
        pathValid := true;
        return;
      }
      var last := trellis.index - 1;
      ghost var any :| IsChain(layers, any) && |any| == |layers|;
      ChainIsFiled(trellis, layers, any);
      var best, bestJ := BestEnd(trellis, last);
      bestCost := best;
      path := Backtrace(trellis, layers, last, bestJ);
      pathValid := true;
    }
  }

  /** `v` has recorded the layers `done` and, in its open layer, the transitions `here`. */
  ghost predicate At(v: Viterbi, states: nat, done: seq<set<Trans>>, here: set<Trans>)
    reads v
  {
    v.Valid() && v.open && v.trellis.states == states && v.layers == done + [here]
  }

  method Add(v: Viterbi, s0: nat, s1: nat, c: real, ghost states: nat, ghost done: seq<set<Trans>>,
             ghost here: set<Trans>)
    requires At(v, states, done, here) && s0 < states && s1 < states
    modifies v
    ensures At(v, states, done, here + {Trans(s0, s1, c)})
  {
    v.AddTransition(s0, s1, c);
    assert v.layers == done + [here + {Trans(s0, s1, c)}];
  }

  /** The state of least cost among those sourced at the last layer. */
  method BestEnd(t: Trellis, last: nat) returns (best: real, bestJ: int)
    ensures -1 <= bestJ < t.states
    ensures bestJ != -1 ==> t.Sourced(bestJ, last) && best == t.cost.Get(bestJ, last)
    ensures forall x: nat :: x < t.states && t.Sourced(x, last) ==> bestJ != -1 && best <= t.cost.Get(x, last)
  {
    best, bestJ := 0.0, -1;
    for j := 0 to t.states
      invariant -1 <= bestJ < j
      invariant bestJ != -1 ==> t.Sourced(bestJ, last) && best == t.cost.Get(bestJ, last)
      invariant forall x: nat :: x < j && t.Sourced(x, last) ==> bestJ != -1 && best <= t.cost.Get(x, last)
    {
      if (t.cost.Get(j, last) < best || bestJ == -1) && t.Sourced(j, last) {
        best, bestJ := t.cost.Get(j, last), j;
      }
    }
  }

  /** Following `src` back from the best end spells out a cheapest chain. */
  method Backtrace(t: Trellis, ghost layers: seq<set<Trans>>, last: nat, end: nat) returns (path: seq<int>)
    requires Tracks(t, layers) && t.index == last + 1 == |layers|
    requires end < t.states && t.Sourced(end, last)
    requires forall x: nat :: x < t.states && t.Sourced(x, last) ==>
               t.cost.Get(end, last) <= t.cost.Get(x, last)
    ensures IsBestPath(layers, path, t.cost.Get(end, last))
  {
    ghost var chain := Trace(t, layers, end, last);
    TraceIsChain(t, layers, end, last);
    TraceIsCheapest(t, layers, chain, end, last);
    path := FollowBack(t, t.index, end, chain);
    hide Tracks, Trace, IsCheapest, IsChain, Total, Grid.Get;
    assert IsCheapest(layers, chain) && Total(chain) == t.cost.Get(end, last);
  }

  /** The backward loop. */
  method FollowBack(t: Trellis, index: nat, end: nat, ghost chain: seq<Trans>) returns (path: seq<int>)
    requires |chain| == index > 0 && chain[index - 1].to == end
    requires forall i :: 0 <= i < index ==> chain[i].from == t.src.Get(chain[i].to, i)
    requires forall i :: 0 < i < index ==> chain[i - 1].to == chain[i].from
    ensures |path| == index && forall i :: 0 <= i < index ==> path[i] == chain[i].to
  {
    hide Grid.Get;
    path := seq(index, _ => -1);
    var i, at := index, end as int;
    while i > 0
      invariant 0 <= i <= index == |path|
      invariant i > 0 ==> at == chain[i - 1].to
      invariant forall n :: i <= n < |path| ==> path[n] == chain[n].to
    {
      i := i - 1;
      path := path[i := at];
      at := t.src.Get(at, i);
    }
  }

  lemma TraceIsCheapest(t: Trellis, layers: seq<set<Trans>>, c: seq<Trans>, end: nat, last: nat)
    requires Tracks(t, layers) && |layers| == last + 1 && IsTrace(t, layers, c, end, last)
    requires forall x: nat :: x < t.states && t.Sourced(x, last) ==> t.cost.Get(end, last) <= t.cost.Get(x, last)
    ensures IsCheapest(layers, c) && |c| == last + 1 && c[last].to == end && Total(c) == t.cost.Get(end, last)
  {
    hide Tracks, IsCheapest, Grid.Get;
    CheapestIsLeast(t, layers, c, last);
  }

  lemma IndexIsIrrelevant(t: Trellis, layers: seq<set<Trans>>, n: nat)
    requires Tracks(t, layers)
    ensures Tracks(t.(index := n), layers)
  {
    var u := t.(index := n);
    forall s: nat, y: nat | s < u.states && y < |layers| && u.Sourced(s, y)
      ensures Justified(u, layers, s, y)
    {
      assert Justified(t, layers, s, y);
    }
    forall y: nat, tr | y < |layers| && tr in layers[y]
      ensures Relaxed(u, tr, y)
    {
      assert Relaxed(t, tr, y);
    }
  }

  lemma StillFirst(t: Trellis, before: seq<set<Trans>>, after: seq<set<Trans>>)
    requires Tracks(t, before) && |before| <= |after| && OnlyFirstLayer(t, before)
    ensures OnlyFirstLayer(t, after)
  {
    forall s: nat, y: nat | s < t.states && 1 <= y < |after|
      ensures !t.Sourced(s, y)
    {
      KeyBounds(t.states, s, y, |before|);
    }
  }

  /** A chain into the state of least filed cost is a cheapest one. */
  lemma CheapestIsLeast(t: Trellis, layers: seq<set<Trans>>, c: seq<Trans>, last: nat)
    requires Tracks(t, layers) && |layers| == last + 1
    requires IsChain(layers, c) && |c| == last + 1
    requires forall x: nat :: x < t.states && t.Sourced(x, last) ==> Total(c) <= t.cost.Get(x, last)
    ensures IsCheapest(layers, c)
  {
    forall d | IsChain(layers, d) && |d| == |layers|
      ensures Total(c) <= Total(d)
    {
      ChainIsFiled(t, layers, d);
    }
  }
}
