/** The lattice over candidate matches of src/libcoopy_core/MeasureMan.cpp, whose states also remember which ambiguous
    units were used, and what its cheapest path means: the choice of candidates with the greatest total score. */
module MatchLattice {
  import opened HistoryBits
  import V = Viterbi

  /** The candidates of each position, out of `width` units, how well a candidate fits a position, and the price of
      standing at a distance from it after another match. */
  datatype Problem = Problem(width: nat, cells: seq<set<nat>>, score: (nat, nat) -> real, drift: nat -> real) {
    function Stride(): nat { width + 1 }

    /** The cost of choosing `i1` at position `i` after `i0` (-1: unmatched). */
    function Cost(i: nat, i0: int, i1: nat): real {
      var c := -score(i, i1);
      if i0 == -1 then c else c + drift(Distance(i, i1))
    }

    predicate WasCandidate(i: nat, i0: nat) {
      0 < i <= |cells| && i0 in cells[i - 1]
    }
  }

  function Distance(a: nat, b: nat): nat {
    if a < b then b - a else a - b
  }

  /** The flagged units and their powers of two. */
  type Flags = map<nat, nat>

  function Offset(flags: Flags, u: nat): nat {
    if u in flags then flags[u] else 0
  }

  function Enter(p: Problem, flags: Flags, i: nat, k: nat, i0: int, i1: nat): V.Trans
    requires i0 >= -1
  {
    V.Trans(k * p.Stride() + (i0 + 1), (k + Offset(flags, i1)) * p.Stride() + (i1 + 1), p.Cost(i, i0, i1))
  }

  function Leave(p: Problem, k: nat, i0: int): V.Trans
    requires i0 >= -1
  {
    V.Trans(k * p.Stride() + (i0 + 1), k * p.Stride() + 0, 0.0)
  }

  // ---------------------------------------------------------------------------
  // The lattice, loop by loop

  function EntersFrom(p: Problem, flags: Flags, i: nat, k: nat, i1: nat, n: nat): set<V.Trans> {
    if n == 0 then {}
    else if p.WasCandidate(i, n - 1) && n - 1 != i1 then
      EntersFrom(p, flags, i, k, i1, n - 1) + {Enter(p, flags, i, k, n - 1, i1)}
    else EntersFrom(p, flags, i, k, i1, n - 1)
  }

  function EntersTo(p: Problem, flags: Flags, i: nat, k: nat, m: nat): set<V.Trans>
    requires i < |p.cells|
  {
    if m == 0 then {}
    else if m - 1 in p.cells[i] && !Overlaps(Offset(flags, m - 1), k) then
      EntersTo(p, flags, i, k, m - 1) + EntersFrom(p, flags, i, k, m - 1, p.width) + {Enter(p, flags, i, k, -1, m - 1)}
    else EntersTo(p, flags, i, k, m - 1)
  }

  function Leaves(p: Problem, i: nat, k: nat, n: nat): set<V.Trans> {
    if n == 0 then {}
    else if p.WasCandidate(i, n - 1) then Leaves(p, i, k, n - 1) + {Leave(p, k, n - 1)}
    else Leaves(p, i, k, n - 1)
  }

  function Layer(p: Problem, flags: Flags, i: nat, histories: nat): set<V.Trans>
    requires i < |p.cells|
  {
    if histories == 0 then {}
    else
      var k := histories - 1;
      Layer(p, flags, i, k) + EntersTo(p, flags, i, k, p.width) + Leaves(p, i, k, p.width) + {Leave(p, k, -1)}
  }

  ghost function Lattice(p: Problem, flags: Flags, histories: nat, n: nat): (layers: seq<set<V.Trans>>)
    requires n <= |p.cells|
    ensures |layers| == n && forall i :: 0 <= i < n ==> layers[i] == Layer(p, flags, i, histories)
  {
    if n == 0 then [] else Lattice(p, flags, histories, n - 1) + [Layer(p, flags, n - 1, histories)]
  }

  // ---------------------------------------------------------------------------
  // What a transition is

  ghost predicate CameFrom(p: Problem, i: nat, i0: int) {
    i0 == -1 || (0 <= i0 < p.width && p.WasCandidate(i, i0))
  }

  ghost predicate IsEnter(p: Problem, flags: Flags, i: nat, k: nat, tr: V.Trans)
    requires i < |p.cells|
  {
    exists i0: int, i1: nat :: CameFrom(p, i, i0) && i1 < p.width && i1 in p.cells[i] && i0 != i1
                               && !Overlaps(Offset(flags, i1), k) && tr == Enter(p, flags, i, k, i0, i1)
  }

  ghost predicate IsLeave(p: Problem, i: nat, k: nat, tr: V.Trans) {
    exists i0: int :: CameFrom(p, i, i0) && tr == Leave(p, k, i0)
  }

  lemma {:induction false} EntersFromMembers(p: Problem, flags: Flags, i: nat, k: nat, i1: nat, n: nat, tr: V.Trans)
    ensures tr in EntersFrom(p, flags, i, k, i1, n) <==>
            exists i0: nat :: i0 < n && p.WasCandidate(i, i0) && i0 != i1 && tr == Enter(p, flags, i, k, i0, i1)
  {
    hide Enter, Problem.WasCandidate;
    if n > 0 {
      EntersFromMembers(p, flags, i, k, i1, n - 1, tr);
    }
  }

  lemma {:induction false} EntersToMembers(p: Problem, flags: Flags, i: nat, k: nat, m: nat, tr: V.Trans)
    requires i < |p.cells|
    ensures tr in EntersTo(p, flags, i, k, m) <==>
            exists i0: int, i1: nat :: CameFrom(p, i, i0) && i1 < m && i1 in p.cells[i] && i0 != i1
                                       && !Overlaps(Offset(flags, i1), k) && tr == Enter(p, flags, i, k, i0, i1)
  {
    hide Enter, Problem.WasCandidate, Overlaps, Offset;
    if m > 0 {
      EntersToMembers(p, flags, i, k, m - 1, tr);
      EntersFromMembers(p, flags, i, k, m - 1, p.width, tr);
      if m - 1 in p.cells[i] && !Overlaps(Offset(flags, m - 1), k) {
        assert CameFrom(p, i, -1);
        if tr in EntersFrom(p, flags, i, k, m - 1, p.width) {
          var i0: nat :| i0 < p.width && p.WasCandidate(i, i0) && i0 != m - 1 && tr == Enter(p, flags, i, k, i0, m - 1);
          assert CameFrom(p, i, i0);
        }
      }
    }
  }

  lemma {:induction false} LeavesMembers(p: Problem, i: nat, k: nat, n: nat, tr: V.Trans)
    ensures tr in Leaves(p, i, k, n) <==> exists i0: nat :: i0 < n && p.WasCandidate(i, i0) && tr == Leave(p, k, i0)
  {
    hide Leave, Problem.WasCandidate;
    if n > 0 {
      LeavesMembers(p, i, k, n - 1, tr);
    }
  }

  /** The exact transitions of a layer: from every history and every previous candidate (or none) to every candidate
      whose bit is clear, setting it, and back to the unmatched state of the same history. */
  lemma {:induction false} LayerMembers(p: Problem, flags: Flags, i: nat, histories: nat, tr: V.Trans)
    requires i < |p.cells|
    ensures tr in Layer(p, flags, i, histories) <==>
            exists k: nat :: k < histories && (IsEnter(p, flags, i, k, tr) || IsLeave(p, i, k, tr))
  {
    hide Enter, Leave, Problem.WasCandidate, Overlaps, Offset, EntersTo, Leaves, IsEnter;
    if histories > 0 {
      var k := histories - 1;
      LayerMembers(p, flags, i, k, tr);
      EnterIff(p, flags, i, k, tr);
      LeavesMembers(p, i, k, p.width, tr);
      assert CameFrom(p, i, -1);
      if tr in Leaves(p, i, k, p.width) {
        var i0: nat :| i0 < p.width && p.WasCandidate(i, i0) && tr == Leave(p, k, i0);
        assert CameFrom(p, i, i0);
      }
    }
  }

  lemma EnterIff(p: Problem, flags: Flags, i: nat, k: nat, tr: V.Trans)
    requires i < |p.cells|
    ensures tr in EntersTo(p, flags, i, k, p.width) <==> IsEnter(p, flags, i, k, tr)
  {
    EntersToMembers(p, flags, i, k, p.width, tr);
  }

  // ---------------------------------------------------------------------------
  // Histories along a chain

  /** Each flagged unit owns one of the first `count` bits. */
  ghost predicate FlagsOk(flags: Flags, bits: map<nat, nat>, count: nat) {
    && flags.Keys == bits.Keys && |flags| == count
    && (forall u :: u in flags ==> bits[u] < count && flags[u] == Pow2(bits[u]))
    && (forall u, w :: u in bits && w in bits && bits[u] == bits[w] ==> u == w)
  }

  function History(p: Problem, state: nat): nat { state / p.Stride() }

  function Column(p: Problem, state: nat): nat { state % p.Stride() }

  /** What a transition of a layer does to the history. */
  ghost predicate Remembers(p: Problem, bits: map<nat, nat>, count: nat, i: nat, tr: V.Trans)
    requires i < |p.cells|
  {
    var h, h', y := History(p, tr.from), History(p, tr.to), Column(p, tr.to);
    && tr.from < p.Stride() * Pow2(count) && tr.to < p.Stride() * Pow2(count)
    && (forall j: nat :: Bit(h, j) ==> Bit(h', j))
    && (y == 0 ==> h' == h)
    && (y > 0 ==> y - 1 in p.cells[i])
    && (y > 0 && y - 1 in bits ==> !Bit(h, bits[y - 1]) && Bit(h', bits[y - 1]))
  }

  /** Entering a candidate whose bit is clear sets it, within the mask. */
  lemma MaskStep(flags: Flags, bits: map<nat, nat>, count: nat, k: nat, u: nat)
    requires FlagsOk(flags, bits, count) && k < Pow2(count) && !Overlaps(Offset(flags, u), k)
    ensures var h' := k + Offset(flags, u);
            && h' < Pow2(count) && (forall j: nat :: Bit(k, j) ==> Bit(h', j))
            && (u in bits ==> !Bit(k, bits[u]) && Bit(h', bits[u]))
  {
    hide Bit, Pow2, Overlaps;
    if u in flags {
      OverlapIsBit(bits[u], k);
      AddStaysBelow(k, bits[u], count);
      forall j: nat ensures Bit(k + Offset(flags, u), j) <==> j == bits[u] || Bit(k, j) {
        AddSetsBit(k, bits[u], j);
      }
    }
  }

  lemma EnterRemembers(p: Problem, flags: Flags, bits: map<nat, nat>, count: nat, i: nat, k: nat, i0: int, i1: nat)
    requires FlagsOk(flags, bits, count) && i < |p.cells| && k < Pow2(count)
    requires -1 <= i0 < p.width && i1 < p.width && i1 in p.cells[i] && !Overlaps(Offset(flags, i1), k)
    ensures Remembers(p, bits, count, i, Enter(p, flags, i, k, i0, i1))
  {
    hide Bit, Pow2, Overlaps, FlagsOk, Offset;
    MaskStep(flags, bits, count, k, i1);
    Unpack(k, i0 + 1, p.Stride());
    Unpack(k + Offset(flags, i1), i1 + 1, p.Stride());
    PackBelow(k, i0 + 1, p.Stride(), Pow2(count));
    PackBelow(k + Offset(flags, i1), i1 + 1, p.Stride(), Pow2(count));
  }

  lemma LeaveRemembers(p: Problem, bits: map<nat, nat>, count: nat, i: nat, k: nat, i0: int)
    requires i < |p.cells| && k < Pow2(count) && -1 <= i0 < p.width
    ensures Remembers(p, bits, count, i, Leave(p, k, i0))
  {
    Unpack(k, i0 + 1, p.Stride());
    Unpack(k, 0, p.Stride());
    PackBelow(k, i0 + 1, p.Stride(), Pow2(count));
    PackBelow(k, 0, p.Stride(), Pow2(count));
  }

  /** Every transition stays inside the declared state range and only adds to the history. */
  lemma LayerRemembers(p: Problem, flags: Flags, bits: map<nat, nat>, count: nat, i: nat, tr: V.Trans)
    requires FlagsOk(flags, bits, count) && i < |p.cells| && tr in Layer(p, flags, i, Pow2(count))
    ensures Remembers(p, bits, count, i, tr)
  {
    hide Remembers, Enter, Leave, Layer, FlagsOk, Overlaps, Pow2;
    LayerMembers(p, flags, i, Pow2(count), tr);
    var k: nat :| k < Pow2(count) && (IsEnter(p, flags, i, k, tr) || IsLeave(p, i, k, tr));
    if IsEnter(p, flags, i, k, tr) {
      var i0: int, i1: nat :| CameFrom(p, i, i0) && i1 < p.width && i1 in p.cells[i] && i0 != i1
                              && !Overlaps(Offset(flags, i1), k) && tr == Enter(p, flags, i, k, i0, i1);
      EnterRemembers(p, flags, bits, count, i, k, i0, i1);
    } else {
      var i0: int :| CameFrom(p, i, i0) && tr == Leave(p, k, i0);
      LeaveRemembers(p, bits, count, i, k, i0);
    }
  }

  ghost predicate IsHistoryChain(p: Problem, flags: Flags, bits: map<nat, nat>, count: nat, c: seq<V.Trans>) {
    FlagsOk(flags, bits, count) && |c| <= |p.cells| && V.IsChain(Lattice(p, flags, Pow2(count), |p.cells|), c)
  }

  lemma ChainStep(p: Problem, flags: Flags, bits: map<nat, nat>, count: nat, c: seq<V.Trans>, n: nat)
    requires IsHistoryChain(p, flags, bits, count, c) && n < |c|
    ensures Remembers(p, bits, count, n, c[n]) && (n > 0 ==> c[n].from == c[n - 1].to)
  {
    hide Remembers, Layer;
    assert c[n] in Lattice(p, flags, Pow2(count), |p.cells|)[n];
    LayerRemembers(p, flags, bits, count, n, c[n]);
  }

  /** Histories only grow along a chain. */
  lemma {:induction false} HistoryGrows(p: Problem, flags: Flags, bits: map<nat, nat>, count: nat, c: seq<V.Trans>,
                                        a: nat, b: nat, j: nat)
    requires IsHistoryChain(p, flags, bits, count, c) && a <= b < |c| && Bit(History(p, c[a].to), j)
    ensures Bit(History(p, c[b].to), j)
    decreases b
  {
    hide IsHistoryChain, Bit;
    if a < b {
      HistoryGrows(p, flags, bits, count, c, a, b - 1, j);
      ChainStep(p, flags, bits, count, c, b);
    }
  }

  /** No chain matches a flagged unit at two positions. */
  lemma FlaggedOnce(p: Problem, flags: Flags, bits: map<nat, nat>, count: nat, c: seq<V.Trans>, a: nat, b: nat, u: nat)
    requires IsHistoryChain(p, flags, bits, count, c) && a < b < |c| && u in flags
    requires Column(p, c[a].to) == u + 1
    ensures Column(p, c[b].to) != u + 1
  {
    hide IsHistoryChain, Bit;
    assert u in bits by {
      FlagsHaveBits(p, flags, bits, count, c);
    }
    ChainStep(p, flags, bits, count, c, a);
    HistoryGrows(p, flags, bits, count, c, a, b - 1, bits[u]);
    ChainStep(p, flags, bits, count, c, b);
  }

  lemma FlagsHaveBits(p: Problem, flags: Flags, bits: map<nat, nat>, count: nat, c: seq<V.Trans>)
    requires IsHistoryChain(p, flags, bits, count, c)
    ensures flags.Keys == bits.Keys
  {
  }

  // ---------------------------------------------------------------------------
  // Building the lattice and taking its cheapest path

  ghost predicate Building(v: V.Viterbi, p: Problem, flags: Flags, bits: map<nat, nat>, count: nat,
                           done: seq<set<V.Trans>>, here: set<V.Trans>)
    reads v
  {
    FlagsOk(flags, bits, count) && V.At(v, p.Stride() * Pow2(count), done, here)
  }

  method AddEnter(v: V.Viterbi, p: Problem, flags: Flags, i: nat, k: nat, i0: int, i1: nat,
                  ghost bits: map<nat, nat>, ghost count: nat, ghost done: seq<set<V.Trans>>, ghost here: set<V.Trans>)
    requires Building(v, p, flags, bits, count, done, here) && i < |p.cells| && k < Pow2(count)
    requires -1 <= i0 < p.width && i1 < p.width && i1 in p.cells[i] && !Overlaps(Offset(flags, i1), k)
    modifies v
    ensures Building(v, p, flags, bits, count, done, here + {Enter(p, flags, i, k, i0, i1)})
  {
    hide V.At, Overlaps, Pow2, FlagsOk, Bit;
    EnterRemembers(p, flags, bits, count, i, k, i0, i1);
    var tr := Enter(p, flags, i, k, i0, i1);
    V.Add(v, tr.from, tr.to, tr.cost, p.Stride() * Pow2(count), done, here);
    assert V.Trans(tr.from, tr.to, tr.cost) == tr;
  }

  method AddLeave(v: V.Viterbi, p: Problem, flags: Flags, i: nat, k: nat, i0: int,
                  ghost bits: map<nat, nat>, ghost count: nat, ghost done: seq<set<V.Trans>>, ghost here: set<V.Trans>)
    requires Building(v, p, flags, bits, count, done, here) && i < |p.cells| && k < Pow2(count) && -1 <= i0 < p.width
    modifies v
    ensures Building(v, p, flags, bits, count, done, here + {Leave(p, k, i0)})
  {
    hide V.At, Pow2, FlagsOk, Bit;
    LeaveRemembers(p, bits, count, i, k, i0);
    var tr := Leave(p, k, i0);
    V.Add(v, tr.from, tr.to, tr.cost, p.Stride() * Pow2(count), done, here);
    assert V.Trans(tr.from, tr.to, tr.cost) == tr;
  }

  /** The transitions into candidate `i1` from history `k`. */
  method AddEnters(v: V.Viterbi, p: Problem, flags: Flags, i: nat, k: nat, i1: nat,
                   ghost bits: map<nat, nat>, ghost count: nat, ghost done: seq<set<V.Trans>>, ghost here: set<V.Trans>)
    requires Building(v, p, flags, bits, count, done, here) && i < |p.cells| && k < Pow2(count)
    requires i1 < p.width && i1 in p.cells[i] && !Overlaps(Offset(flags, i1), k)
    modifies v
    ensures Building(v, p, flags, bits, count, done,
      here + (EntersFrom(p, flags, i, k, i1, p.width) + {Enter(p, flags, i, k, -1, i1)}))
  {
    hide Building, Enter, Overlaps, Pow2;
    ghost var cur := here;
    for i0 := 0 to p.width
      invariant Building(v, p, flags, bits, count, done, cur) && cur == here + EntersFrom(p, flags, i, k, i1, i0)
    {
      if p.WasCandidate(i, i0) && i0 != i1 {
        AddEnter(v, p, flags, i, k, i0, i1, bits, count, done, cur);
        cur := cur + {Enter(p, flags, i, k, i0, i1)};
      }
    }
    AddEnter(v, p, flags, i, k, -1, i1, bits, count, done, cur);
    assert cur + {Enter(p, flags, i, k, -1, i1)} ==
      here + (EntersFrom(p, flags, i, k, i1, p.width) + {Enter(p, flags, i, k, -1, i1)});
  }

  /** All transitions out of history `k`. */
  method AddHistory(v: V.Viterbi, p: Problem, flags: Flags, i: nat, k: nat,
                    ghost bits: map<nat, nat>, ghost count: nat, ghost done: seq<set<V.Trans>>,
                    ghost here: set<V.Trans>)
    requires Building(v, p, flags, bits, count, done, here) && i < |p.cells| && k < Pow2(count)
    modifies v
    ensures Building(v, p, flags, bits, count, done,
                     here + EntersTo(p, flags, i, k, p.width) + Leaves(p, i, k, p.width) + {Leave(p, k, -1)})
  {
    hide Building, Enter, Leave, Overlaps, Pow2, EntersFrom;
    ghost var cur := here;
    for i1 := 0 to p.width
      invariant Building(v, p, flags, bits, count, done, cur) && cur == here + EntersTo(p, flags, i, k, i1)
    {
      if i1 in p.cells[i] && !Overlaps(Offset(flags, i1), k) {
        AddEnters(v, p, flags, i, k, i1, bits, count, done, cur);
        cur := cur + (EntersFrom(p, flags, i, k, i1, p.width) + {Enter(p, flags, i, k, -1, i1)});
      }
    }
    ghost var entered := cur;
    for i0 := 0 to p.width
      invariant Building(v, p, flags, bits, count, done, cur) && cur == entered + Leaves(p, i, k, i0)
    {
      if p.WasCandidate(i, i0) {
        AddLeave(v, p, flags, i, k, i0, bits, count, done, cur);
        cur := cur + {Leave(p, k, i0)};
      }
    }
    AddLeave(v, p, flags, i, k, -1, bits, count, done, cur);
  }

  method AddLayer(v: V.Viterbi, p: Problem, flags: Flags, i: nat, histories: nat, ghost bits: map<nat, nat>,
                  ghost count: nat)
    requires v.Valid() && !v.open && v.trellis.states == p.Stride() * Pow2(count) && FlagsOk(flags, bits, count)
    requires i < |p.cells| && histories == Pow2(count)
    modifies v
    ensures v.Valid() && !v.open && v.trellis.states == p.Stride() * Pow2(count)
    ensures v.layers == old(v.layers) + [Layer(p, flags, i, histories)]
  {
    hide V.Tracks, FlagsOk, Leave, EntersTo, Leaves, Pow2;
    ghost var done := v.layers;
    v.BeginTransitions();
    ghost var cur: set<V.Trans> := {};
    for k := 0 to histories
      invariant Building(v, p, flags, bits, count, done, cur) && cur == Layer(p, flags, i, k)
    {
      AddHistory(v, p, flags, i, k, bits, count, done, cur);
      cur := cur + EntersTo(p, flags, i, k, p.width) + Leaves(p, i, k, p.width) + {Leave(p, k, -1)};
    }
    v.EndTransitions();
  }

  /** Staying unmatched with an empty history is always a full chain. */
  lemma IdleChain(p: Problem, flags: Flags, count: nat)
    ensures V.Reachable(Lattice(p, flags, Pow2(count), |p.cells|))
  {
    hide Layer;
    var layers := Lattice(p, flags, Pow2(count), |p.cells|);
    var idle := Leave(p, 0, -1);
    forall i | 0 <= i < |layers| ensures idle in layers[i] {
      assert CameFrom(p, i, -1) && IsLeave(p, i, 0, idle);
      LayerMembers(p, flags, i, Pow2(count), idle);
    }
    assert V.IsChain(layers, seq(|layers|, _ => idle));
  }

  /** The states of a cheapest chain through the lattice. */
  ghost predicate IsWalk(p: Problem, flags: Flags, bits: map<nat, nat>, count: nat, path: seq<int>) {
    exists c: seq<V.Trans> :: IsHistoryChain(p, flags, bits, count, c) && |c| == |p.cells| == |path|
                              && V.IsCheapest(Lattice(p, flags, Pow2(count), |p.cells|), c)
                              && forall i :: 0 <= i < |c| ==> path[i] == c[i].to
  }

  method CheapestWalk(p: Problem, flags: Flags, power: nat, ghost bits: map<nat, nat>, ghost count: nat)
    returns (path: seq<int>)
    requires FlagsOk(flags, bits, count) && power == Pow2(count)
    ensures IsWalk(p, flags, bits, count, path)
  {
    hide V.Tracks, FlagsOk, Layer, Pow2, V.IsCheapest;
    var v := new V.Viterbi(p.Stride() * power);
    for i := 0 to |p.cells|
      invariant v.Valid() && fresh(v) && !v.open && v.trellis.states == p.Stride() * Pow2(count)
      invariant v.layers == Lattice(p, flags, power, i)
    {
      AddLayer(v, p, flags, i, power, bits, count);
    }
    IdleChain(p, flags, count);
    v.CalculatePath();
    path := if |p.cells| == 0 then [] else v.path;
    WalkOfPath(p, flags, bits, count, path, v.bestCost);
  }

  lemma WalkOfPath(p: Problem, flags: Flags, bits: map<nat, nat>, count: nat, path: seq<int>, best: real)
    requires FlagsOk(flags, bits, count)
    requires if |p.cells| == 0 then path == [] else V.IsBestPath(Lattice(p, flags, Pow2(count), |p.cells|), path, best)
    ensures IsWalk(p, flags, bits, count, path)
  {
    hide FlagsOk, Layer;
    var layers := Lattice(p, flags, Pow2(count), |p.cells|);
    if |p.cells| == 0 {
      assert V.IsChain(layers, []);
      assert IsHistoryChain(p, flags, bits, count, []);
    } else {
      var c: seq<V.Trans> :| V.IsCheapest(layers, c) && |path| == |c| && forall i :: 0 <= i < |c| ==>
        path[i] == c[i].to;
      assert IsHistoryChain(p, flags, bits, count, c);
    }
  }

  /** Columns on a walk: where in the range, and no flagged unit twice. */
  lemma WalkFacts(p: Problem, flags: Flags, bits: map<nat, nat>, count: nat, path: seq<int>)
    requires IsWalk(p, flags, bits, count, path)
    ensures |path| == |p.cells| && forall y :: 0 <= y < |path| ==> path[y] >= 0
    ensures forall y, z, u :: 0 <= y < z < |path| && u in flags && Column(p, path[y]) == u + 1 ==>
      Column(p, path[z]) != u + 1
  {
    hide Column, IsHistoryChain;
    var c: seq<V.Trans> :| IsHistoryChain(p, flags, bits, count, c) && |c| == |p.cells| == |path|
                           && forall i :: 0 <= i < |c| ==> path[i] == c[i].to;
    forall y: nat, z: nat, u: nat | y < z < |path| && u in flags && Column(p, path[y]) == u + 1
      ensures Column(p, path[z]) != u + 1
    {
      FlaggedOnce(p, flags, bits, count, c, y, z, u);
    }
  }

  // ---------------------------------------------------------------------------
  // What the cheapest path is worth

  /** A choice of a candidate, or none (-1), for each position: never the same as for the position before, and no
      flagged unit twice. */
  ghost predicate IsChoice(p: Problem, flags: Flags, ch: seq<int>) {
    && |ch| == |p.cells|
    && (forall i :: 0 <= i < |ch| ==> ch[i] == -1 || (0 <= ch[i] < p.width && ch[i] in p.cells[i]))
    && (forall i :: 0 < i < |ch| && ch[i] != -1 ==> ch[i] != ch[i - 1])
    && (forall i, j :: 0 <= i < j < |ch| && ch[i] in flags ==> ch[j] != ch[i])
  }

  /** The total score of a choice, less the drift wherever a match follows a match. */
  function Gain(p: Problem, ch: seq<int>): real {
    if ch == [] then 0.0
    else
      var i, u := |ch| - 1, ch[|ch| - 1];
      var before := Gain(p, ch[..i]);
      if u < 0 then before
      else if i > 0 && ch[i - 1] >= 0 then before + p.score(i, u) - p.drift(Distance(i, u))
      else before + p.score(i, u)
  }

  /** What the states of a path choose. */
  function Choices(p: Problem, path: seq<int>): (ch: seq<int>)
    ensures |ch| == |path|
  {
    seq(|path|, i requires 0 <= i < |path| => if path[i] < 0 then -1 else Column(p, path[i]) - 1)
  }

  ghost predicate IsBestChoice(p: Problem, flags: Flags, ch: seq<int>) {
    IsChoice(p, flags, ch) && forall other :: IsChoice(p, flags, other) ==> Gain(p, other) <= Gain(p, ch)
  }

  /** A step into a candidate costs its score negated, with the drift added when it comes from another candidate; a
      step to the unmatched state is free. The first layer is entered unmatched. */
  ghost predicate Priced(p: Problem, i: nat, tr: V.Trans) {
    var x, y := Column(p, tr.from), Column(p, tr.to);
    && tr.cost == (if y == 0 then 0.0
                   else if x == 0 then -p.score(i, y - 1)
                   else p.drift(Distance(i, y - 1)) - p.score(i, y - 1))
    && (y > 0 ==> x != y)
    && (i == 0 ==> x == 0)
  }

  lemma EnterPriced(p: Problem, flags: Flags, i: nat, k: nat, i0: int, i1: nat)
    requires CameFrom(p, i, i0) && i1 < p.width && i0 != i1
    ensures Priced(p, i, Enter(p, flags, i, k, i0, i1))
  {
    hide Offset;
    Unpack(k, i0 + 1, p.Stride());
    Unpack(k + Offset(flags, i1), i1 + 1, p.Stride());
  }

  lemma LeavePriced(p: Problem, i: nat, k: nat, i0: int)
    requires CameFrom(p, i, i0)
    ensures Priced(p, i, Leave(p, k, i0))
  {
    Unpack(k, i0 + 1, p.Stride());
    Unpack(k, 0, p.Stride());
  }

  lemma LayerPriced(p: Problem, flags: Flags, i: nat, histories: nat, tr: V.Trans)
    requires i < |p.cells| && tr in Layer(p, flags, i, histories)
    ensures Priced(p, i, tr)
  {
    hide Layer, Overlaps, Enter, Leave, Priced;
    LayerMembers(p, flags, i, histories, tr);
    var k: nat :| k < histories && (IsEnter(p, flags, i, k, tr) || IsLeave(p, i, k, tr));
    if IsEnter(p, flags, i, k, tr) {
      var i0: int, i1: nat :| CameFrom(p, i, i0) && i1 < p.width && i1 in p.cells[i] && i0 != i1
                              && !Overlaps(Offset(flags, i1), k) && tr == Enter(p, flags, i, k, i0, i1);
      EnterPriced(p, flags, i, k, i0, i1);
    } else {
      var i0: int :| CameFrom(p, i, i0) && tr == Leave(p, k, i0);
      LeavePriced(p, i, k, i0);
    }
  }

  function ChainChoices(p: Problem, c: seq<V.Trans>): (ch: seq<int>)
    ensures |ch| == |c|
  {
    seq(|c|, i requires 0 <= i < |c| => Column(p, c[i].to) - 1)
  }

  lemma ChainPriced(p: Problem, flags: Flags, bits: map<nat, nat>, count: nat, c: seq<V.Trans>, i: nat)
    requires IsHistoryChain(p, flags, bits, count, c) && i < |c|
    ensures Priced(p, i, c[i]) && (i > 0 ==> c[i].from == c[i - 1].to)
  {
    hide Layer, Priced;
    assert c[i] in Lattice(p, flags, Pow2(count), |p.cells|)[i];
    LayerPriced(p, flags, i, Pow2(count), c[i]);
  }

  lemma ChainPrefix(p: Problem, flags: Flags, bits: map<nat, nat>, count: nat, c: seq<V.Trans>, n: nat)
    requires IsHistoryChain(p, flags, bits, count, c) && n <= |c|
    ensures IsHistoryChain(p, flags, bits, count, c[..n])
  {
    hide FlagsOk, Layer;
  }

  lemma GainGrows(p: Problem, c: seq<V.Trans>)
    requires c != [] && Priced(p, |c| - 1, c[|c| - 1]) && (|c| > 1 ==> c[|c| - 1].from == c[|c| - 2].to)
    ensures var n := |c| - 1;
            Gain(p, ChainChoices(p, c)) == Gain(p, ChainChoices(p, c[..n])) - c[n].cost
  {
    hide Column;
    var n := |c| - 1;
    assert ChainChoices(p, c)[..n] == ChainChoices(p, c[..n]);
  }

  /** The total cost of a chain is the gain of what it chooses, negated. */
  lemma {:induction false} ChainGain(p: Problem, flags: Flags, bits: map<nat, nat>, count: nat, c: seq<V.Trans>)
    requires IsHistoryChain(p, flags, bits, count, c)
    ensures V.Total(c) == -Gain(p, ChainChoices(p, c))
  {
    hide IsHistoryChain, Gain, Priced;
    if c == [] {
      NothingGained(p);
    } else {
      var n := |c| - 1;
      ChainPriced(p, flags, bits, count, c, n);
      ChainPrefix(p, flags, bits, count, c, n);
      hide ChainChoices;
      ChainGain(p, flags, bits, count, c[..n]);
      GainGrows(p, c);
    }
  }

  lemma NothingGained(p: Problem)
    ensures Gain(p, []) == 0.0
  {
  }

  lemma ChainChooses(p: Problem, flags: Flags, bits: map<nat, nat>, count: nat, c: seq<V.Trans>)
    requires IsHistoryChain(p, flags, bits, count, c) && |c| == |p.cells|
    ensures IsChoice(p, flags, ChainChoices(p, c))
  {
    hide IsHistoryChain, Bit;
    var ch := ChainChoices(p, c);
    forall i | 0 <= i < |ch| ensures ch[i] == -1 || (0 <= ch[i] < p.width && ch[i] in p.cells[i]) {
      ChainStep(p, flags, bits, count, c, i);
    }
    forall i | 0 < i < |ch| && ch[i] != -1 ensures ch[i] != ch[i - 1] {
      ChainPriced(p, flags, bits, count, c, i);
    }
    forall i: nat, j: nat | i < j < |ch| && ch[i] in flags ensures ch[j] != ch[i] {
      FlaggedOnce(p, flags, bits, count, c, i, j, ch[i]);
    }
  }

  // ---------------------------------------------------------------------------
  // Every choice is a chain

  /** The history after the first `n` choices. */
  function Used(flags: Flags, ch: seq<int>, n: nat): nat
    requires n <= |ch|
  {
    if n == 0 then 0 else Used(flags, ch, n - 1) + if ch[n - 1] >= 0 then Offset(flags, ch[n - 1]) else 0
  }

  /** Its bits are those of the flagged units chosen so far. */
  lemma {:induction false} UsedBits(p: Problem, flags: Flags, bits: map<nat, nat>, count: nat, ch: seq<int>, n: nat,
                                    u: nat)
    requires FlagsOk(flags, bits, count) && IsChoice(p, flags, ch) && n <= |ch| && u in flags
    ensures Used(flags, ch, n) < Pow2(count)
    ensures Bit(Used(flags, ch, n), bits[u]) <==> exists i :: 0 <= i < n && ch[i] == u
  {
    hide Bit, Pow2;
    if n == 0 {
      NoBitsInZero(bits[u]);
    } else {
      UsedBits(p, flags, bits, count, ch, n - 1, u);
      var k := Used(flags, ch, n - 1);
      if ch[n - 1] >= 0 && ch[n - 1] in flags {
        var w: nat := ch[n - 1];
        UsedBits(p, flags, bits, count, ch, n - 1, w);
        assert !Bit(k, bits[w]);
        AddSetsBit(k, bits[w], bits[u]);
        AddStaysBelow(k, bits[w], count);
      }
    }
  }

  lemma {:induction false} UsedNone(flags: Flags, ch: seq<int>, n: nat)
    requires n <= |ch| && flags == map[]
    ensures Used(flags, ch, n) == 0
  {
    if n > 0 {
      UsedNone(flags, ch, n - 1);
    }
  }

  lemma UsedFits(p: Problem, flags: Flags, bits: map<nat, nat>, count: nat, ch: seq<int>, n: nat)
    requires FlagsOk(flags, bits, count) && IsChoice(p, flags, ch) && n < |ch|
    ensures Used(flags, ch, n) < Pow2(count)
    ensures ch[n] >= 0 ==> !Overlaps(Offset(flags, ch[n]), Used(flags, ch, n))
  {
    hide Bit, Pow2;
    if flags == map[] {
      UsedNone(flags, ch, n);
    } else {
      var u :| u in flags;
      UsedBits(p, flags, bits, count, ch, n, u);
    }
    if ch[n] >= 0 && ch[n] in flags {
      var w: nat := ch[n];
      UsedBits(p, flags, bits, count, ch, n, w);
      OverlapIsBit(bits[w], Used(flags, ch, n));
    }
  }

  function Before(ch: seq<int>, i: nat): int
    requires i < |ch|
  {
    if i == 0 || ch[i - 1] < 0 then -1 else ch[i - 1]
  }

  /** The step that makes choice `i`. */
  function StepOf(p: Problem, flags: Flags, ch: seq<int>, i: nat): V.Trans
    requires i < |ch|
  {
    var k := Used(flags, ch, i);
    if ch[i] < 0 then Leave(p, k, Before(ch, i)) else Enter(p, flags, i, k, Before(ch, i), ch[i])
  }

  lemma StepInLayer(p: Problem, flags: Flags, bits: map<nat, nat>, count: nat, ch: seq<int>, i: nat)
    requires FlagsOk(flags, bits, count) && IsChoice(p, flags, ch) && i < |ch|
    ensures StepOf(p, flags, ch, i) in Layer(p, flags, i, Pow2(count))
  {
    hide Layer, Overlaps, Pow2, FlagsOk, Enter, Leave;
    var k, tr := Used(flags, ch, i), StepOf(p, flags, ch, i);
    UsedFits(p, flags, bits, count, ch, i);
    assert CameFrom(p, i, Before(ch, i));
    assert if ch[i] < 0 then IsLeave(p, i, k, tr) else IsEnter(p, flags, i, k, tr);
    LayerMembers(p, flags, i, Pow2(count), tr);
  }

  lemma StepEnds(p: Problem, flags: Flags, ch: seq<int>, i: nat)
    requires IsChoice(p, flags, ch) && i < |ch|
    ensures Column(p, StepOf(p, flags, ch, i).to) - 1 == ch[i]
    ensures i + 1 < |ch| ==> StepOf(p, flags, ch, i).to == StepOf(p, flags, ch, i + 1).from
  {
    Unpack(Used(flags, ch, i + 1), ch[i] + 1, p.Stride());
  }

  /** Every choice is what some chain chooses. */
  lemma ChoiceIsChain(p: Problem, flags: Flags, bits: map<nat, nat>, count: nat, ch: seq<int>) returns (c: seq<V.Trans>)
    requires FlagsOk(flags, bits, count) && IsChoice(p, flags, ch)
    ensures IsHistoryChain(p, flags, bits, count, c) && |c| == |p.cells| && ChainChoices(p, c) == ch
  {
    hide Layer, StepOf, FlagsOk, IsChoice;
    c := seq(|ch|, i requires 0 <= i < |ch| => StepOf(p, flags, ch, i));
    assert |ch| == |p.cells| by { ChoiceLength(p, flags, ch); }
    forall i | 0 <= i < |c|
      ensures c[i] in Layer(p, flags, i, Pow2(count)) && Column(p, c[i].to) - 1 == ch[i]
      ensures i + 1 < |c| ==> c[i].to == c[i + 1].from
    {
      StepInLayer(p, flags, bits, count, ch, i);
      StepEnds(p, flags, ch, i);
    }
  }

  lemma ChoiceLength(p: Problem, flags: Flags, ch: seq<int>)
    requires IsChoice(p, flags, ch)
    ensures |ch| == |p.cells|
  {
  }

  /** A cheapest path chooses best. */
  lemma WalkIsBest(p: Problem, flags: Flags, bits: map<nat, nat>, count: nat, path: seq<int>)
    requires FlagsOk(flags, bits, count) && IsWalk(p, flags, bits, count, path)
    ensures IsBestChoice(p, flags, Choices(p, path))
  {
    hide IsHistoryChain, FlagsOk, IsChoice, Gain, Column, V.IsCheapest, Lattice, Choices;
    var c: seq<V.Trans> :| IsHistoryChain(p, flags, bits, count, c) && |c| == |p.cells| == |path|
                           && V.IsCheapest(Lattice(p, flags, Pow2(count), |p.cells|), c)
                           && forall i :: 0 <= i < |c| ==> path[i] == c[i].to;
    PathChoices(p, path, c);
    ChainChooses(p, flags, bits, count, c);
    forall other | IsChoice(p, flags, other) ensures Gain(p, other) <= Gain(p, ChainChoices(p, c)) {
      ChainBeats(p, flags, bits, count, c, other);
    }
  }

  lemma PathChoices(p: Problem, path: seq<int>, c: seq<V.Trans>)
    requires |path| == |c| && forall i :: 0 <= i < |c| ==> path[i] == c[i].to
    ensures Choices(p, path) == ChainChoices(p, c)
  {
    hide Column;
  }

  lemma ChainBeats(p: Problem, flags: Flags, bits: map<nat, nat>, count: nat, c: seq<V.Trans>, other: seq<int>)
    requires FlagsOk(flags, bits, count) && IsHistoryChain(p, flags, bits, count, c)
    requires V.IsCheapest(Lattice(p, flags, Pow2(count), |p.cells|), c) && IsChoice(p, flags, other)
    ensures Gain(p, other) <= Gain(p, ChainChoices(p, c))
  {
    hide *;
    var d := ChoiceIsChain(p, flags, bits, count, other);
    ChainGain(p, flags, bits, count, c);
    ChainGain(p, flags, bits, count, d);
    Undercuts(p, flags, bits, count, c, d);
  }

  lemma Undercuts(p: Problem, flags: Flags, bits: map<nat, nat>, count: nat, c: seq<V.Trans>, d: seq<V.Trans>)
    requires V.IsCheapest(Lattice(p, flags, Pow2(count), |p.cells|), c)
    requires IsHistoryChain(p, flags, bits, count, d) && |d| == |p.cells|
    ensures V.Total(c) <= V.Total(d)
  {
  }
}
