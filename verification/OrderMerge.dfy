/** The order merge itself (src/libcoopy_core/OrderMerge.cpp, `merge`): index the unplaced units,
    build a lattice over them, take its cheapest path, keep a duplicate-free prefix, repeat. */
module OrderMerge {
  import opened Common
  import opened MatchUnits
  import opened OrderLattice
  import opened UnitLists
  import V = Viterbi

  // ---------------------------------------------------------------------------
  // Indexing

  /** What the loop collects about one column: `l2k`, `availableL` and `lowestL`, say. */
  datatype ColumnIndex = ColumnIndex(toK: map<int, nat>, available: set<int>, lowest: int) {
    ghost predicate Covers(keys: seq<int>) {
      MapsColumn(toK, keys) && available == Available(keys) && lowest == Lowest(keys)
    }

    function Enter(key: int, ct: nat): ColumnIndex {
      ColumnIndex(if key >= 0 then toK[key := ct] else toK,
                  if key != -1 then available + {key} else available,
                  Lower(lowest, key))
    }
  }

  datatype Index = Index(units: seq<MatchUnit>, l: ColumnIndex, r: ColumnIndex, p: ColumnIndex, it2k: map<int, nat>) {
    ghost predicate Covers() {
      l.Covers(Locals(units)) && r.Covers(Remotes(units)) && p.Covers(Pivots(units))
    }

    /** One pass of the indexing loop over a unit that is not deleted. */
    function Enter(at: nat, u: MatchUnit): Index {
      var ct := |units|;
      Index(units + [u], l.Enter(u.local, ct), r.Enter(u.remote, ct), p.Enter(u.pivot, ct), it2k[at := ct])
    }
  }

  function SafeNext(m: map<int, nat>, v: int, def: nat): nat {
    if v in m then m[v] else def
  }

  ghost predicate MapsColumn(m: map<int, nat>, keys: seq<int>) {
    forall v :: SafeNext(m, v, |keys|) == Find(keys, v) && (v in m ==> m[v] < |keys|)
  }

  function Lower(low: int, key: int): int {
    if (key < low && key >= 0) || low == -2 then key else low
  }

  lemma AvailableGrows(keys: seq<int>, key: int)
    ensures Available(keys + [key]) == Available(keys) + if key != -1 then {key} else {}
  {
    var longer := keys + [key];
    forall v | v in Available(keys) + (if key != -1 then {key} else {}) ensures v in Available(longer) {
      if v in Available(keys) {
        var i :| 0 <= i < |keys| && keys[i] == v && v != -1;
        assert longer[i] == v;
      } else {
        assert longer[|keys|] == v;
      }
    }
  }

  lemma {:induction false} FindFromGrows(keys: seq<int>, key: int, v: int, n: nat)
    requires n <= |keys|
    ensures FindFrom(keys + [key], v, n) == if FindFrom(keys, v, n) == |keys| then |keys| + 1 else FindFrom(keys, v, n)
  {
    if n > 0 {
      FindFromGrows(keys, key, v, n - 1);
    }
  }

  lemma MapGrows(m: map<int, nat>, keys: seq<int>, key: int)
    requires MapsColumn(m, keys)
    ensures MapsColumn(if key >= 0 then m[key := |keys|] else m, keys + [key])
  {
    var m' := if key >= 0 then m[key := |keys|] else m;
    forall v ensures SafeNext(m', v, |keys| + 1) == Find(keys + [key], v) && (v in m' ==> m'[v] < |keys| + 1) {
      assert SafeNext(m, v, |keys|) == Find(keys, v) && (v in m ==> m[v] < |keys|);
      FindFromGrows(keys, key, v, |keys|);
    }
  }

  lemma ColumnEnter(c: ColumnIndex, keys: seq<int>, key: int)
    requires c.Covers(keys)
    ensures c.Enter(key, |keys|).Covers(keys + [key])
  {
    AvailableGrows(keys, key);
    MapGrows(c.toK, keys, key);
    assert (keys + [key])[..|keys|] == keys;
  }

  lemma IndexEnter(ix: Index, at: nat, u: MatchUnit)
    requires ix.Covers()
    ensures var more := ix.Enter(at, u);
            more.Covers() && more.units == ix.units + [u] && more.it2k == ix.it2k[at := |ix.units|]
  {
    ColumnEnter(ix.l, Locals(ix.units), u.local);
    ColumnEnter(ix.r, Remotes(ix.units), u.remote);
    ColumnEnter(ix.p, Pivots(ix.units), u.pivot);
    var more := ix.units + [u];
    assert Locals(more) == Locals(ix.units) + [u.local];
    assert Remotes(more) == Remotes(ix.units) + [u.remote];
    assert Pivots(more) == Pivots(ix.units) + [u.pivot];
  }

  lemma EmptyIndex()
    ensures var none := ColumnIndex(map[], {}, -2);
            Index([], none, none, none, map[]).Covers() && Live([]) == [] && Ranks([]) == map[]
  {
  }

  method IndexUnits(source: seq<MatchUnit>) returns (ix: Index)
    ensures ix.Covers() && ix.units == Live(source) && ix.it2k == Ranks(source)
  {
    hide *;
    var none := ColumnIndex(map[], {}, -2);
    ix := Index([], none, none, none, map[]);
    EmptyIndex();
    ghost var seen: seq<MatchUnit> := [];
    for i := 0 to |source|
      invariant seen == source[..i]
      invariant ix.Covers() && ix.units == Live(seen) && ix.it2k == Ranks(seen)
    {
      var u := source[i];
      LiveGrows(seen, u);
      if !u.deleted {
        IndexEnter(ix, i, u);
        ix := ix.Enter(i, u);
      }
      seen := seen + [u];
    }
    assert seen == source;
  }

  // ---------------------------------------------------------------------------
  // Building the lattice

  function Steps(units: seq<MatchUnit>, k: nat): set<V.Trans>
    requires k < |units|
  {
    set t | t in Targets(units, k) :: V.Trans(k, t, 0.0)
  }

  lemma NextIsLookup(c: ColumnIndex, keys: seq<int>, k: nat)
    requires c.Covers(keys) && k < |keys|
    ensures SafeNext(c.toK, NextAvail(c.available, keys[k]), |keys|) == Next(keys, k)
  {
  }

  lemma StartIsLookup(c: ColumnIndex, keys: seq<int>)
    requires c.Covers(keys) && c.lowest >= 0
    ensures Start(keys) == {SafeNext(c.toK, c.lowest, 0)} && SafeNext(c.toK, c.lowest, 0) < |keys|
  {
    StartsInRange(keys);
    assert SafeNext(c.toK, c.lowest, |keys|) == Find(keys, c.lowest);
  }

  /** The free transitions from `k` to all of `ts`. */
  function StepsTo(k: nat, ts: set<nat>): set<V.Trans> {
    set t | t in ts :: V.Trans(k, t, 0.0)
  }

  lemma StepsToMore(k: nat, ts: set<nat>, t: nat)
    ensures StepsTo(k, ts + {t}) == StepsTo(k, ts) + {V.Trans(k, t, 0.0)} && StepsTo(k, {}) == {}
  {
  }

  lemma StepsAreTargets(units: seq<MatchUnit>, k: nat)
    requires k < |units|
    ensures Steps(units, k) == StepsTo(k, Targets(units, k))
  {
    hide Targets;
  }

  /** Adding one transition and its target. */
  method DrawTo(v: V.Viterbi, k: nat, next: nat, targets0: set<nat>, ghost states: nat, ghost done: seq<set<V.Trans>>,
                ghost here: set<V.Trans>)
    returns (targets: set<nat>)
    requires V.At(v, states, done, here + StepsTo(k, targets0)) && k < states && next < states
    modifies v
    ensures targets == targets0 + {next} && V.At(v, states, done, here + StepsTo(k, targets))
  {
    hide V.At, StepsTo;
    V.Add(v, k, next, 0.0, states, done, here + StepsTo(k, targets0));
    targets := targets0 + {next};
    StepsToMore(k, targets0, next);
    assert here + StepsTo(k, targets0) + {V.Trans(k, next, 0.0)} == here + StepsTo(k, targets);
  }

  /** The units after `k` on each side, by lookup. */
  method NextUnits(ix: Index, k: nat) returns (lnext: nat, rnext: nat, pnext: nat)
    requires ix.Covers() && k < |ix.units|
    ensures lnext == Next(Locals(ix.units), k) && rnext == Next(Remotes(ix.units), k)
    ensures pnext == Next(Pivots(ix.units), k)
  {
    NextIsLookup(ix.p, Pivots(ix.units), k);
    NextIsLookup(ix.l, Locals(ix.units), k);
    NextIsLookup(ix.r, Remotes(ix.units), k);
    hide Next, NextAvail, ColumnIndex.Covers;
    var u, dud := ix.units[k], |ix.units|;
    pnext := SafeNext(ix.p.toK, NextAvail(ix.p.available, u.pivot), dud);
    lnext := SafeNext(ix.l.toK, NextAvail(ix.l.available, u.local), dud);
    rnext := SafeNext(ix.r.toK, NextAvail(ix.r.available, u.remote), dud);
  }

  /** The transitions out of unit `k`. */
  method DrawFrom(v: V.Viterbi, ix: Index, k: nat, ghost done: seq<set<V.Trans>>, ghost here: set<V.Trans>)
    returns (targets: set<nat>)
    requires ix.Covers() && k < |ix.units| && V.At(v, |ix.units| + 1, done, here)
    modifies v
    ensures targets == Targets(ix.units, k)
    ensures V.At(v, |ix.units| + 1, done, here + Steps(ix.units, k))
  {
    hide *;
    var u, dud := ix.units[k], |ix.units|;
    var lnext, rnext, pnext := NextUnits(ix, k);
    TargetsFollow(ix.units, k, lnext, rnext, pnext);
    StepsAreTargets(ix.units, k);
    targets := {};
    StepsToMore(k, {}, 0);
    assert here + StepsTo(k, {}) == here;
    if u.local == -1 && u.remote == -1 {
      targets := DrawTo(v, k, pnext, targets, dud + 1, done, here);
    } else if u.remote == -1 {
      targets := DrawTo(v, k, lnext, targets, dud + 1, done, here);
    } else if u.local == -1 {
      targets := DrawTo(v, k, rnext, targets, dud + 1, done, here);
    } else {
      if lnext != pnext {
        targets := DrawTo(v, k, lnext, targets, dud + 1, done, here);
      }
      if rnext != pnext {
        targets := DrawTo(v, k, rnext, targets, dud + 1, done, here);
      }
      if rnext == pnext && lnext == pnext {
        targets := DrawTo(v, k, pnext, targets, dud + 1, done, here);
      }
    }
  }

  lemma TargetsFollow(units: seq<MatchUnit>, k: nat, l: nat, r: nat, p: nat)
    requires k < |units| && l == Next(Locals(units), k) && r == Next(Remotes(units), k) && p == Next(Pivots(units), k)
    ensures l <= |units| && r <= |units| && p <= |units|
    ensures Targets(units, k) ==
      if units[k].local == -1 && units[k].remote == -1 then {p}
      else if units[k].remote == -1 then {l}
      else if units[k].local == -1 then {r}
      else (if l != p then {l} else {}) + (if r != p then {r} else {}) + if r == p && l == p then {p} else {}
  {
  }

  function StepsFrom(units: seq<MatchUnit>, idx: set<nat>, m: nat): set<V.Trans>
    requires m <= |units|
  {
    set k, t | k in idx && k < m && t in Targets(units, k) :: V.Trans(k, t, 0.0)
  }

  function TargetsFrom(units: seq<MatchUnit>, idx: set<nat>, m: nat): set<nat>
    requires m <= |units|
  {
    set k, t | k in idx && k < m && t in Targets(units, k) :: t
  }

  lemma StepsGrow(units: seq<MatchUnit>, idx: set<nat>, m: nat)
    requires m < |units|
    ensures StepsFrom(units, idx, m + 1) == StepsFrom(units, idx, m) + if m in idx then Steps(units, m) else {}
    ensures TargetsFrom(units, idx, m + 1) == TargetsFrom(units, idx, m) + if m in idx then Targets(units, m) else {}
  {
  }

  /** One middle layer: the steps out of every drawn unit, and the dud's toll. */
  method AddDrawLayer(v: V.Viterbi, ix: Index, idx: set<nat>) returns (idx2: set<nat>)
    requires ix.Covers() && v.Valid() && !v.open && v.trellis.states == |ix.units| + 1
    modifies v
    ensures v.Valid() && !v.open && v.trellis.states == |ix.units| + 1
    ensures idx2 == TargetsFrom(ix.units, idx, |ix.units|)
    ensures v.layers == old(v.layers)
                        + [StepsFrom(ix.units, idx, |ix.units|) + {V.Trans(|ix.units|, |ix.units|, 1.0)}]
  {
    var dud := |ix.units|;
    ghost var done := v.layers;
    v.BeginTransitions();
    idx2 := {};
    ghost var cur: set<V.Trans> := {};
    for k := 0 to dud
      invariant V.At(v, dud + 1, done, cur)
      invariant cur == StepsFrom(ix.units, idx, k) && idx2 == TargetsFrom(ix.units, idx, k)
    {
      StepsGrow(ix.units, idx, k);
      if k in idx {
        var targets := DrawFrom(v, ix, k, done, cur);
        cur := cur + Steps(ix.units, k);
        idx2 := idx2 + targets;
      }
    }
    V.Add(v, dud, dud, 1.0, dud + 1, done, cur);
    v.EndTransitions();
  }

  method AddFirstLayer(v: V.Viterbi, ix: Index) returns (idx: set<nat>)
    requires ix.Covers() && v.Valid() && !v.open && v.layers == [] && v.trellis.states == |ix.units| + 1
    modifies v
    ensures v.Valid() && !v.open && v.trellis.states == |ix.units| + 1
    ensures idx == Reach(ix.units, 0) && v.layers == [FirstLayer(ix.units)]
  {
    hide V.Tracks, MapsColumn, Start, Lowest, Available;
    var dud := |ix.units|;
    v.BeginTransitions();
    idx := {};
    ghost var cur: set<V.Trans> := {};
    if ix.l.lowest >= 0 {
      StartIsLookup(ix.l, Locals(ix.units));
      var k := SafeNext(ix.l.toK, ix.l.lowest, 0);
      V.Add(v, k, k, 0.0, dud + 1, [], cur);
      cur := cur + {V.Trans(k, k, 0.0)};
      idx := idx + {k};
    } else {
      NoStart(Locals(ix.units));
    }
    if ix.r.lowest >= 0 {
      StartIsLookup(ix.r, Remotes(ix.units));
      var k := SafeNext(ix.r.toK, ix.r.lowest, 0);
      V.Add(v, k, k, 0.0, dud + 1, [], cur);
      cur := cur + {V.Trans(k, k, 0.0)};
      idx := idx + {k};
    } else {
      NoStart(Remotes(ix.units));
    }
    V.Add(v, dud, dud, 1.0, dud + 1, [], cur);
    v.EndTransitions();
    assert idx == Start(Locals(ix.units)) + Start(Remotes(ix.units));
    assert cur == set k | k in idx :: V.Trans(k, k, 0.0);
  }

  lemma NoStart(keys: seq<int>)
    requires Lowest(keys) < 0
    ensures Start(keys) == {}
  {
  }

  method AddLastLayer(v: V.Viterbi, n: nat)
    requires v.Valid() && !v.open && v.trellis.states == n + 1
    modifies v
    ensures v.Valid() && !v.open && v.layers == old(v.layers) + [LastLayer(n)]
  {
    ghost var done := v.layers;
    v.BeginTransitions();
    ghost var cur: set<V.Trans> := {};
    for k := 0 to n + 1
      invariant V.At(v, n + 1, done, cur)
      invariant cur == (set j: nat | 0 <= j < k && j < n :: V.Trans(j, j, 0.0)) +
                       if k > n then {V.Trans(n, n, 1.0)} else {}
    {
      var c := if k == n then 1.0 else 0.0;
      V.Add(v, k, k, c, n + 1, done, cur);
      cur := cur + {V.Trans(k, k, c)};
    }
    v.EndTransitions();
    assert cur == LastLayer(n);
  }

  lemma DrawnLayer(units: seq<MatchUnit>, d: nat)
    ensures StepsFrom(units, Reach(units, d), |units|) + {V.Trans(|units|, |units|, 1.0)} == DrawLayer(units, d + 1)
    ensures TargetsFrom(units, Reach(units, d), |units|) == Reach(units, d + 1)
  {
  }

  /** The whole lattice of a round. */
  method BuildLattice(ix: Index) returns (v: V.Viterbi)
    requires ix.Covers()
    ensures fresh(v) && v.Valid() && v.layers == Layers(ix.units)
  {
    var n := |ix.units|;
    v := new V.Viterbi(n + 1);
    var idx := AddFirstLayer(v, ix);
    var draw := 0;
    while draw < n - 1
      invariant 0 <= draw <= if n == 0 then 0 else n - 1
      invariant v.Valid() && !v.open && v.trellis.states == n + 1 && idx == Reach(ix.units, draw)
      invariant v.layers == FirstLayers(ix.units, draw)
    {
      DrawnLayer(ix.units, draw);
      idx := AddDrawLayer(v, ix, idx);
      draw := draw + 1;
    }
    AddLastLayer(v, n);
  }

  /** Waiting at the dud is always a full chain. */
  lemma DudChain(units: seq<MatchUnit>)
    ensures V.Reachable(Layers(units))
  {
    var layers, dud := Layers(units), V.Trans(|units|, |units|, 1.0);
    var c := seq(|layers|, _ => dud);
    assert forall i :: 0 <= i < |layers| ==> dud in layers[i];
    assert V.IsChain(layers, c);
  }

  // ---------------------------------------------------------------------------
  // Accepting a prefix of the path

  /** The test that ends acceptance at step `i`: this state or the next is the dud or already taken. */
  ghost predicate Blocked(path: seq<int>, q: nat, dud: int, i: nat)
    requires i < q <= |path|
  {
    || path[i] == dud || path[i] in path[..i]
    || (i < q - 1 && (path[i + 1] == dud || path[i + 1] in path[..i]))
  }

  /** `ks` is the longest unblocked prefix of the path, `good` whether that is all of it. */
  ghost predicate Accepted(path: seq<int>, q: nat, dud: nat, ks: seq<nat>, good: bool)
    requires q <= |path|
  {
    && |ks| <= q && (forall i :: 0 <= i < |ks| ==> ks[i] == path[i] < dud) && Distinct(ks)
    && (forall i :: 0 <= i < |ks| ==> !Blocked(path, q, dud, i))
    && (good <==> |ks| == q) && (!good ==> Blocked(path, q, dud, |ks|))
  }

  method Accept(path: seq<int>, q: nat, dud: nat) returns (ks: seq<nat>, good: bool)
    requires q <= |path| && forall i :: 0 <= i < q ==> 0 <= path[i] <= dud
    ensures Accepted(path, q, dud, ks, good)
  {
    var dups: set<int> := {dud};
    ks, good := [], true;
    var i := 0;
    while i < q
      invariant 0 <= i <= q && i == |ks| && good
      invariant forall j :: 0 <= j < i ==> ks[j] == path[j] < dud
      invariant Distinct(ks)
      invariant forall k :: k in dups <==> k == dud || k in path[..i]
      invariant forall j :: 0 <= j < i ==> !Blocked(path, q, dud, j)
    {
      var k := path[i];
      var k2 := if i < q - 1 then path[i + 1] else k;
      if k !in dups && k2 !in dups {
        assert forall j :: 0 <= j < i ==> path[j] in path[..i];
        ks := ks + [k];
        dups := dups + {k};
        assert path[..i + 1] == path[..i] + [k];
      } else {
        good := false;
        break;
      }
      i := i + 1;
    }
  }

  /** The list carried to the next round: live units that were not accepted. */
  method Remainder(source: seq<MatchUnit>, it2k: map<int, nat>, accepted: set<nat>) returns (rest: seq<MatchUnit>)
    requires it2k == Ranks(source)
    ensures rest == Keep(Live(source), accepted, |Live(source)|)
  {
    hide *;
    rest := [];
    EmptyIndex();
    KeepNone(accepted);
    ghost var seen: seq<MatchUnit> := [];
    ghost var live: seq<MatchUnit> := [];
    for i := 0 to |source|
      invariant seen == source[..i] && live == Live(seen)
      invariant rest == Keep(live, accepted, |live|)
    {
      LiveGrows(seen, source[i]);
      RankAt(source, i);
      if i in it2k {
        KeepGrows(live, accepted, source[i]);
        live := live + [source[i]];
        if it2k[i] !in accepted {
          rest := rest + [source[i]];
        }
      }
      seen := seen + [source[i]];
    }
    assert seen == source;
  }

  // ---------------------------------------------------------------------------
  // One round

  /** `path` is a cheapest path through the lattice over `units` and `ks` its longest unblocked prefix. */
  ghost predicate IsPrefixOf(units: seq<MatchUnit>, path: seq<int>, best: real, ks: seq<nat>, good: bool) {
    V.IsBestPath(Layers(units), path, best) && |path| > 0 && Accepted(path, |path| - 1, |units|, ks, good)
  }

  ghost predicate FromCheapest(units: seq<MatchUnit>, ks: seq<nat>) {
    exists path: seq<int>, best: real, good: bool :: IsPrefixOf(units, path, best, ks, good)
  }

  /** The outcome of a round over `units`: the accepted prefix of a cheapest path is placed, a chain of steps, and
      the rest is kept in list order. */
  ghost predicate IsRound(units: seq<MatchUnit>, ks: seq<nat>, placed: seq<MatchUnit>, rest: seq<MatchUnit>) {
    && Distinct(ks) && (forall i :: 0 <= i < |ks| ==> ks[i] < |units|)
    && (forall i :: 0 <= i < |ks| - 1 ==> ks[i + 1] in Targets(units, ks[i]))
    && placed == Pick(units, ks) && rest == Keep(units, Taken(ks), |units|)
    && FromCheapest(units, ks)
  }

  ghost predicate ClimbsRemote(units: seq<MatchUnit>) {
    forall i, j :: 0 <= i < j < |units| ==> units[i].remote < units[j].remote
  }

  ghost predicate ClimbsLocal(units: seq<MatchUnit>) {
    forall i, j :: 0 <= i < j < |units| ==> units[i].local < units[j].local
  }

  /** The local side only deleted: its column ranks units as the pivot does, and every unit is on the remote side. */
  ghost predicate RemoteLeads(units: seq<MatchUnit>) {
    Separate(units) && IsFull(Remotes(units)) && SameRanking(Locals(units), Pivots(units))
  }

  ghost predicate LocalLeads(units: seq<MatchUnit>) {
    Separate(units) && IsFull(Locals(units)) && SameRanking(Remotes(units), Pivots(units))
  }

  /** What the merge relies on about the path it is given. */
  ghost predicate IsWalk(units: seq<MatchUnit>, path: seq<int>) {
    && |path| == |units| + (if units == [] then 2 else 1)
    && (forall i :: 0 <= i < |path| ==> 0 <= path[i] <= |units|)
    && (forall i :: 0 <= i < |units| - 1 && path[i] < |units| ==> path[i + 1] in Targets(units, path[i]))
  }

  method CheapestWalk(ix: Index) returns (path: seq<int>, ghost best: real)
    requires ix.Covers()
    ensures IsWalk(ix.units, path) && V.IsBestPath(Layers(ix.units), path, best)
    ensures ix.units != [] && RemoteLeads(ix.units) ==> Increasing(Remotes(ix.units), path[..|ix.units|])
    ensures ix.units != [] && LocalLeads(ix.units) ==> Increasing(Locals(ix.units), path[..|ix.units|])
  {
    var v := BuildLattice(ix);
    DudChain(ix.units);
    v.CalculatePath();
    path, best := v.path, v.bestCost;
    PathSteps(ix.units, path, v.bestCost);
    if ix.units != [] && RemoteLeads(ix.units) {
      RemoteDecides(ix.units);
      DecidedPath(Layers(ix.units), Remotes(ix.units), path, v.bestCost);
    }
    if ix.units != [] && LocalLeads(ix.units) {
      LocalDecides(ix.units);
      DecidedPath(Layers(ix.units), Locals(ix.units), path, v.bestCost);
    }
  }

  method Round(source: seq<MatchUnit>)
    returns (placed: seq<MatchUnit>, rest: seq<MatchUnit>, good: bool, ghost ks: seq<nat>)
    ensures IsRound(Live(source), ks, placed, rest)
    ensures good ==> rest == []
    ensures Live(source) != [] && RemoteLeads(Live(source)) ==> good && ClimbsRemote(placed)
    ensures Live(source) != [] && LocalLeads(Live(source)) ==> good && ClimbsLocal(placed)
  {
    hide RemoteLeads, LocalLeads, IsRound, Accepted, Live, Keep, Ranks, MapsColumn, Targets, V.IsBestPath;
    var ix := IndexUnits(source);
    var path, best := CheapestWalk(ix);
    var accepted: seq<nat>;
    accepted, good := Accept(path, |path| - 1, |ix.units|);
    ks := accepted;
    RoundIsSound(ix.units, path, best, ks, good);
    if ix.units != [] && RemoteLeads(ix.units) {
      ClimbIsAccepted(Remotes(ix.units), path, ks, good);
      assert ClimbsRemote(Pick(ix.units, ks));
    }
    if ix.units != [] && LocalLeads(ix.units) {
      ClimbIsAccepted(Locals(ix.units), path, ks, good);
      assert ClimbsLocal(Pick(ix.units, ks));
    }
    placed := Pick(ix.units, accepted);
    rest := Remainder(source, ix.it2k, set k | k in accepted);
    assert (set k | k in accepted) == Taken(ks);
  }

  /** What is accepted are steps of the lattice. */
  lemma AcceptedSteps(units: seq<MatchUnit>, path: seq<int>, ks: seq<nat>, good: bool)
    requires IsWalk(units, path) && Accepted(path, |path| - 1, |units|, ks, good)
    ensures Distinct(ks) && forall i :: 0 <= i < |ks| ==> ks[i] < |units|
    ensures forall i :: 0 <= i < |ks| - 1 ==> ks[i + 1] in Targets(units, ks[i])
    ensures good ==> |ks| == |units|
  {
    hide Targets, Blocked;
    if units == [] {
      assert path[0] == |units|;
    }
    forall i | 0 <= i < |ks| - 1 ensures ks[i + 1] in Targets(units, ks[i]) {
      assert ks[i] == path[i] && ks[i + 1] == path[i + 1];
    }
  }

  /** Accepting all of the path leaves nothing over. */
  lemma NothingOver(units: seq<MatchUnit>, ks: seq<nat>)
    requires Distinct(ks) && |ks| == |units| && forall i :: 0 <= i < |ks| ==> ks[i] < |units|
    ensures Keep(units, Taken(ks), |units|) == []
  {
    PickAndKeep(units, ks);
  }

  lemma RoundIsSound(units: seq<MatchUnit>, path: seq<int>, best: real, ks: seq<nat>, good: bool)
    requires IsWalk(units, path) && V.IsBestPath(Layers(units), path, best)
      && Accepted(path, |path| - 1, |units|, ks, good)
    ensures (forall i :: 0 <= i < |ks| ==> ks[i] < |units|)
            && IsRound(units, ks, Pick(units, ks), Keep(units, Taken(ks), |units|))
    ensures good ==> Keep(units, Taken(ks), |units|) == []
  {
    WalkIsLong(units, path);
    hide *;
    AcceptedSteps(units, path, ks, good);
    PrefixIsCheapest(units, path, best, ks, good);
    ChainIsRound(units, ks);
    if good {
      NothingOver(units, ks);
    }
  }

  lemma WalkIsLong(units: seq<MatchUnit>, path: seq<int>)
    requires IsWalk(units, path)
    ensures |path| > 0
  {
    hide Targets;
  }

  lemma PrefixIsCheapest(units: seq<MatchUnit>, path: seq<int>, best: real, ks: seq<nat>, good: bool)
    requires V.IsBestPath(Layers(units), path, best) && |path| > 0 && Accepted(path, |path| - 1, |units|, ks, good)
    ensures FromCheapest(units, ks)
  {
    hide V.IsBestPath, Layers, Accepted;
    assert IsPrefixOf(units, path, best, ks, good);
  }

  lemma ChainIsRound(units: seq<MatchUnit>, ks: seq<nat>)
    requires Distinct(ks) && FromCheapest(units, ks) && forall i :: 0 <= i < |ks| ==> ks[i] < |units|
    requires forall i :: 0 <= i < |ks| - 1 ==> ks[i + 1] in Targets(units, ks[i])
    ensures IsRound(units, ks, Pick(units, ks), Keep(units, Taken(ks), |units|))
  {
    hide FromCheapest, Targets, Keep, Taken, Distinct;
  }

  /** A path that climbs a column never revisits a unit, so all of it is accepted. */
  lemma ClimbIsAccepted(keys: seq<int>, path: seq<int>, ks: seq<nat>, good: bool)
    requires |path| == |keys| + 1 && Increasing(keys, path[..|keys|]) && Accepted(path, |keys|, |keys|, ks, good)
    ensures good && Increasing(keys, ks)
  {
    var q := |keys|;
    assert forall i :: 0 <= i < q ==> path[..q][i] == path[i];
    if !good {
      ClimbIsUnblocked(keys, path, |ks|);
    }
  }

  lemma ClimbIsUnblocked(keys: seq<int>, path: seq<int>, i: nat)
    requires |path| == |keys| + 1 && Increasing(keys, path[..|keys|]) && i < |keys|
    ensures !Blocked(path, |keys|, |keys|, i)
  {
    assert forall j :: 0 <= j < |keys| ==> path[..|keys|][j] == path[j];
  }

  // ---------------------------------------------------------------------------
  // The retry loop

  /** No two units share a number on any side, and each is on the local or the remote side. */
  ghost predicate Coherent(units: seq<MatchUnit>) {
    && Distinct(units)
    && (forall u :: u in units ==> u.local >= -1 && u.remote >= -1 && u.pivot >= -1 && !u.deleted
                                   && (u.local != -1 || u.remote != -1))
    && (forall u, v :: u in units && v in units && u.local == v.local != -1 ==> u == v)
    && (forall u, v :: u in units && v in units && u.remote == v.remote != -1 ==> u == v)
    && (forall u, v :: u in units && v in units && u.pivot == v.pivot != -1 ==> u == v)
  }

  lemma CoherentIsSeparate(units: seq<MatchUnit>)
    requires Coherent(units)
    ensures Separate(units) && HaveSides(units)
  {
    forall i | 0 <= i < |units| ensures units[i] in units {
    }
  }

  lemma KeepIsCoherent(units: seq<MatchUnit>, taken: set<nat>)
    requires Coherent(units)
    ensures Coherent(Keep(units, taken, |units|))
  {
    KeepMembers(units, taken, |units|);
    assert units[..|units|] == units;
  }

  datatype RoundLog = RoundLog(units: seq<MatchUnit>, ks: seq<nat>)

  /** The rounds, in order, took `start` apart into the placed list `canon` and what is left. */
  ghost predicate Logged(rounds: seq<RoundLog>, start: seq<MatchUnit>, canon: seq<MatchUnit>, rest: seq<MatchUnit>) {
    if rounds == [] then canon == [] && rest == start
    else
      var last := rounds[|rounds| - 1];
      exists placed :: |placed| <= |canon| && canon[|canon| - |placed|..] == placed
        && IsRound(last.units, last.ks, placed, rest)
        && Logged(rounds[..|rounds| - 1], start, canon[..|canon| - |placed|], last.units)
  }

  /** Units accepted together are immediate local or remote successors among those still unplaced. */
  ghost predicate StepsAreSuccessors(log: RoundLog) {
    && (forall i :: 0 <= i < |log.ks| ==> log.ks[i] < |log.units|)
    && (forall i :: 0 <= i < |log.ks| - 1 ==> IsSuccessor(log.units, log.ks[i], log.ks[i + 1]))
  }

  lemma RoundSteps(units: seq<MatchUnit>, ks: seq<nat>, placed: seq<MatchUnit>, rest: seq<MatchUnit>)
    requires Coherent(units) && IsRound(units, ks, placed, rest)
    ensures StepsAreSuccessors(RoundLog(units, ks))
  {
    hide FromCheapest;
    CoherentIsSeparate(units);
    forall i | 0 <= i < |ks| - 1 ensures IsSuccessor(units, ks[i], ks[i + 1]) {
      TargetsAreSuccessors(units, ks[i], ks[i + 1]);
    }
  }

  lemma LogRound(rounds: seq<RoundLog>, start: seq<MatchUnit>, canon: seq<MatchUnit>, units: seq<MatchUnit>,
                 ks: seq<nat>, placed: seq<MatchUnit>, rest: seq<MatchUnit>)
    requires Logged(rounds, start, canon, units) && IsRound(units, ks, placed, rest)
    ensures Logged(rounds + [RoundLog(units, ks)], start, canon + placed, rest)
  {
    hide IsRound;
    assert (rounds + [RoundLog(units, ks)])[..|rounds|] == rounds;
    assert (canon + placed)[..|canon|] == canon && (canon + placed)[|canon|..] == placed;
  }

  /** The state between rounds: nothing lost, every round logged. */
  ghost predicate Between(start: seq<MatchUnit>, canon: seq<MatchUnit>, left: seq<MatchUnit>, rounds: seq<RoundLog>) {
    && Coherent(left) && Logged(rounds, start, canon, left)
    && multiset(canon) + multiset(left) == multiset(start)
    && (forall r :: r in rounds ==> StepsAreSuccessors(r))
  }

  lemma Advance(start: seq<MatchUnit>, canon: seq<MatchUnit>, left: seq<MatchUnit>, rounds: seq<RoundLog>,
                ks: seq<nat>, placed: seq<MatchUnit>, rest: seq<MatchUnit>)
    requires Between(start, canon, left, rounds) && IsRound(left, ks, placed, rest)
    ensures Between(start, canon + placed, rest, rounds + [RoundLog(left, ks)])
    ensures |placed| + |rest| == |left| && |placed| == |ks| && Live(rest) == rest
  {
    hide Coherent, Logged, StepsAreSuccessors, IsRound;
    RoundSteps(left, ks, placed, rest);
    LogRound(rounds, start, canon, left, ks, placed, rest);
    RoundSplits(left, ks, placed, rest);
    CoherentIsLive(rest);
    assert multiset(canon + placed) + multiset(rest) == multiset(canon) + multiset(left);
  }

  lemma RoundSplits(left: seq<MatchUnit>, ks: seq<nat>, placed: seq<MatchUnit>, rest: seq<MatchUnit>)
    requires Coherent(left) && IsRound(left, ks, placed, rest)
    ensures |placed| + |rest| == |left| && |placed| == |ks| && Coherent(rest)
    ensures multiset(placed) + multiset(rest) == multiset(left)
  {
    hide Targets, Coherent, Keep, FromCheapest;
    PickAndKeep(left, ks);
    KeepIsCoherent(left, Taken(ks));
  }

  lemma CoherentIsLive(units: seq<MatchUnit>)
    requires Coherent(units)
    ensures Live(units) == units
  {
    LiveOfLive(units);
  }

  /** Whatever path each round is given, rounds continue only while they place units, and nothing is lost. */
  method PlaceAll(accum: seq<MatchUnit>)
    returns (order: seq<MatchUnit>, ghost canon: seq<MatchUnit>, ghost rest: seq<MatchUnit>,
             ghost rounds: seq<RoundLog>)
    requires Coherent(Live(accum))
    ensures order == canon + rest && Between(Live(accum), canon, rest, rounds) && rounds != []
    ensures rest != [] ==> rounds[|rounds| - 1].ks == []
    ensures RemoteLeads(Live(accum)) ==> ClimbsRemote(order)
    ensures LocalLeads(Live(accum)) ==> ClimbsLocal(order)
  {
    hide *;
    ghost var start := Live(accum);
    var source, more := accum, true;
    order, rounds := [], [];
    Before(start);
    while more
      invariant Between(start, order, Live(source), rounds)
      invariant rounds == [] ==> more && Live(source) == start && order == []
      invariant !more && Live(source) != [] ==> rounds != [] && rounds[|rounds| - 1].ks == []
      invariant rounds != [] && start != [] && RemoteLeads(start) ==> !more && Live(source) == [] && ClimbsRemote(order)
      invariant rounds != [] && start != [] && LocalLeads(start) ==> !more && Live(source) == [] && ClimbsLocal(order)
      decreases more, |Live(source)|
    {
      var placed, rest', good, ks := Round(source);
      Advance(start, order, Live(source), rounds, ks, placed, rest');
      rounds := rounds + [RoundLog(Live(source), ks)];
      assert order == [] ==> order + placed == placed;
      order := order + placed;
      source := rest';
      more := !good;
      if |placed| == 0 {
        more := false;
      }
    }
    canon, rest := order, Live(source);
    order := order + Live(source);
    NothingLost(start, canon, rest, rounds);
    assert rest == [] ==> order == canon;
  }

  lemma Before(start: seq<MatchUnit>)
    requires Coherent(start)
    ensures Between(start, [], start, [])
  {
  }

  lemma NothingLost(start: seq<MatchUnit>, canon: seq<MatchUnit>, rest: seq<MatchUnit>, rounds: seq<RoundLog>)
    requires Between(start, canon, rest, rounds)
    ensures multiset(canon + rest) == multiset(start) && |canon + rest| == |start|
    ensures start == [] ==> ClimbsRemote(canon + rest) && ClimbsLocal(canon + rest)
  {
    assert |multiset(canon + rest)| == |canon + rest| && |multiset(start)| == |start|;
  }

  // ---------------------------------------------------------------------------
  // The whole merge

  lemma RecordIsDetermined(ol: OrderResult, or: OrderResult, u: MatchUnit, v: MatchUnit)
    requires ol.IsMatching() && or.IsMatching() && IsRecord(ol, or, u) && IsRecord(ol, or, v)
    ensures u.local >= -1 && u.remote >= -1 && u.pivot >= -1 && (u.local != -1 || u.remote != -1)
    ensures (u.local == v.local != -1) || (u.remote == v.remote != -1) || (u.pivot == v.pivot != -1) ==> u == v
  {
  }

  lemma AccountIsCoherent(ol: OrderResult, or: OrderResult, accum: seq<MatchUnit>)
    requires ol.IsMatching() && or.IsMatching() && IsAccount(ol, or, accum)
    ensures Coherent(Live(accum))
  {
    hide Live, Dropped, LocalUnit;
    LiveMembers(accum);
    LiveDistinct(accum);
    var units := Live(accum);
    forall u, v | u in units && v in units
      ensures u.local >= -1 && u.remote >= -1 && u.pivot >= -1 && (u.local != -1 || u.remote != -1)
      ensures (u.local == v.local != -1) || (u.remote == v.remote != -1) || (u.pivot == v.pivot != -1) ==> u == v
    {
      assert IsRecord(ol, or, u) && IsRecord(ol, or, v);
      RecordIsDetermined(ol, or, u, v);
    }
  }

  /** A live record: where it stands on each side. */
  lemma LiveRecord(ol: OrderResult, or: OrderResult, accum: seq<MatchUnit>, i: nat)
    requires ol.IsMatching() && or.IsMatching() && IsAccount(ol, or, accum) && i < |Live(accum)|
    ensures var u := Live(accum)[i];
            && (u.local != -1 ==> 0 <= u.local < |ol.toA| && u.pivot == ol.toA[u.local])
            && (u.remote != -1 ==> 0 <= u.remote < |or.toA| && u.pivot == or.toA[u.remote])
            && (u.pivot == -1 || u.remote != -1) && (u.pivot == -1 || u.local != -1)
            && (u.local != -1 || u.remote != -1)
  {
    LiveMembers(accum);
    assert Live(accum)[i] in Live(accum);
    assert IsRecord(ol, or, Live(accum)[i]);
  }

  /** If the local side only deleted, every live unit is on the remote side and local order is pivot order. */
  lemma QuietLocal(ol: OrderResult, or: OrderResult, accum: seq<MatchUnit>)
    requires ol.IsMatching() && or.IsMatching() && IsAccount(ol, or, accum) && ol.KeepsPivotOrder()
    ensures RemoteLeads(Live(accum))
  {
    hide Coherent, IsAccount;
    AccountIsCoherent(ol, or, accum);
    CoherentIsSeparate(Live(accum));
    forall i | 0 <= i < |Live(accum)|
      ensures var u := Live(accum)[i];
              u.remote != -1 && (u.local != -1 ==> 0 <= u.local < |ol.toA| && u.pivot == ol.toA[u.local])
                && (u.local == -1 ==> u.pivot == -1)
    {
      LiveRecord(ol, or, accum, i);
    }
  }

  lemma QuietRemote(ol: OrderResult, or: OrderResult, accum: seq<MatchUnit>)
    requires ol.IsMatching() && or.IsMatching() && IsAccount(ol, or, accum) && or.KeepsPivotOrder()
    ensures LocalLeads(Live(accum))
  {
    hide Coherent, IsAccount;
    AccountIsCoherent(ol, or, accum);
    CoherentIsSeparate(Live(accum));
    forall i | 0 <= i < |Live(accum)|
      ensures var u := Live(accum)[i];
              u.local != -1 && (u.remote != -1 ==> 0 <= u.remote < |or.toA| && u.pivot == or.toA[u.remote])
                && (u.remote == -1 ==> u.pivot == -1)
    {
      LiveRecord(ol, or, accum, i);
    }
  }

  predicate OnBothSides(u: MatchUnit) {
    u.local != -1 && u.remote != -1
  }

  ghost function CountBoth(units: seq<MatchUnit>): nat {
    if units == [] then 0 else CountBoth(units[..|units| - 1]) + if OnBothSides(units[|units| - 1]) then 1 else 0
  }

  /** `merge` on a fresh object, without head or tail trimming. */
  method Merge(nlocal: OrderResult, nremote: OrderResult, useOrder: bool, columnar: bool)
    returns (accum: seq<MatchUnit>, overlap: nat, ghost paired: seq<MatchUnit>,
             ghost canon: seq<MatchUnit>, ghost rest: seq<MatchUnit>, ghost rounds: seq<RoundLog>)
    requires nlocal.IsMatching() && nremote.IsMatching()
    ensures IsAccount(nlocal, nremote, paired) && multiset(accum) == multiset(paired)
    ensures !(useOrder || columnar) ==> accum == paired && IsPlaced(nlocal, nremote, accum)
    ensures useOrder || columnar ==>
              && accum == canon + rest + Dropped(paired) && Between(Live(paired), canon, rest, rounds)
              && rounds != [] && (rest != [] ==> rounds[|rounds| - 1].ks == [])
    ensures (useOrder || columnar) && nlocal.KeepsPivotOrder() ==> ClimbsRemote(canon + rest)
    ensures (useOrder || columnar) && nremote.KeepsPivotOrder() ==> ClimbsLocal(canon + rest)
    ensures overlap == CountBoth(accum)
  {
    hide *;
    accum := PairUnits(nlocal, nremote);
    paired, canon, rest, rounds := accum, [], [], [];
    LiveMembers(accum);
    AccountIsCoherent(nlocal, nremote, accum);
    if useOrder || columnar {
      var order;
      order, canon, rest, rounds := PlaceAll(accum);
      NothingLost(Live(accum), canon, rest, rounds);
      if nlocal.KeepsPivotOrder() {
        QuietLocal(nlocal, nremote, accum);
      }
      if nremote.KeepsPivotOrder() {
        QuietRemote(nlocal, nremote, accum);
      }
      accum := order + Dropped(accum);
    }
    overlap := CountOverlap(accum);
  }

  method CountOverlap(accum: seq<MatchUnit>) returns (overlap: nat)
    ensures overlap == CountBoth(accum)
  {
    overlap := 0;
    for i := 0 to |accum|
      invariant overlap == CountBoth(accum[..i])
    {
      assert accum[..i + 1][..i] == accum[..i];
      if OnBothSides(accum[i]) {
        overlap := overlap + 1;
      }
    }
    assert accum[..|accum|] == accum;
  }
}
