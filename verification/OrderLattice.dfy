/** The lattice one round of `OrderMerge::merge` builds over the units not yet placed
    (src/libcoopy_core/OrderMerge.cpp). A column of unit numbers (local, remote or pivot) is a
    sequence of keys, -1 where the unit does not exist on that side. */
module OrderLattice {
  import opened Common
  import opened MatchUnits
  import V = Viterbi

  function Locals(units: seq<MatchUnit>): seq<int> { seq(|units|, i requires 0 <= i < |units| => units[i].local) }
  function Remotes(units: seq<MatchUnit>): seq<int> { seq(|units|, i requires 0 <= i < |units| => units[i].remote) }
  function Pivots(units: seq<MatchUnit>): seq<int> { seq(|units|, i requires 0 <= i < |units| => units[i].pivot) }

  // ---------------------------------------------------------------------------
  // Looking up the next unit along a column

  function Available(keys: seq<int>): set<int> {
    set i | 0 <= i < |keys| && keys[i] != -1 :: keys[i]
  }

  ghost predicate IsNext(s: set<int>, val: int, n: int) {
    n in s && n > val && forall y :: y in s && y > val ==> n <= y
  }

  lemma NextExists(s: set<int>, val: int)
    requires exists y :: y in s && y > val
    ensures exists n :: IsNext(s, val, n)
  {
    var y :| y in s && y > val;
    if exists z :: z in s && val < z < y {
      var z :| z in s && val < z < y;
      assert z in s - {y};
      NextExists(s - {y}, val);
      var n :| IsNext(s - {y}, val, n);
      assert n <= z && forall x :: x in s && x != y ==> x in s - {y};
      assert IsNext(s, val, n);
    } else {
      assert IsNext(s, val, y);
    }
  }

  /** `next_avail`: the element after `val` in a sorted set, -2 when there is none. */
  function NextAvail(s: set<int>, val: int): int {
    if val in s && exists y :: y in s && y > val then
      NextExists(s, val);
      var n :| n in s && n > val && forall y :: y in s && y > val ==> n <= y;
      n
    else
      -2
  }

  /** `safe_next` on a map from key to position in which the last writer wins; the dud is `|keys|`. */
  function Find(keys: seq<int>, v: int): (k: nat)
    ensures k <= |keys|
    ensures k < |keys| ==> keys[k] == v
    ensures k == |keys| && v >= 0 ==> v !in keys
  {
    if v < 0 then |keys| else FindFrom(keys, v, |keys|)
  }

  function FindFrom(keys: seq<int>, v: int, n: nat): (k: nat)
    requires n <= |keys|
    ensures k < n || k == |keys|
    ensures k < |keys| ==> keys[k] == v
    ensures k == |keys| ==> v !in keys[..n]
  {
    if n == 0 then |keys|
    else if keys[n - 1] == v then n - 1
    else FindFrom(keys, v, n - 1)
  }

  function Next(keys: seq<int>, k: nat): (n: nat)
    requires k < |keys|
    ensures n <= |keys|
  {
    Find(keys, NextAvail(Available(keys), keys[k]))
  }

  /** The initial value chosen by the indexing loop: a leading -1 sticks. */
  function Lowest(keys: seq<int>): int {
    if keys == [] then -2
    else
      var low := Lowest(keys[..|keys| - 1]);
      var key := keys[|keys| - 1];
      if (key < low && key >= 0) || low == -2 then key else low
  }

  // ---------------------------------------------------------------------------
  // The lattice

  /** Where a unit may be followed to. */
  function Targets(units: seq<MatchUnit>, k: nat): set<nat>
    requires k < |units|
  {
    var u := units[k];
    if u.local == -1 && u.remote == -1 then {Next(Pivots(units), k)}
    else if u.remote == -1 then {Next(Locals(units), k)}
    else if u.local == -1 then {Next(Remotes(units), k)}
    else
      var lnext, rnext, pnext := Next(Locals(units), k), Next(Remotes(units), k), Next(Pivots(units), k);
      (if lnext != pnext then {lnext} else {})
      + (if rnext != pnext then {rnext} else {})
      + (if rnext == pnext && lnext == pnext then {pnext} else {})
  }

  function Start(keys: seq<int>): set<nat> {
    if Lowest(keys) >= 0 then {Find(keys, Lowest(keys))} else {}
  }

  /** The states drawn from at layer `d`. */
  function Reach(units: seq<MatchUnit>, d: nat): set<nat> {
    if d == 0 then Start(Locals(units)) + Start(Remotes(units))
    else set k, t | k in Reach(units, d - 1) && k < |units| && t in Targets(units, k) :: t
  }

  function FirstLayer(units: seq<MatchUnit>): set<V.Trans> {
    (set k | k in Reach(units, 0) :: V.Trans(k, k, 0.0)) + {V.Trans(|units|, |units|, 1.0)}
  }

  function DrawLayer(units: seq<MatchUnit>, d: nat): set<V.Trans>
    requires d > 0
  {
    (set k, t | k in Reach(units, d - 1) && k < |units| && t in Targets(units, k) :: V.Trans(k, t, 0.0))
    + {V.Trans(|units|, |units|, 1.0)}
  }

  function LastLayer(n: nat): set<V.Trans> {
    (set k: nat | 0 <= k < n :: V.Trans(k, k, 0.0)) + {V.Trans(n, n, 1.0)}
  }

  ghost function FirstLayers(units: seq<MatchUnit>, draws: nat): (layers: seq<set<V.Trans>>)
    ensures |layers| == draws + 1
    ensures forall d :: 0 <= d <= draws ==> layers[d] == if d == 0 then FirstLayer(units) else DrawLayer(units, d)
  {
    if draws == 0 then [FirstLayer(units)] else FirstLayers(units, draws - 1) + [DrawLayer(units, draws)]
  }

  ghost function Layers(units: seq<MatchUnit>): (layers: seq<set<V.Trans>>)
    ensures |layers| == |units| + if units == [] then 2 else 1
  {
    FirstLayers(units, if units == [] then 0 else |units| - 1) + [LastLayer(|units|)]
  }

  // ---------------------------------------------------------------------------
  // A lattice in which one column decides every step

  ghost predicate Increasing(keys: seq<int>, ks: seq<int>) {
    && (forall i :: 0 <= i < |ks| ==> 0 <= ks[i] < |keys|)
    && (forall i, j :: 0 <= i < j < |ks| ==> keys[ks[i]] < keys[ks[j]])
  }

  ghost predicate IsLeast(keys: seq<int>, low: nat) {
    low < |keys| && forall i :: 0 <= i < |keys| ==> keys[low] <= keys[i]
  }

  ghost predicate Continues(layers: seq<set<V.Trans>>, keys: seq<int>, d: int, tr: V.Trans)
    requires 0 <= d < |layers| - 1
  {
    tr.to < |keys| ==> V.Trans(tr.to, Next(keys, tr.to), 0.0) in layers[d + 1]
  }

  /** Every free step follows the column `keys`; every other step costs something. */
  ghost predicate Decided(layers: seq<set<V.Trans>>, keys: seq<int>) {
    var n := |keys|;
    && n > 0 && |layers| == n + 1 && Distinct(keys) && (forall i :: 0 <= i < n ==> keys[i] >= 0)
    && (forall d, tr :: 0 <= d <= n && tr in layers[d] ==> tr.cost >= 0.0 && (tr.cost == 0.0 ==> tr.from < n))
    && (exists low: nat :: IsLeast(keys, low) && V.Trans(low, low, 0.0) in layers[0])
    && (forall d, tr :: 1 <= d < n && tr in layers[d] && tr.cost == 0.0 ==> tr.to == Next(keys, tr.from))
    && (forall d, tr {:trigger Continues(layers, keys, d, tr)} :: 0 <= d < n - 1 && tr in layers[d] ==>
          Continues(layers, keys, d, tr))
    && (forall k: nat :: k < n ==> V.Trans(k, k, 0.0) in layers[n])
  }

  /** Stepping along a column goes to the unit with the next larger key, or to the dud from the largest. */
  lemma NextIsSuccessor(keys: seq<int>, k: nat)
    requires k < |keys| && keys[k] >= 0 && (forall i :: 0 <= i < |keys| ==> keys[i] >= -1)
    ensures var n := Next(keys, k);
            if n < |keys| then IsNext(Available(keys), keys[k], keys[n])
            else forall i :: 0 <= i < |keys| ==> keys[i] <= keys[k]
  {
    var s := Available(keys);
    assert keys[k] in s;
    var v := NextAvail(s, keys[k]);
    if exists y :: y in s && y > keys[k] {
      assert IsNext(s, keys[k], v);
    } else {
      forall i | 0 <= i < |keys| ensures keys[i] <= keys[k] {
        assert keys[i] != -1 ==> keys[i] in s;
      }
    }
  }

  function UpTo(keys: seq<int>, v: int): set<int> {
    set i | 0 <= i < |keys| && keys[i] <= v
  }

  ghost function Range(n: nat): (r: set<int>)
    ensures |r| == n && forall i :: i in r <==> 0 <= i < n
  {
    if n == 0 then {} else Range(n - 1) + {n - 1}
  }

  lemma AllUpTo(keys: seq<int>, v: int)
    requires forall i :: 0 <= i < |keys| ==> keys[i] <= v
    ensures |UpTo(keys, v)| == |keys|
  {
    assert UpTo(keys, v) == Range(|keys|);
  }

  /** One step along the column leaves exactly one more key behind, and only the last key has no step. */
  lemma NextLeavesOneBehind(keys: seq<int>, k: nat)
    requires Distinct(keys) && (forall i :: 0 <= i < |keys| ==> keys[i] >= 0)
    requires k < |keys| && |UpTo(keys, keys[k])| < |keys|
    ensures var n := Next(keys, k);
            n < |keys| && keys[k] < keys[n] && |UpTo(keys, keys[n])| == |UpTo(keys, keys[k])| + 1
  {
    var n := Next(keys, k);
    NextIsSuccessor(keys, k);
    if n == |keys| {
      AllUpTo(keys, keys[k]);
      assert false;
    }
    forall i | i in UpTo(keys, keys[n]) ensures i in UpTo(keys, keys[k]) + {n} {
      assert keys[i] in Available(keys);
    }
    assert UpTo(keys, keys[n]) == UpTo(keys, keys[k]) + {n};
  }

  lemma ExtendChain(layers: seq<set<V.Trans>>, c: seq<V.Trans>, tr: V.Trans)
    requires V.IsChain(layers, c) && |c| < |layers| && tr in layers[|c|]
    requires c != [] ==> tr.from == c[|c| - 1].to
    ensures V.IsChain(layers, c + [tr]) && V.Total(c + [tr]) == V.Total(c) + tr.cost
  {
    TotalGrows(c, tr);
    ChainGrows(layers, c, tr);
    hide V.Total, V.IsChain;
  }

  lemma ChainGrows(layers: seq<set<V.Trans>>, c: seq<V.Trans>, tr: V.Trans)
    requires V.IsChain(layers, c) && |c| < |layers| && tr in layers[|c|]
    requires c != [] ==> tr.from == c[|c| - 1].to
    ensures V.IsChain(layers, c + [tr])
  {
    var d := c + [tr];
    forall i | 0 <= i < |d| ensures d[i] in layers[i] && (i > 0 ==> d[i - 1].to == d[i].from) {
      if i < |c| {
        assert d[i] == c[i] && (i > 0 ==> d[i - 1] == c[i - 1]);
      }
    }
  }

  lemma TotalGrows(c: seq<V.Trans>, tr: V.Trans)
    ensures V.Total(c + [tr]) == V.Total(c) + tr.cost
  {
    assert (c + [tr])[..|c|] == c;
  }

  lemma LeastIsAlone(keys: seq<int>, low: nat)
    requires IsLeast(keys, low) && Distinct(keys)
    ensures low < |keys| && |UpTo(keys, keys[low])| == 1
  {
    assert UpTo(keys, keys[low]) == {low as int};
  }

  lemma NoChain(layers: seq<set<V.Trans>>)
    ensures V.IsChain(layers, []) && V.Total([]) == 0.0
  {
  }

  /** Following the column from its least key costs nothing and passes one more unit per layer. */
  lemma {:induction false} FreeChain(layers: seq<set<V.Trans>>, keys: seq<int>, d: nat) returns (c: seq<V.Trans>)
    requires Decided(layers, keys) && d < |keys|
    ensures V.IsChain(layers, c) && |c| == d + 1 && V.Total(c) == 0.0
    ensures c[d].to < |keys| && |UpTo(keys, keys[c[d].to])| == d + 1
  {
    if d == 0 {
      var low: nat :| IsLeast(keys, low) && V.Trans(low, low, 0.0) in layers[0];
      LeastIsAlone(keys, low);
      NoChain(layers);
      hide V.IsChain, V.Total, UpTo;
      ExtendChain(layers, [], V.Trans(low, low, 0.0));
      c := [] + [V.Trans(low, low, 0.0)];
    } else {
      hide V.IsChain, V.Total, UpTo;
      var front := FreeChain(layers, keys, d - 1);
      var k := front[d - 1].to;
      NextLeavesOneBehind(keys, k);
      assert Continues(layers, keys, d - 1, front[d - 1]);
      ExtendChain(layers, front, V.Trans(k, Next(keys, k), 0.0));
      c := front + [V.Trans(k, Next(keys, k), 0.0)];
    }
  }

  lemma {:induction false} CheapIsFree(layers: seq<set<V.Trans>>, keys: seq<int>, c: seq<V.Trans>)
    requires Decided(layers, keys) && V.IsChain(layers, c)
    ensures V.Total(c) >= 0.0
    ensures V.Total(c) == 0.0 ==> forall i :: 0 <= i < |c| ==> c[i].cost == 0.0
  {
    if c != [] {
      V.ChainPrefix(layers, c);
      CheapIsFree(layers, keys, c[..|c| - 1]);
      forall i | 0 <= i < |c| && V.Total(c) == 0.0 ensures c[i].cost == 0.0 {
        assert i < |c| - 1 ==> c[..|c| - 1][i].cost == 0.0;
      }
    }
  }

  /** A full chain that costs nothing climbs the column. */
  lemma FreeChainClimbs(layers: seq<set<V.Trans>>, keys: seq<int>, c: seq<V.Trans>, i: nat)
    requires Decided(layers, keys) && V.IsChain(layers, c) && |c| == |layers|
    requires forall j :: 0 <= j < |c| ==> c[j].cost == 0.0
    requires i < |keys|
    ensures c[i].to < |keys|
    ensures i < |keys| - 1 ==> c[i + 1].to < |keys| && keys[c[i].to] < keys[c[i + 1].to]
  {
    assert c[i + 1] in layers[i + 1] && c[i + 1].from == c[i].to;
    if i < |keys| - 1 {
      assert c[i + 2] in layers[i + 2] && c[i + 2].from == c[i + 1].to;
      NextIsSuccessor(keys, c[i].to);
    }
  }

  lemma CheapestIsFree(layers: seq<set<V.Trans>>, keys: seq<int>, c: seq<V.Trans>)
    requires Decided(layers, keys) && V.IsCheapest(layers, c)
    ensures forall i :: 0 <= i < |c| ==> c[i].cost == 0.0
  {
    var n := |keys|;
    var free := FreeChain(layers, keys, n - 1);
    ExtendChain(layers, free, V.Trans(free[n - 1].to, free[n - 1].to, 0.0));
    CheapIsFree(layers, keys, c);
  }

  /** The cheapest path of a decided lattice visits all units, in the order of the deciding column. */
  lemma DecidedPath(layers: seq<set<V.Trans>>, keys: seq<int>, path: seq<int>, best: real)
    requires Decided(layers, keys) && V.IsBestPath(layers, path, best)
    ensures |path| == |keys| + 1 && Increasing(keys, path[..|keys|])
  {
    var n := |keys|;
    var c: seq<V.Trans> :| V.IsCheapest(layers, c) && |path| == |c| && forall i :: 0 <= i < |c| ==> path[i] == c[i].to;
    CheapestIsFree(layers, keys, c);
    var ks := path[..n];
    forall i: nat | i < n ensures 0 <= ks[i] < n && (i < n - 1 ==> ks[i + 1] < n && keys[ks[i]] < keys[ks[i + 1]]) {
      FreeChainClimbs(layers, keys, c, i);
    }
    StepsIncrease(keys, ks);
  }

  lemma StepsIncrease(keys: seq<int>, ks: seq<int>)
    requires forall i :: 0 <= i < |ks| ==> 0 <= ks[i] < |keys|
    requires forall i :: 0 <= i < |ks| - 1 ==> keys[ks[i]] < keys[ks[i + 1]]
    ensures Increasing(keys, ks)
  {
    forall i, j | 0 <= i < j < |ks| ensures keys[ks[i]] < keys[ks[j]] {
      var m := i + 1;
      while m < j
        invariant i < m <= j && keys[ks[i]] < keys[ks[m]]
      {
        m := m + 1;
      }
    }
  }

  // ---------------------------------------------------------------------------
  // When a column decides

  ghost predicate IsColumn(keys: seq<int>) {
    && (forall i :: 0 <= i < |keys| ==> keys[i] >= -1)
    && (forall i, j :: 0 <= i < j < |keys| && keys[i] == keys[j] ==> keys[i] == -1)
  }

  ghost predicate IsFull(keys: seq<int>) {
    forall i :: 0 <= i < |keys| ==> keys[i] != -1
  }

  ghost predicate Separate(units: seq<MatchUnit>) {
    IsColumn(Locals(units)) && IsColumn(Remotes(units)) && IsColumn(Pivots(units))
  }

  /** Two columns are defined on the same units and rank them alike. */
  ghost predicate SameRanking(a: seq<int>, b: seq<int>) {
    && |a| == |b| && (forall i :: 0 <= i < |a| ==> (a[i] == -1 <==> b[i] == -1))
    && (forall i, j :: 0 <= i < |a| && 0 <= j < |a| && a[i] != -1 && a[j] != -1 ==> (a[i] < a[j] <==> b[i] < b[j]))
  }

  lemma SameNext(a: seq<int>, b: seq<int>, k: nat)
    requires IsColumn(a) && IsColumn(b) && SameRanking(a, b) && k < |a| && a[k] != -1
    ensures Next(a, k) == Next(b, k)
  {
    var x, y := Next(a, k), Next(b, k);
    NextIsSuccessor(a, k);
    NextIsSuccessor(b, k);
    if x < |a| && y < |a| {
      assert a[y] in Available(a) && b[x] in Available(b);
    }
  }

  /** The value found is a key exactly when the first key is one, and then it is the least; otherwise -1 stays. */
  lemma {:induction false} LowestFollowsFirst(keys: seq<int>)
    requires keys != [] && (forall i :: 0 <= i < |keys| ==> keys[i] >= -1)
    ensures Lowest(keys) >= 0 <==> keys[0] >= 0
    ensures Lowest(keys) >= 0 ==> Lowest(keys) in keys && forall i :: 0 <= i < |keys| && keys[i] >= 0 ==>
      Lowest(keys) <= keys[i]
    ensures Lowest(keys) < 0 ==> Lowest(keys) == -1
  {
    var front := keys[..|keys| - 1];
    if front != [] {
      LowestFollowsFirst(front);
    }
  }

  /** A side offers a start, its least unit, exactly when the first unit in the list is on that side. */
  lemma StartFollowsFirst(keys: seq<int>)
    requires keys != [] && (forall i :: 0 <= i < |keys| ==> keys[i] >= -1)
    ensures Start(keys) != {} <==> keys[0] >= 0
    ensures forall k :: k in Start(keys) ==>
              k < |keys| && keys[k] >= 0 && forall i :: 0 <= i < |keys| && keys[i] >= 0 ==> keys[k] <= keys[i]
  {
    LowestFollowsFirst(keys);
    if keys[0] >= 0 {
      assert Find(keys, Lowest(keys)) in Start(keys);
    }
  }

  /** A side with a unit but not at the head of the list offers no start. */
  lemma LeadingGapHidesStart()
    ensures Start([-1, 0]) == {}
  {
    StartFollowsFirst([-1, 0]);
  }

  lemma LowestIsLeast(keys: seq<int>)
    requires keys != [] && IsColumn(keys) && IsFull(keys)
    ensures IsLeast(keys, Find(keys, Lowest(keys))) && Lowest(keys) in keys && Lowest(keys) >= 0
  {
    LowestFollowsFirst(keys);
  }

  lemma LayersAt(units: seq<MatchUnit>, d: nat)
    requires units != [] && d <= |units|
    ensures Layers(units)[d] ==
            if d == 0 then FirstLayer(units) else if d < |units| then DrawLayer(units, d) else LastLayer(|units|)
  {
  }

  ghost predicate FollowsColumn(units: seq<MatchUnit>, keys: seq<int>) {
    && |keys| == |units| && (keys == Locals(units) || keys == Remotes(units))
    && forall k: nat :: k < |units| ==> Targets(units, k) == {Next(keys, k)}
  }

  lemma LayerSteps(units: seq<MatchUnit>, keys: seq<int>, d: nat, tr: V.Trans)
    requires units != [] && FollowsColumn(units, keys) && d <= |units| && tr in Layers(units)[d]
    ensures tr.cost >= 0.0 && (tr.cost == 0.0 ==> tr.from < |units|)
    ensures 1 <= d < |units| && tr.cost == 0.0 ==> tr.to == Next(keys, tr.from)
  {
    LayersAt(units, d);
    if d == 0 {
      StartsInRange(Locals(units));
      StartsInRange(Remotes(units));
    }
  }

  lemma TargetsAreReached(units: seq<MatchUnit>, d: nat, tr: V.Trans)
    requires d < |units| && tr in Layers(units)[d] && tr.to < |units|
    ensures tr.to in Reach(units, d)
  {
    LayersAt(units, d);
  }

  lemma ReachedAreDrawn(units: seq<MatchUnit>, d: nat, k: nat, t: nat)
    requires d < |units| - 1 && k < |units| && k in Reach(units, d) && t in Targets(units, k)
    ensures V.Trans(k, t, 0.0) in Layers(units)[d + 1]
  {
    hide Targets, Reach;
    LayersAt(units, d + 1);
    assert V.Trans(k, t, 0.0) in DrawLayer(units, d + 1);
  }

  lemma LayerContinues(units: seq<MatchUnit>, keys: seq<int>, d: nat, tr: V.Trans)
    requires units != [] && FollowsColumn(units, keys) && d < |units| - 1 && tr in Layers(units)[d]
    ensures Continues(Layers(units), keys, d, tr)
  {
    if tr.to < |units| {
      TargetsAreReached(units, d, tr);
      ReachedAreDrawn(units, d, tr.to, Next(keys, tr.to));
    }
  }

  /** If every unit is followed along one and the same full column, that column decides the lattice. */
  lemma ColumnDecides(units: seq<MatchUnit>, keys: seq<int>)
    requires units != [] && IsColumn(keys) && IsFull(keys) && FollowsColumn(units, keys)
    ensures Decided(Layers(units), keys)
  {
    LowestIsLeast(keys);
    var low := Find(keys, Lowest(keys));
    LayersAt(units, 0);
    assert low in Reach(units, 0);
    LayersAt(units, |units|);
    forall d: nat, tr: V.Trans | d <= |units| && tr in Layers(units)[d]
      ensures tr.cost >= 0.0 && (tr.cost == 0.0 ==> tr.from < |units|)
      ensures 1 <= d < |units| && tr.cost == 0.0 ==> tr.to == Next(keys, tr.from)
    {
      LayerSteps(units, keys, d, tr);
    }
    forall d: nat, tr: V.Trans | d < |units| - 1 && tr in Layers(units)[d]
      ensures Continues(Layers(units), keys, d, tr)
    {
      LayerContinues(units, keys, d, tr);
    }
  }

  lemma {:induction false} StartsInRange(keys: seq<int>)
    ensures forall k :: k in Start(keys) ==> k < |keys|
    ensures Lowest(keys) >= 0 ==> Lowest(keys) in keys
  {
    if keys != [] {
      var front := keys[..|keys| - 1];
      assert keys == front + [keys[|keys| - 1]];
      StartsInRange(front);
    }
  }

  /** The local side changed nothing but deletions: the remote column decides. */
  lemma RemoteDecides(units: seq<MatchUnit>)
    requires units != [] && Separate(units) && IsFull(Remotes(units)) && SameRanking(Locals(units), Pivots(units))
    ensures Decided(Layers(units), Remotes(units))
  {
    forall k: nat | k < |units| ensures Targets(units, k) == {Next(Remotes(units), k)} {
      assert units[k].remote == Remotes(units)[k] != -1 && Locals(units)[k] == units[k].local;
      if units[k].local != -1 {
        SameNext(Locals(units), Pivots(units), k);
      }
    }
    ColumnDecides(units, Remotes(units));
  }

  /** The remote side changed nothing but deletions: the local column decides. */
  lemma LocalDecides(units: seq<MatchUnit>)
    requires units != [] && Separate(units) && IsFull(Locals(units)) && SameRanking(Remotes(units), Pivots(units))
    ensures Decided(Layers(units), Locals(units))
  {
    forall k: nat | k < |units| ensures Targets(units, k) == {Next(Locals(units), k)} {
      assert units[k].local == Locals(units)[k] != -1 && Remotes(units)[k] == units[k].remote;
      if units[k].remote != -1 {
        SameNext(Remotes(units), Pivots(units), k);
      }
    }
    ColumnDecides(units, Locals(units));
  }

  // ---------------------------------------------------------------------------
  // Every step of a path is a successor step

  /** `k2` comes immediately after `k` among the given units, on the local or on the remote side. */
  ghost predicate IsSuccessor(units: seq<MatchUnit>, k: nat, k2: nat)
    requires k < |units| && k2 < |units|
  {
    || (units[k].local != -1 && IsNext(Available(Locals(units)), units[k].local, units[k2].local))
    || (units[k].remote != -1 && IsNext(Available(Remotes(units)), units[k].remote, units[k2].remote))
  }

  ghost predicate HaveSides(units: seq<MatchUnit>) {
    forall i :: 0 <= i < |units| ==> units[i].local != -1 || units[i].remote != -1
  }

  lemma TargetsAreSuccessors(units: seq<MatchUnit>, k: nat, k2: nat)
    requires Separate(units) && HaveSides(units) && k < |units| && k2 < |units| && k2 in Targets(units, k)
    ensures IsSuccessor(units, k, k2)
  {
    assert Locals(units)[k] == units[k].local && Remotes(units)[k] == units[k].remote;
    if units[k].local != -1 {
      NextIsSuccessor(Locals(units), k);
    }
    if units[k].remote != -1 {
      NextIsSuccessor(Remotes(units), k);
    }
  }

  /** `k2` comes immediately after `k` along a column. */
  ghost predicate Follows(keys: seq<int>, k: nat, k2: nat)
    requires k < |keys| && k2 < |keys|
  {
    keys[k] != -1 && IsNext(Available(keys), keys[k], keys[k2])
  }

  lemma NextIffFollows(keys: seq<int>, k: nat, k2: nat)
    requires IsColumn(keys) && k < |keys| && k2 < |keys|
    ensures k2 == Next(keys, k) <==> Follows(keys, k, k2)
  {
    if keys[k] == -1 {
      assert keys[k] !in Available(keys);
    } else {
      NextIsSuccessor(keys, k);
      var n := Next(keys, k);
      if n < |keys| && Follows(keys, k, k2) {
        assert keys[n] == keys[k2];
      }
    }
  }

  /** A unit on one side is followed to its successor there. A unit on both sides is followed to what succeeds it on
      both, and to the successor on either side that is not its successor in the pivot. */
  lemma TargetIffMoved(units: seq<MatchUnit>, k: nat, k2: nat)
    requires Separate(units) && HaveSides(units) && k < |units| && k2 < |units|
    ensures var onLocal, onRemote, onPivot :=
              Follows(Locals(units), k, k2), Follows(Remotes(units), k, k2), Follows(Pivots(units), k, k2);
            k2 in Targets(units, k) <==>
              if units[k].local == -1 || units[k].remote == -1 then onLocal || onRemote
              else (onLocal && onRemote) || ((onLocal || onRemote) && !onPivot)
  {
    NextIffFollows(Locals(units), k, k2);
    NextIffFollows(Remotes(units), k, k2);
    NextIffFollows(Pivots(units), k, k2);
    hide Next, IsNext, Available;
    assert Locals(units)[k] == units[k].local && Remotes(units)[k] == units[k].remote;
  }

  lemma LayerFacts(units: seq<MatchUnit>, d: nat, tr: V.Trans)
    requires d < |Layers(units)| && tr in Layers(units)[d]
    ensures tr.to <= |units|
    ensures 1 <= d < |units| && tr.from < |units| ==> tr.to in Targets(units, tr.from)
  {
    if units != [] {
      LayersAt(units, d);
    }
    if d == 0 {
      StartsInRange(Locals(units));
      StartsInRange(Remotes(units));
    }
  }

  /** Along a cheapest path states stay in range, and every unit is followed to one of its targets. */
  lemma PathSteps(units: seq<MatchUnit>, path: seq<int>, best: real)
    requires V.IsBestPath(Layers(units), path, best)
    ensures |path| == |Layers(units)| && forall i :: 0 <= i < |path| ==> 0 <= path[i] <= |units|
    ensures forall i :: 0 <= i < |units| - 1 && path[i] < |units| ==> path[i + 1] in Targets(units, path[i])
  {
    hide Targets;
    var layers := Layers(units);
    var c: seq<V.Trans> :| V.IsCheapest(layers, c) && |path| == |c| && forall j :: 0 <= j < |c| ==> path[j] == c[j].to;
    forall i | 0 <= i < |path| ensures 0 <= path[i] <= |units| {
      LayerFacts(units, i, c[i]);
    }
    forall i | 0 <= i < |units| - 1 && path[i] < |units| ensures path[i + 1] in Targets(units, path[i]) {
      assert c[i + 1].from == c[i].to;
      LayerFacts(units, i + 1, c[i + 1]);
    }
  }
}
