/** Lists of match units: splitting off deleted ones, and taking some by rank. */
module UnitLists {
  import opened Common
  import opened MatchUnits

  /** The units a round works on, in list order. */
  function Live(source: seq<MatchUnit>): seq<MatchUnit> {
    if source == [] then []
    else if source[|source| - 1].deleted then Live(source[..|source| - 1])
    else Live(source[..|source| - 1]) + [source[|source| - 1]]
  }

  function Dropped(source: seq<MatchUnit>): seq<MatchUnit> {
    if source == [] then []
    else if source[|source| - 1].deleted then Dropped(source[..|source| - 1]) + [source[|source| - 1]]
    else Dropped(source[..|source| - 1])
  }

  lemma {:induction false} LiveMembers(source: seq<MatchUnit>)
    ensures forall u :: u in Live(source) <==> u in source && !u.deleted
    ensures forall u :: u in Dropped(source) <==> u in source && u.deleted
    ensures multiset(Live(source)) + multiset(Dropped(source)) == multiset(source)
  {
    if source != [] {
      var front, last := source[..|source| - 1], source[|source| - 1];
      assert source == front + [last];
      LiveMembers(front);
    }
  }

  lemma LiveGrows(source: seq<MatchUnit>, u: MatchUnit)
    ensures Live(source + [u]) == if u.deleted then Live(source) else Live(source) + [u]
    ensures Dropped(source + [u]) == if u.deleted then Dropped(source) + [u] else Dropped(source)
    ensures Ranks(source + [u]) == if u.deleted then Ranks(source) else Ranks(source)[|source| := |Live(source)|]
  {
    assert (source + [u])[..|source|] == source;
  }

  /** `it2k`: the list position of a live unit is sent to its rank among the live units. */
  function Ranks(source: seq<MatchUnit>): map<int, nat> {
    if source == [] then map[]
    else
      var front := source[..|source| - 1];
      if source[|source| - 1].deleted then Ranks(front) else Ranks(front)[|source| - 1 := |Live(front)|]
  }

  lemma {:induction false} RankAt(source: seq<MatchUnit>, i: nat)
    requires i < |source|
    ensures i in Ranks(source) <==> !source[i].deleted
    ensures !source[i].deleted ==> Ranks(source)[i] == |Live(source[..i])|
  {
    var front := source[..|source| - 1];
    if i < |source| - 1 {
      RankAt(front, i);
      assert front[..i] == source[..i];
    } else {
      RanksInRange(front);
    }
  }

  lemma {:induction false} RanksInRange(source: seq<MatchUnit>)
    ensures forall i :: i in Ranks(source) ==> 0 <= i < |source|
  {
    if source != [] {
      RanksInRange(source[..|source| - 1]);
    }
  }

  function Pick(units: seq<MatchUnit>, ks: seq<nat>): (r: seq<MatchUnit>)
    requires forall i :: 0 <= i < |ks| ==> ks[i] < |units|
    ensures |r| == |ks| && forall i :: 0 <= i < |ks| ==> r[i] == units[ks[i]]
  {
    seq(|ks|, i requires 0 <= i < |ks| => units[ks[i]])
  }

  /** The first `n` units less those whose rank is taken. */
  function Keep(units: seq<MatchUnit>, taken: set<nat>, n: nat): seq<MatchUnit>
    requires n <= |units|
  {
    if n == 0 then []
    else if n - 1 in taken then Keep(units, taken, n - 1)
    else Keep(units, taken, n - 1) + [units[n - 1]]
  }

  lemma {:induction false} KeepSame(units: seq<MatchUnit>, taken: set<nat>, k: nat, n: nat)
    requires n <= |units| && k >= n
    ensures Keep(units, taken, n) == Keep(units, taken + {k}, n)
  {
    if n > 0 {
      KeepSame(units, taken, k, n - 1);
    }
  }

  lemma {:induction false} KeepLessOne(units: seq<MatchUnit>, taken: set<nat>, k: nat, n: nat)
    requires k < n <= |units| && k !in taken
    ensures multiset(Keep(units, taken, n)) == multiset(Keep(units, taken + {k}, n)) + multiset{units[k]}
    ensures |Keep(units, taken, n)| == |Keep(units, taken + {k}, n)| + 1
  {
    if n - 1 == k {
      KeepSame(units, taken, k, n - 1);
    } else {
      KeepLessOne(units, taken, k, n - 1);
      var more, less := Keep(units, taken, n - 1), Keep(units, taken + {k}, n - 1);
      if n - 1 !in taken {
        assert Keep(units, taken, n) == more + [units[n - 1]];
        assert Keep(units, taken + {k}, n) == less + [units[n - 1]];
      }
    }
  }

  ghost function Taken(ks: seq<nat>): (r: set<nat>)
    ensures forall k :: k in r <==> k in ks
  {
    set k | k in ks
  }

  /** Placed and remaining units together are the units of the round. */
  lemma {:induction false} PickAndKeep(units: seq<MatchUnit>, ks: seq<nat>)
    requires Distinct(ks) && forall i :: 0 <= i < |ks| ==> ks[i] < |units|
    ensures multiset(Pick(units, ks)) + multiset(Keep(units, Taken(ks), |units|)) == multiset(units)
    ensures |ks| + |Keep(units, Taken(ks), |units|)| == |units|
  {
    if ks == [] {
      KeepAll(units, |units|);
      assert Taken(ks) == {};
    } else {
      var k := ks[|ks| - 1];
      var front := ks[..|ks| - 1];
      assert ks == front + [k] && k !in front;
      PickAndKeep(units, front);
      KeepLessOne(units, Taken(front), k, |units|);
      TakenGrows(front, k);
      PickGrows(units, front, k);
    }
  }

  lemma PickGrows(units: seq<MatchUnit>, ks: seq<nat>, k: nat)
    requires k < |units| && forall i :: 0 <= i < |ks| ==> ks[i] < |units|
    ensures multiset(Pick(units, ks + [k])) == multiset(Pick(units, ks)) + multiset{units[k]}
  {
    assert Pick(units, ks + [k]) == Pick(units, ks) + [units[k]];
  }

  lemma TakenGrows(ks: seq<nat>, k: nat)
    ensures Taken(ks + [k]) == Taken(ks) + {k}
  {
  }

  lemma {:induction false} KeepAll(units: seq<MatchUnit>, n: nat)
    requires n <= |units|
    ensures Keep(units, {}, n) == units[..n]
    ensures n == |units| ==> Keep(units, {}, n) == units
  {
    if n > 0 {
      KeepAll(units, n - 1);
    }
  }

  lemma {:induction false} KeepPrefix(a: seq<MatchUnit>, b: seq<MatchUnit>, taken: set<nat>, n: nat)
    requires a <= b && n <= |a|
    ensures Keep(a, taken, n) == Keep(b, taken, n)
  {
    if n > 0 {
      KeepPrefix(a, b, taken, n - 1);
    }
  }

  lemma KeepGrows(units: seq<MatchUnit>, taken: set<nat>, u: MatchUnit)
    ensures var n := |units|;
            Keep(units + [u], taken, n + 1) == if n in taken then Keep(units, taken, n) else Keep(units, taken, n) + [u]
  {
    KeepPrefix(units, units + [u], taken, |units|);
  }

  lemma {:induction false} KeepMembers(units: seq<MatchUnit>, taken: set<nat>, n: nat)
    requires n <= |units| && Distinct(units)
    ensures Distinct(Keep(units, taken, n))
    ensures forall u :: u in Keep(units, taken, n) ==> u in units[..n]
  {
    if n > 0 {
      KeepMembers(units, taken, n - 1);
      assert units[..n] == units[..n - 1] + [units[n - 1]];
      var front := Keep(units, taken, n - 1);
      forall i | 0 <= i < |front| ensures front[i] != units[n - 1] {
        assert front[i] in units[..n - 1];
      }
    }
  }

  lemma {:induction false} LiveDistinct(source: seq<MatchUnit>)
    requires Distinct(source)
    ensures Distinct(Live(source))
  {
    if source != [] {
      var front := source[..|source| - 1];
      LiveDistinct(front);
      LiveMembers(front);
    }
  }

  lemma {:induction false} LiveOfLive(source: seq<MatchUnit>)
    requires forall u :: u in source ==> !u.deleted
    ensures Live(source) == source
  {
    if source != [] {
      LiveOfLive(source[..|source| - 1]);
    }
  }

  lemma KeepNone(taken: set<nat>)
    ensures Keep([], taken, 0) == []
  {
  }
}
