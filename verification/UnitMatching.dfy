/** Matching units one to one (src/libcoopy_core/MeasureMan.cpp): the assignment along a cheapest path through the
    lattice of candidate matches, its repeat with more memory, and the passes over it.

    Candidate sets, scores and the score test are arbitrary; the test is a boolean of the round,
    the unit and the candidate. */
module UnitMatching {
  import opened HistoryBits
  import opened MatchLattice

  // ---------------------------------------------------------------------------
  // The matching

  /** `asel` and `bsel` describe one partial one-to-one matching. */
  ghost predicate MutuallyInverse(asel: seq<int>, bsel: seq<int>) {
    && (forall y :: 0 <= y < |bsel| ==> bsel[y] == -1 || (0 <= bsel[y] < |asel| && asel[bsel[y]] == y))
    && (forall x :: 0 <= x < |asel| ==> asel[x] == -1 || (0 <= asel[x] < |bsel| && bsel[asel[x]] == x))
  }

  /** No pair was undone. */
  ghost predicate Extends(sel0: seq<int>, sel: seq<int>) {
    |sel| == |sel0| && forall y :: 0 <= y < |sel0| && sel0[y] != -1 ==> sel[y] == sel0[y]
  }

  lemma FlagAdds(flags: Flags, bits: map<nat, nat>, count: nat, u: nat)
    requires FlagsOk(flags, bits, count) && u !in flags
    ensures FlagsOk(flags[u := Pow2(count)], bits[u := count], count + 1)
  {
  }

  lemma PairAdds(asel: seq<int>, bsel: seq<int>, x: nat, y: nat)
    requires MutuallyInverse(asel, bsel) && x < |asel| && y < |bsel| && bsel[y] == -1 && (asel[x] == -1 || asel[x] == y)
    ensures MutuallyInverse(asel[x := y], bsel[y := x])
  {
  }

  /** What a round decides about an unmatched position: it takes the unit on the path if the test accepts it and the
      unit is free, and otherwise stays unmatched. */
  ghost predicate Settles(p: Problem, asel: seq<int>, bsel: seq<int>, path: seq<int>, accept: (nat, nat) -> bool,
                          clashes: set<nat>, y: nat)
    requires y < |bsel| == |path| && path[y] >= 0
  {
    var best := Column(p, path[y]) - 1;
    if best >= 0 && accept(y, best) then
      bsel[y] == best || (bsel[y] == -1 && best in clashes && best < |asel| && asel[best] != -1)
    else bsel[y] == -1
  }

  /** One round of assignment along a path. Matches already made are kept; a clash flags the contested unit, and a unit
      that was flagged before this round clashes only with a match made before it. */
  method AssignRound(p: Problem, asel0: seq<int>, bsel0: seq<int>, path: seq<int>, accept: (nat, nat) -> bool,
                     flags0: Flags, power0: nat, count0: nat, ghost bits0: map<nat, nat>)
    returns (asel: seq<int>, bsel: seq<int>, flags: Flags, power: nat, count: nat, repeatNeeded: bool,
             ghost bits: map<nat, nat>, ghost clashes: set<nat>)
    requires |asel0| == p.width && |bsel0| == |p.cells| && MutuallyInverse(asel0, bsel0)
    requires FlagsOk(flags0, bits0, count0) && power0 == Pow2(count0) && IsWalk(p, flags0, bits0, count0, path)
    ensures MutuallyInverse(asel, bsel) && Extends(asel0, asel) && Extends(bsel0, bsel)
    ensures FlagsOk(flags, bits, count) && power == Pow2(count) && count >= count0
    ensures repeatNeeded <==> count0 < count < 4
    ensures |path| == |bsel| && forall y :: 0 <= y < |path| ==> path[y] >= 0
    ensures forall y :: 0 <= y < |bsel| && bsel0[y] == -1 ==> Settles(p, asel, bsel, path, accept, clashes, y)
    ensures forall u :: u in clashes && u in flags0 ==> u < |asel0| && asel0[u] != -1
    ensures forall u :: u in clashes ==> u in flags && u < |asel0|
    ensures forall u :: u in flags0 ==> u in flags
    ensures forall u :: u in flags ==> u in flags0 || u in clashes
    ensures count == count0 ==> flags == flags0
  {
    hide IsWalk, FlagsOk, Pow2, MutuallyInverse;
    WalkFacts(p, flags0, bits0, count0, path);
    asel, bsel, flags, power, count, repeatNeeded := asel0, bsel0, flags0, power0, count0, false;
    bits, clashes := bits0, {};
    for y := 0 to |bsel|
      invariant MutuallyInverse(asel, bsel) && Extends(asel0, asel) && Extends(bsel0, bsel)
      invariant FlagsOk(flags, bits, count) && power == Pow2(count) && count >= count0
      invariant repeatNeeded <==> count0 < count < 4
      invariant forall x :: 0 <= x < |asel| && asel[x] != asel0[x] ==>
        0 <= asel[x] < y && Column(p, path[asel[x]]) == x + 1
      invariant forall z :: 0 <= z < y && bsel0[z] == -1 ==> Settles(p, asel, bsel, path, accept, clashes, z)
      invariant forall z :: y <= z < |bsel| ==> bsel[z] == bsel0[z]
      invariant forall u :: u in clashes && u in flags0 ==> u < |asel0| && asel0[u] != -1
      invariant forall u :: u in clashes ==> u in flags && u < |asel0|
      invariant forall u :: u in flags0 ==> u in flags
      invariant forall u :: u in flags ==> u in flags0 || u in clashes
      invariant count == count0 ==> flags == flags0
    {
      if bsel[y] == -1 {
        var best := Column(p, path[y]) - 1;
        if best >= 0 && accept(y, best) {
          if asel[best] != -1 && asel[best] != y {
            clashes := clashes + {best};
            if best !in flags {
              FlagAdds(flags, bits, count, best);
              PowerDoubles(count);
              flags, bits := flags[best := power], bits[best := count];
              count, power := count + 1, power * 2;
              repeatNeeded := count < 4;
            }
          } else {
            PairAdds(asel, bsel, best, y);
            bsel, asel := bsel[y := best], asel[best := y];
          }
        }
      }
    }
  }

  lemma PowerDoubles(count: nat)
    ensures Pow2(count) * 2 == Pow2(count + 1)
  {
  }

  /** The last round of a comparison: what it remembered, the path it took, and the units two positions wanted. */
  datatype LastRound = LastRound(flags: Flags, bits: map<nat, nat>, count: nat, path: seq<int>, round: nat,
                                 clashes: set<nat>)

  /** The matching is what the last round made of the matching before: its path chooses candidates with the greatest
      total score less drift that any choice has, every open position is settled by path and test, and unless four
      units were flagged a unit is refused only if it was taken before. */
  ghost predicate IsOutcome(p: Problem, accept: (nat, nat, nat) -> bool, asel0: seq<int>, bsel0: seq<int>,
                            asel: seq<int>, bsel: seq<int>, last: LastRound)
  {
    && FlagsOk(last.flags, last.bits, last.count) && IsWalk(p, last.flags, last.bits, last.count, last.path)
    && IsBestChoice(p, last.flags, Choices(p, last.path))
    && |bsel| == |bsel0| == |last.path| && (forall y :: 0 <= y < |bsel| ==> last.path[y] >= 0)
    && (forall y :: 0 <= y < |bsel| && bsel0[y] == -1 ==>
          Settles(p, asel, bsel, last.path, (z: nat, x: nat) => accept(last.round, z, x), last.clashes, y))
    && (forall u :: u in last.clashes ==>
          u < |asel0| && (asel0[u] != -1 || |last.flags.Keys + last.clashes| >= 4))
  }

  lemma RoundDecides(p: Problem, accept: (nat, nat, nat) -> bool, asel0: seq<int>, bsel0: seq<int>, asel: seq<int>,
                     bsel: seq<int>, last: LastRound, flags: Flags, bits: map<nat, nat>, count: nat)
    requires |asel0| == p.width && |bsel0| == |p.cells| && Extends(asel0, asel) && Extends(bsel0, bsel)
    requires FlagsOk(last.flags, last.bits, last.count) && IsWalk(p, last.flags, last.bits, last.count, last.path)
    requires FlagsOk(flags, bits, count) && !(last.count < count < 4) && count >= last.count
    requires |bsel| == |last.path| && forall y :: 0 <= y < |bsel| ==> last.path[y] >= 0
    requires forall y :: 0 <= y < |bsel| && bsel0[y] == -1 ==>
               Settles(p, asel, bsel, last.path, (z: nat, x: nat) => accept(last.round, z, x), last.clashes, y)
    requires forall u :: u in last.clashes ==> u < |asel0| && u in flags && (u in last.flags ==> asel0[u] != -1)
    requires forall u :: u in flags ==> u in last.flags || u in last.clashes
    requires forall u :: u in last.flags ==> u in flags
    requires count == last.count ==> flags == last.flags
    ensures IsOutcome(p, accept, asel0, bsel0, asel, bsel, last)
  {
    hide IsWalk, Settles, IsBestChoice;
    WalkIsBest(p, last.flags, last.bits, last.count, last.path);
    assert flags.Keys == last.flags.Keys + last.clashes;
  }

  /** Without a contest every open position holds exactly the unit the path and the test give it. */
  lemma UncontestedOutcome(p: Problem, accept: (nat, nat, nat) -> bool, asel0: seq<int>, bsel0: seq<int>,
                           asel: seq<int>, bsel: seq<int>, last: LastRound, y: nat)
    requires IsOutcome(p, accept, asel0, bsel0, asel, bsel, last) && last.clashes == {}
    requires y < |bsel0| && bsel0[y] == -1
    ensures var best := Choices(p, last.path)[y];
      bsel[y] == if best >= 0 && accept(last.round, y, best) then best else -1
  {
    hide IsWalk, FlagsOk, Column, IsBestChoice;
    assert Settles(p, asel, bsel, last.path, (z: nat, x: nat) => accept(last.round, z, x), last.clashes, y);
  }

  /** `compare1` without the flip: repeat with one more bit of memory per contested unit, at most while fewer than four
      are flagged. Each repeat starts again from the matching of the previous passes. */
  method Compare(p: Problem, asel0: seq<int>, bsel0: seq<int>, accept: (nat, nat, nat) -> bool)
    returns (asel: seq<int>, bsel: seq<int>, ghost last: LastRound)
    requires |asel0| == p.width && |bsel0| == |p.cells| && MutuallyInverse(asel0, bsel0)
    ensures MutuallyInverse(asel, bsel) && Extends(asel0, asel) && Extends(bsel0, bsel)
    ensures IsOutcome(p, accept, asel0, bsel0, asel, bsel, last)
  {
    hide FlagsOk, Pow2, MutuallyInverse, IsWalk, Extends, IsOutcome, Settles;
    var flags: Flags, power, count, round := map[], 1, 0, 0;
    ghost var bits: map<nat, nat> := map[];
    NoFlags();
    var repeatNeeded := true;
    asel, bsel := asel0, bsel0;
    last := LastRound(flags, bits, count, [], 0, {});
    Unextended(asel0);
    Unextended(bsel0);
    while repeatNeeded
      invariant FlagsOk(flags, bits, count) && power == Pow2(count) && (repeatNeeded ==> count < 4)
      invariant MutuallyInverse(asel, bsel) && Extends(asel0, asel) && Extends(bsel0, bsel)
      invariant !repeatNeeded ==> IsOutcome(p, accept, asel0, bsel0, asel, bsel, last)
      decreases if repeatNeeded then 4 - count else -1
    {
      var path := CheapestWalk(p, flags, power, bits, count);
      ghost var clashes, flags0, bits0, count0 := {}, flags, bits, count;
      var now := round;
      asel, bsel, flags, power, count, repeatNeeded, bits, clashes :=
        AssignRound(p, asel0, bsel0, path, (y: nat, x: nat) => accept(now, y, x), flags, power, count, bits);
      last := LastRound(flags0, bits0, count0, path, now, clashes);
      if !repeatNeeded {
        RoundDecides(p, accept, asel0, bsel0, asel, bsel, last, flags, bits, count);
      }
      round := round + 1;
    }
  }

  lemma NoFlags()
    ensures FlagsOk(map[], map[], 0) && Pow2(0) == 1
  {
  }

  lemma Unextended(sel: seq<int>)
    ensures Extends(sel, sel)
  {
  }

  /** One pass: the outcome seen from the side that plays the columns. */
  ghost predicate IsPass(flip: bool, p: Problem, q: Problem, accept: (nat, nat, nat) -> bool, asel0: seq<int>,
                         bsel0: seq<int>, asel: seq<int>, bsel: seq<int>, last: LastRound)
  {
    if flip then IsOutcome(q, accept, bsel0, asel0, bsel, asel, last)
    else IsOutcome(p, accept, asel0, bsel0, asel, bsel, last)
  }

  /** `compare1`: the wider side plays the columns. `p` is the problem seen from side a, `q` from side b. */
  method Compare1(flip: bool, p: Problem, q: Problem, asel0: seq<int>, bsel0: seq<int>, accept: (nat, nat, nat) -> bool)
    returns (asel: seq<int>, bsel: seq<int>, ghost last: LastRound)
    requires if flip then q.width == |bsel0| && |q.cells| == |asel0| else p.width == |asel0| && |p.cells| == |bsel0|
    requires MutuallyInverse(asel0, bsel0)
    ensures MutuallyInverse(asel, bsel) && Extends(asel0, asel) && Extends(bsel0, bsel)
    ensures IsPass(flip, p, q, accept, asel0, bsel0, asel, bsel, last)
  {
    hide IsOutcome;
    if flip {
      bsel, asel, last := Compare(q, bsel0, asel0, accept);
    } else {
      asel, bsel, last := Compare(p, asel0, bsel0, accept);
    }
  }

  function Unmatched(sel: seq<int>): nat {
    if sel == [] then 0 else Unmatched(sel[..|sel| - 1]) + if sel[|sel| - 1] == -1 then 1 else 0
  }

  method CountUnmatched(sel: seq<int>) returns (remaining: nat)
    ensures remaining == Unmatched(sel) <= |sel|
  {
    remaining := 0;
    for j := 0 to |sel|
      invariant remaining == Unmatched(sel[..j]) <= j
    {
      assert sel[..j + 1][..j] == sel[..j];
      if sel[j] == -1 {
        remaining := remaining + 1;
      }
    }
    assert sel[..|sel|] == sel;
  }

  /** A pass of `compareCore`: the control level it ran at, the matching it left, and its last round. */
  datatype PassLog = PassLog(ctrl: nat, asel: seq<int>, bsel: seq<int>, last: LastRound)

  function AselBefore(passes: seq<PassLog>, asel0: seq<int>, i: nat): seq<int>
    requires i <= |passes|
  {
    if i == 0 then asel0 else passes[i - 1].asel
  }

  function BselBefore(passes: seq<PassLog>, bsel0: seq<int>, i: nat): seq<int>
    requires i <= |passes|
  {
    if i == 0 then bsel0 else passes[i - 1].bsel
  }

  /** Pass `i` matched as many units as the pass before. */
  predicate Stalled(passes: seq<PassLog>, i: nat)
    requires i < |passes|
  {
    i > 0 && Unmatched(passes[i - 1].bsel) == Unmatched(passes[i].bsel)
  }

  /** The reasons to stop after pass `i`. */
  predicate Stops(passes: seq<PassLog>, i: nat, ctrlMax: nat, allOrNothing: bool, sampled: bool)
    requires i < |passes|
  {
    var a, b, left := |passes[i].asel|, |passes[i].bsel|, Unmatched(passes[i].bsel);
    || left == 0 || left <= b - a || (b - left > left && sampled)
    || (Stalled(passes, i) && (passes[i].ctrl >= ctrlMax || allOrNothing))
  }

  ghost predicate PassAt(passes: seq<PassLog>, i: nat, asel0: seq<int>, bsel0: seq<int>, p: (nat, nat) -> Problem,
                         q: (nat, nat) -> Problem, accept: (nat, nat, nat, nat) -> bool)
    requires i < |passes|
  {
    IsPass(|asel0| < |bsel0|, p(i, passes[i].ctrl), q(i, passes[i].ctrl),
      (r: nat, y: nat, x: nat) => accept(i, r, y, x),
           AselBefore(passes, asel0, i), BselBefore(passes, bsel0, i), passes[i].asel, passes[i].bsel, passes[i].last)
  }

  lemma PassStays(passes: seq<PassLog>, more: seq<PassLog>, i: nat, asel0: seq<int>, bsel0: seq<int>,
                  p: (nat, nat) -> Problem, q: (nat, nat) -> Problem, accept: (nat, nat, nat, nat) -> bool)
    requires i < |passes| && passes <= more && PassAt(passes, i, asel0, bsel0, p, q, accept)
    ensures PassAt(more, i, asel0, bsel0, p, q, accept)
  {
    hide IsPass;
    assert more[i] == passes[i];
    assert i > 0 ==> more[i - 1] == passes[i - 1];
  }

  /** Every pass is the outcome of a comparison of the matching before it, at a control level that rises by one after
      each stalled pass, and the passes go on until a reason to stop or for twenty. */
  ghost predicate ArePasses(passes: seq<PassLog>, asel0: seq<int>, bsel0: seq<int>, p: (nat, nat) -> Problem,
                            q: (nat, nat) -> Problem, accept: (nat, nat, nat, nat) -> bool, ctrlMax: nat,
                            allOrNothing: bool, sampled: bool)
  {
    && (forall i: nat :: i < |passes| ==> PassAt(passes, i, asel0, bsel0, p, q, accept))
    && (|passes| > 0 ==> passes[0].ctrl == 0)
    && (forall i :: 0 < i < |passes| ==>
          passes[i].ctrl == passes[i - 1].ctrl + if Stalled(passes, i - 1) then 1 else 0)
    && (forall i :: 0 <= i < |passes| - 1 ==> !Stops(passes, i, ctrlMax, allOrNothing, sampled))
  }

  /** `compareCore`: at most twenty passes, each measuring afresh (`p` and `q` depend on the pass and the control
      level). */
  method CompareCore(asel0: seq<int>, bsel0: seq<int>, p: (nat, nat) -> Problem, q: (nat, nat) -> Problem,
                     accept: (nat, nat, nat, nat) -> bool, ctrlMax: nat, allOrNothing: bool, sampled: bool)
    returns (asel: seq<int>, bsel: seq<int>, ghost passes: seq<PassLog>)
    requires MutuallyInverse(asel0, bsel0)
    requires forall i, ctrl ::
               p(i, ctrl).width == |q(i, ctrl).cells| == |asel0| && |p(i, ctrl).cells| == q(i, ctrl).width == |bsel0|
    ensures MutuallyInverse(asel, bsel) && Extends(asel0, asel) && Extends(bsel0, bsel)
    ensures Unmatched(bsel) <= Unmatched(bsel0)
    ensures ArePasses(passes, asel0, bsel0, p, q, accept, ctrlMax, allOrNothing, sampled)
    ensures asel == AselBefore(passes, asel0, |passes|) && bsel == BselBefore(passes, bsel0, |passes|)
    ensures passes == [] <==> Unmatched(bsel0) == 0
    ensures passes != [] ==> |passes| == 20 || Stops(passes, |passes| - 1, ctrlMax, allOrNothing, sampled)
  {
    hide MutuallyInverse, ArePasses, IsPass, Unmatched, Stops, Stalled;
    asel, bsel, passes := asel0, bsel0, [];
    NoPasses(asel0, bsel0, p, q, accept, ctrlMax, allOrNothing, sampled);
    var rem, ctrl := -1, 0;
    var remaining := CountUnmatched(bsel);
    if remaining == 0 {
      return;
    }
    var flip := |asel| < |bsel|;
    var i := 0;
    var go := true;
    while i < 20 && go
      invariant 0 <= i <= 20 && |passes| == (if go then i else i + 1) <= 20 && ctrl <= ctrlMax
      invariant MutuallyInverse(asel, bsel) && Extends(asel0, asel) && Extends(bsel0, bsel)
      invariant asel == AselBefore(passes, asel0, |passes|) && bsel == BselBefore(passes, bsel0, |passes|)
      invariant ArePasses(passes, asel0, bsel0, p, q, accept, ctrlMax, allOrNothing, sampled)
      invariant i > 0 && go ==>
        rem == Unmatched(passes[i - 1].bsel) && !Stops(passes, i - 1, ctrlMax, allOrNothing, sampled)
      invariant i > 0 && go ==> ctrl == passes[i - 1].ctrl + if Stalled(passes, i - 1) then 1 else 0
      invariant i == 0 ==> ctrl == 0 && rem == -1
      invariant !go ==> Stops(passes, |passes| - 1, ctrlMax, allOrNothing, sampled)
      decreases 20 - i, go
    {
      var now := i;
      ghost var asel1, bsel1, last, before := asel, bsel, LastRound(map[], map[], 0, [], 0, {}), passes;
      asel, bsel, last := Compare1(flip, p(i, ctrl), q(i, ctrl), asel, bsel,
                                   (round: nat, y: nat, x: nat) => accept(now, round, y, x));
      passes := passes + [PassLog(ctrl, asel, bsel, last)];
      OneMorePass(before, passes[i], asel0, bsel0, p, q, accept, ctrlMax, allOrNothing, sampled);
      remaining := CountUnmatched(bsel);
      StopRule(passes, i, ctrlMax, allOrNothing, sampled);
      var processed := |bsel| - remaining;
      if remaining == 0 || remaining <= |bsel| - |asel| || (processed > remaining && sampled) {
        go := false;
      } else if rem == remaining && ctrl < ctrlMax && allOrNothing {
        go := false;
      } else if rem == remaining && ctrl >= ctrlMax {
        go := false;
      } else {
        if rem == remaining {
          ctrl := ctrl + 1;
        }
        rem := remaining;
        i := i + 1;
      }
    }
    ExtendsMatchesMore(bsel0, bsel);
  }

  lemma StopRule(passes: seq<PassLog>, i: nat, ctrlMax: nat, allOrNothing: bool, sampled: bool)
    requires i < |passes|
    ensures Stalled(passes, i) <==> i > 0 && Unmatched(passes[i - 1].bsel) == Unmatched(passes[i].bsel)
    ensures var a, b, left := |passes[i].asel|, |passes[i].bsel|, Unmatched(passes[i].bsel);
      Stops(passes, i, ctrlMax, allOrNothing, sampled) <==>
        || left == 0 || left <= b - a || (b - left > left && sampled)
        || (Stalled(passes, i) && (passes[i].ctrl >= ctrlMax || allOrNothing))
  {
  }

  lemma NoPasses(asel0: seq<int>, bsel0: seq<int>, p: (nat, nat) -> Problem, q: (nat, nat) -> Problem,
                 accept: (nat, nat, nat, nat) -> bool, ctrlMax: nat, allOrNothing: bool, sampled: bool)
    ensures ArePasses([], asel0, bsel0, p, q, accept, ctrlMax, allOrNothing, sampled)
  {
  }

  lemma OneMorePass(passes: seq<PassLog>, pass: PassLog, asel0: seq<int>, bsel0: seq<int>, p: (nat, nat) -> Problem,
                    q: (nat, nat) -> Problem, accept: (nat, nat, nat, nat) -> bool, ctrlMax: nat,
                    allOrNothing: bool, sampled: bool)
    requires ArePasses(passes, asel0, bsel0, p, q, accept, ctrlMax, allOrNothing, sampled)
    requires PassAt(passes + [pass], |passes|, asel0, bsel0, p, q, accept)
    requires var n := |passes|;
      if n == 0 then pass.ctrl == 0
      else !Stops(passes, n - 1, ctrlMax, allOrNothing, sampled)
           && pass.ctrl == passes[n - 1].ctrl + if Stalled(passes, n - 1) then 1 else 0
    ensures ArePasses(passes + [pass], asel0, bsel0, p, q, accept, ctrlMax, allOrNothing, sampled)
  {
    hide PassAt, Unmatched;
    var more := passes + [pass];
    forall i: nat | i < |more| ensures PassAt(more, i, asel0, bsel0, p, q, accept) {
      if i < |passes| {
        PassStays(passes, more, i, asel0, bsel0, p, q, accept);
      }
    }
    forall i: nat | i < |passes|
      ensures more[i] == passes[i] && Stalled(more, i) == Stalled(passes, i)
      ensures Stops(more, i, ctrlMax, allOrNothing, sampled) == Stops(passes, i, ctrlMax, allOrNothing, sampled)
    {
      StopStays(passes, more, i, ctrlMax, allOrNothing, sampled);
    }
    hide Stalled, Stops;
    forall i | 0 < i < |more| ensures more[i].ctrl == more[i - 1].ctrl + if Stalled(more, i - 1) then 1 else 0 {
      assert i < |passes| ==> more[i] == passes[i];
      assert more[i - 1] == passes[i - 1];
    }
    forall i | 0 <= i < |more| - 1 ensures !Stops(more, i, ctrlMax, allOrNothing, sampled) {
      assert more[i] == passes[i];
    }
  }

  lemma StopStays(passes: seq<PassLog>, more: seq<PassLog>, i: nat, ctrlMax: nat, allOrNothing: bool, sampled: bool)
    requires i < |passes| && passes <= more
    ensures more[i] == passes[i] && Stalled(more, i) == Stalled(passes, i)
    ensures Stops(more, i, ctrlMax, allOrNothing, sampled) == Stops(passes, i, ctrlMax, allOrNothing, sampled)
  {
    hide Unmatched;
    assert more[i] == passes[i];
    assert i > 0 ==> more[i - 1] == passes[i - 1];
  }

  lemma {:induction false} ExtendsMatchesMore(sel0: seq<int>, sel: seq<int>)
    requires Extends(sel0, sel)
    ensures Unmatched(sel) <= Unmatched(sel0)
  {
    if sel0 != [] {
      ExtendsMatchesMore(sel0[..|sel0| - 1], sel[..|sel| - 1]);
    }
  }
}
