/** The search for a short list of moves that turns one order into another
    (src/libcoopy_core/Mover.cpp). */
module Mover {
  import opened Common
  import opened MoveLists
  import opened MoveSearch

  // ---------------------------------------------------------------------------
  // The first descent never fails

  /** Elements of the settled front are in place; the first unsettled one is not. */
  lemma FrontIsInPlace(src: seq<int>, dest: seq<int>, m: nat, i: nat)
    requires SameElements(src, dest) && m < |dest| && src[..m] == dest[..m] && src[m] != dest[m] && i <= m
    ensures OutOfPlace(src, dest, i) <==> i == m
  {
    assert dest[i] in dest;
    assert forall j :: 0 <= j < m ==> src[j] == src[..m][j] == dest[j];
    if i < m {
      IndexOfUnique(src, i);
    }
  }

  /** Moving the first unsettled element settles it. */
  lemma StepSettles(src: seq<int>, dest: seq<int>, m: nat)
    requires SameElements(src, dest) && m < |dest| && src[..m] == dest[..m]
    ensures |Step(src, dest, m)| == |dest| && Step(src, dest, m)[..m + 1] == dest[..m + 1]
  {
    assert dest[m] in dest;
    assert forall j :: 0 <= j < m ==> src[j] == src[..m][j] == dest[j];
    var rest := Without(src, dest[m]);
    assert rest[..m] == src[..m];
    if m > 0 {
      assert rest[m - 1] == rest[..m][m - 1] == dest[m - 1];
      WithoutMembers(src, dest[m]);
      IndexOfUnique(rest, m - 1);
    }
    assert dest[..m + 1] == dest[..m] + [dest[m]];
  }

  // ---------------------------------------------------------------------------
  // The search

  /** The search has seen enough to beat any admissible completion that starts with one of the first `n` elements. */
  ghost predicate Beats(solved: bool, best: seq<int>, budget: nat, src: seq<int>, dest: seq<int>, forbidden: seq<int>,
                        n: nat) {
    forall m :: Admissible(src, dest, forbidden, m) && m != [] && IndexOf(dest, m[0]) < n ==>
      solved && |best| <= budget + |m|
  }

  lemma BeatsNone(solved: bool, best: seq<int>, budget: nat, src: seq<int>, dest: seq<int>, forbidden: seq<int>)
    ensures Beats(solved, best, budget, src, dest, forbidden, 0)
  {
  }

  lemma AlreadyBeaten(best: seq<int>, budget: nat, src: seq<int>, dest: seq<int>, forbidden: seq<int>)
    requires |best| <= budget
    ensures Beats(true, best, budget, src, dest, forbidden, |dest|)
  {
  }

  lemma BeatsImproves(solved: bool, best: seq<int>, solved': bool, best': seq<int>, budget: nat, src: seq<int>,
                      dest: seq<int>, forbidden: seq<int>, n: nat)
    requires Beats(solved, best, budget, src, dest, forbidden, n) && (solved ==> solved' && |best'| <= |best|)
    ensures Beats(solved', best', budget, src, dest, forbidden, n)
  {
    forall m | Admissible(src, dest, forbidden, m) && m != [] && IndexOf(dest, m[0]) < n
      ensures solved' && |best'| <= budget + |m|
    {
      assert solved && |best| <= budget + |m|;
    }
  }

  /** Handling element `i` extends the claim by one: it cannot start a completion, or its subtree is beaten. */
  lemma BeatsNext(solved: bool, best: seq<int>, budget: nat, src: seq<int>, dest: seq<int>, forbidden: seq<int>, i: nat)
    requires SameElements(src, dest) && i < |dest| && Beats(solved, best, budget, src, dest, forbidden, i)
    requires var next := Step(src, dest, i);
             || !MayMove(src, dest, forbidden, i)
             || (next == dest && solved && |best| <= budget + 1)
             || (next != dest && Beats(solved, best, budget + 1, next, dest, forbidden + [dest[i]], |dest|))
    ensures Beats(solved, best, budget, src, dest, forbidden, i + 1)
  {
    forall m | Admissible(src, dest, forbidden, m) && m != [] && IndexOf(dest, m[0]) < i + 1
      ensures solved && |best| <= budget + |m|
    {
      if IndexOf(dest, m[0]) == i {
        IndexOfUnique(dest, i);
        assert m[0] == dest[i];
        assert Admissible(Step(src, dest, i), dest, forbidden + [dest[i]], m[1..]);
      }
    }
  }

  /** Every completion of an unfinished order starts with some element. */
  lemma BeatsAll(solved: bool, best: seq<int>, budget: nat, src: seq<int>, dest: seq<int>, forbidden: seq<int>,
                 m: seq<int>)
    requires Beats(solved, best, budget, src, dest, forbidden, |dest|) && src != dest
      && Admissible(src, dest, forbidden, m)
    ensures solved && |best| <= budget + |m|
  {
  }

  /** A node of the search tree: the order reached from `root` by moving the elements of `forbidden`. */
  ghost predicate IsNode(src: seq<int>, dest: seq<int>, order: seq<int>, forbidden: seq<int>, root: seq<int>,
                         base: seq<int>) {
    && SameElements(src, dest) && Distinct(forbidden) && Among(forbidden, dest) && |forbidden| <= |dest|
    && src == Replay(root, dest, forbidden) && order == base + forbidden
  }

  /** A node of the first descent: a front is settled, and only its elements were moved. */
  ghost predicate IsLead(src: seq<int>, dest: seq<int>, forbidden: seq<int>, lead: nat) {
    lead <= |dest| == |src| && src[..lead] == dest[..lead] && Among(forbidden, dest[..lead])
  }

  /** What a recursive call may rely on. */
  lemma EnterChild(src: seq<int>, dest: seq<int>, order: seq<int>, forbidden: seq<int>, i: nat, root: seq<int>,
                   base: seq<int>)
    requires IsNode(src, dest, order, forbidden, root, base) && i < |dest| && dest[i] !in forbidden
    ensures IsNode(Step(src, dest, i), dest, order + [dest[i]], forbidden + [dest[i]], root, base)
    ensures |forbidden| < |dest|
  {
    hide Step;
    StepSameElements(src, dest, i);
    ReplayGrows(root, dest, forbidden, i);
    DistinctWithin(forbidden + [dest[i]], dest);
  }

  lemma ChildIsNode(src: seq<int>, dest: seq<int>, order: seq<int>, forbidden: seq<int>, i: nat, root: seq<int>,
                    base: seq<int>)
    requires IsNode(src, dest, order, forbidden, root, base) && i < |dest| && MayMove(src, dest, forbidden, i)
    ensures IsNode(Step(src, dest, i), dest, order + [dest[i]], forbidden + [dest[i]], root, base)
    ensures |forbidden| < |dest|
  {
    hide IsNode, Step, OutOfPlace;
    EnterChild(src, dest, order, forbidden, i, root, base);
  }

  lemma NodeIsPermuted(src: seq<int>, dest: seq<int>, order: seq<int>, forbidden: seq<int>, root: seq<int>,
                       base: seq<int>)
    requires IsNode(src, dest, order, forbidden, root, base)
    ensures SameElements(src, dest)
  {
  }

  lemma LeafSolves(dest: seq<int>, order: seq<int>, forbidden: seq<int>, root: seq<int>, base: seq<int>)
    requires IsNode(dest, dest, order, forbidden, root, base)
    ensures IsSolution(root, dest, base, order) && |order| == |base| + |forbidden|
  {
    assert order[|base|..] == forbidden;
  }

  lemma LeadIsCommon(src: seq<int>, dest: seq<int>, lead: nat)
    requires SameElements(src, dest) && src != dest && lead <= |dest| && src[..lead] == dest[..lead]
    ensures lead <= CommonPrefix(src, dest) < |dest|
  {
    assert src[..|src|] == src && dest[..|dest|] == dest;
    assert forall j :: 0 <= j < lead ==> src[j] == src[..lead][j] == dest[j];
  }

  lemma FrontMembers(dest: seq<int>, forbidden: seq<int>, lead: nat, m: nat)
    requires Distinct(dest) && lead <= m < |dest| && Among(forbidden, dest[..lead])
    ensures dest[m] !in forbidden && Among(forbidden + [dest[m]], dest[..m + 1])
  {
    forall x | x in forbidden ensures x in dest[..m + 1] && x != dest[m] {
      assert x in dest[..lead];
      var j :| 0 <= j < lead && dest[..lead][j] == x;
      assert dest[..m + 1][j] == x;
    }
    assert dest[..m + 1][m] == dest[m];
  }

  /** On the first descent the first element that may be moved is the first unsettled one, and moving it settles it. */
  lemma FirstDescent(src: seq<int>, dest: seq<int>, forbidden: seq<int>, lead: nat)
    requires SameElements(src, dest) && src != dest && IsLead(src, dest, forbidden, lead)
    ensures var m := CommonPrefix(src, dest);
            && m < |dest| && IsLead(Step(src, dest, m), dest, forbidden + [dest[m]], m + 1)
            && forall i: nat :: i <= m ==> (MayMove(src, dest, forbidden, i) <==> i == m)
  {
    hide OutOfPlace, Step, Among;
    var m := CommonPrefix(src, dest);
    LeadIsCommon(src, dest, lead);
    FrontMembers(dest, forbidden, lead, m);
    StepSettles(src, dest, m);
    forall i: nat | i <= m ensures MayMove(src, dest, forbidden, i) <==> i == m {
      FrontIsInPlace(src, dest, m, i);
    }
  }

  /** The claim after a subtree was searched, and the best possibly improved. */
  lemma BeatsAfterChild(wasSolved: bool, was: seq<int>, midSolved: bool, mid: seq<int>, solved: bool, best: seq<int>,
                        budget: nat, src: seq<int>, dest: seq<int>, forbidden: seq<int>, i: nat)
    requires SameElements(src, dest) && i < |dest|
    requires Beats(wasSolved, was, budget, src, dest, forbidden, i) && (wasSolved ==> solved && |best| <= |was|)
    requires midSolved ==> solved && |best| <= |mid|
    requires var next := Step(src, dest, i);
             if next == dest then solved && |best| <= budget + 1
             else Beats(midSolved, mid, budget + 1, next, dest, forbidden + [dest[i]], |dest|)
    ensures Beats(solved, best, budget, src, dest, forbidden, i + 1)
  {
    hide Beats, Step, SameElements;
    BeatsImproves(wasSolved, was, solved, best, budget, src, dest, forbidden, i);
    if Step(src, dest, i) != dest {
      BeatsImproves(midSolved, mid, solved, best, budget + 1, Step(src, dest, i), dest, forbidden + [dest[i]], |dest|);
    }
    BeatsNext(solved, best, budget, src, dest, forbidden, i);
  }

  // ---------------------------------------------------------------------------
  // How many solutions a search can count

  /** The most a search below `k` elements that may still be moved can count. */
  function Most(k: nat): nat {
    if k == 0 then 0 else k * (1 + Most(k - 1))
  }

  lemma MostOfFour(k: nat)
    requires k <= 4
    ensures Most(k) <= 64
  {
    assert Most(1) == 1 && Most(2) == 4 && Most(3) == 15 && Most(4) == 64;
  }

  /** What one element can add to the count. */
  function MostEach(k: nat): nat {
    if k == 0 then 0 else 1 + Most(k - 1)
  }

  lemma {:induction false} FreeCounts(dest: seq<int>, forbidden: seq<int>, n: nat)
    requires n <= |dest| && Distinct(dest)
    ensures Free(dest, forbidden, n) == |Elements(dest[..n]) - Elements(forbidden)|
  {
    hide Elements, Distinct;
    if n == 0 {
      NoFront(dest, Elements(forbidden));
    } else {
      FreeCounts(dest, forbidden, n - 1);
      FrontGrows(dest, forbidden, n - 1);
      OneMore(Elements(dest[..n - 1]), Elements(forbidden), dest[n - 1]);
    }
  }

  lemma NoFront(dest: seq<int>, without: set<int>)
    ensures |Elements(dest[..0]) - without| == 0
  {
    assert Elements(dest[..0]) - without == {};
  }

  lemma FrontGrows(dest: seq<int>, forbidden: seq<int>, n: nat)
    requires n < |dest| && Distinct(dest)
    ensures dest[n] !in Elements(dest[..n]) && Elements(dest[..n + 1]) == Elements(dest[..n]) + {dest[n]}
    ensures dest[n] in forbidden <==> dest[n] in Elements(forbidden)
  {
    NewToFront(dest, {}, n);
    assert {} + Elements(dest[..n]) == Elements(dest[..n]) && {} + Elements(dest[..n + 1]) == Elements(dest[..n + 1]);
  }

  lemma OneMore(was: set<int>, without: set<int>, x: int)
    requires x !in was
    ensures |was + {x} - without| == |was - without| + if x in without then 0 else 1
  {
    if x in without {
      assert was + {x} - without == was - without;
    } else {
      assert was + {x} - without == (was - without) + {x};
    }
  }

  lemma FreeIsRest(src: seq<int>, dest: seq<int>, order: seq<int>, forbidden: seq<int>, root: seq<int>, base: seq<int>)
    requires IsNode(src, dest, order, forbidden, root, base)
    ensures Free(dest, forbidden, |dest|) == |dest| - |forbidden|
  {
    hide Replay, Free;
    FreeCounts(dest, forbidden, |dest|);
    assert dest[..|dest|] == dest;
    UnmovedCount(dest, forbidden);
  }

  /** The bound of the loop turns from one element to the next. */
  lemma CountGrows(start: nat, now: nat, next: nat, dest: seq<int>, forbidden: seq<int>, i: nat)
    requires i < |dest| && |forbidden| <= |dest|
    requires now <= start + Free(dest, forbidden, i) * MostEach(|dest| - |forbidden|)
    requires next <= now + if dest[i] in forbidden then 0 else MostEach(|dest| - |forbidden|)
    ensures next <= start + Free(dest, forbidden, i + 1) * MostEach(|dest| - |forbidden|)
  {
    Times(Free(dest, forbidden, i), MostEach(|dest| - |forbidden|));
  }

  lemma Times(n: nat, k: nat)
    ensures (n + 1) * k == n * k + k && 0 * k == 0
  {
  }

  lemma CountEnds(dest: seq<int>, forbidden: seq<int>)
    requires |forbidden| <= |dest| && Free(dest, forbidden, |dest|) == |dest| - |forbidden|
    ensures Free(dest, forbidden, |dest|) * MostEach(|dest| - |forbidden|) == Most(|dest| - |forbidden|)
    ensures Free(dest, forbidden, 0) * MostEach(|dest| - |forbidden|) == 0
  {
    Times(0, MostEach(|dest| - |forbidden|));
  }

  lemma EachIsChild(dest: seq<int>, forbidden: seq<int>, i: nat)
    requires |forbidden| < |dest| && i < |dest| && dest[i] !in forbidden
    ensures MostEach(|dest| - |forbidden|) == 1 + Most(|dest| - |forbidden + [dest[i]]|)
  {
  }

  lemma MayMoveIsFree(src: seq<int>, dest: seq<int>, forbidden: seq<int>, i: nat)
    requires i < |dest| && MayMove(src, dest, forbidden, i)
    ensures dest[i] !in forbidden
  {
  }

  class Mover {
    var solutions: nat
    var globalSolved: bool
    var globalBest: seq<int>

    function State(): Shared
      reads this
    {
      Shared(solutions, globalSolved, globalBest)
    }

    constructor ()
      ensures !globalSolved
    {
      solutions, globalSolved, globalBest := 0, false, [];
    }

    /** The loop body of `move` for an element that may be moved: search below it, keep the better result. */
    method Try(src: seq<int>, dest: seq<int>, order0: seq<int>, forbidden: seq<int>, depth: nat, i: nat,
               bestOrder0: seq<int>, solved0: bool, ghost root: seq<int>, ghost base: seq<int>, ghost lead: int)
      returns (bestOrder: seq<int>, solved: bool)
      requires IsNode(src, dest, order0, forbidden, root, base) && depth == |forbidden| <= |dest| && src != dest
      requires i < |dest| && MayMove(src, dest, forbidden, i)
      requires globalSolved ==> IsSolution(root, dest, base, globalBest)
      requires solved0 ==> globalSolved && |globalBest| <= |bestOrder0|
      requires lead >= 0 ==> IsLead(src, dest, forbidden, lead) && !globalSolved && solutions == 0
                             && i == CommonPrefix(src, dest)
      requires solutions <= 100 ==> Beats(globalSolved, globalBest, |base| + depth, src, dest, forbidden, i)
      modifies this
      ensures Tried(old(State()), src, dest, order0, forbidden, depth, i, bestOrder0, solved0) ==
              Tried(State(), src, dest, order0, forbidden, depth, i + 1, bestOrder, solved)
      ensures globalSolved ==> IsSolution(root, dest, base, globalBest)
      ensures solved ==> globalSolved && |globalBest| <= |bestOrder|
      ensures lead >= 0 || solved0 ==> solved
      ensures old(solutions) <= solutions <= old(solutions) + MostEach(|dest| - |forbidden|)
      ensures old(globalSolved) ==> globalSolved && |globalBest| <= |old(globalBest)|
      ensures solutions <= 100 ==> Beats(globalSolved, globalBest, |base| + depth, src, dest, forbidden, i + 1)
      decreases |dest| - |forbidden|, 0
    {
      hide *;
      bestOrder, solved := bestOrder0, solved0;
      StateIs();
      TriedNext(State(), src, dest, order0, forbidden, depth, i, bestOrder0, solved0);
      NodeIsPermuted(src, dest, order0, forbidden, root, base);
      ChildIsNode(src, dest, order0, forbidden, i, root, base);
      MayMoveIsFree(src, dest, forbidden, i);
      EachIsChild(dest, forbidden, i);
      if lead >= 0 {
        FirstDescent(src, dest, forbidden, lead);
      }
      var nsrc, norder0, nforbidden := Step(src, dest, i), order0 + [dest[i]], forbidden + [dest[i]];
      var found, norder := Search(nsrc, dest, norder0, nforbidden, depth + 1, root, base,
                                  if lead >= 0 then i + 1 else -1);
      ghost var midSolved, mid := globalSolved, globalBest;
      StateIs();
      ImprovedIs(State(), norder);
      if found && nsrc == dest && norder == norder0 {
        LeafSolves(dest, norder0, nforbidden, root, base);
      }
      if found && (|norder| < |bestOrder| || !solved) {
        bestOrder, solved := norder, true;
        solutions := solutions + 1;
        if |bestOrder| < |globalBest| || !globalSolved {
          globalBest, globalSolved := norder, true;
        }
      }
      StateIs();
      if solutions <= 100 {
        BeatsAfterChild(old(globalSolved), old(globalBest), midSolved, mid, globalSolved, globalBest,
                        |base| + depth, src, dest, forbidden, i);
      }
    }

    /** `move` at any depth. `root` and `base` are the source order and the move list of the top-level call;
        `lead` is the length of the settled front on the first descent, -1 elsewhere. */
    method Search(src: seq<int>, dest: seq<int>, order0: seq<int>, forbidden: seq<int>, depth: nat,
                  ghost root: seq<int>, ghost base: seq<int>, ghost lead: int)
      returns (ok: bool, order: seq<int>)
      requires IsNode(src, dest, order0, forbidden, root, base) && depth == |forbidden| <= |dest|
      requires depth > 0 && globalSolved ==> IsSolution(root, dest, base, globalBest)
      requires lead >= 0 ==> IsLead(src, dest, forbidden, lead) && (depth == 0 || (!globalSolved && solutions == 0))
      modifies this
      ensures Outcome(State(), ok, order) == Searched(old(State()), src, dest, order0, forbidden, depth)
      ensures globalSolved ==> IsSolution(root, dest, base, globalBest)
      ensures ok ==> IsSolution(root, dest, base, order)
      ensures lead >= 0 ==> ok
      ensures depth == 0 && src == dest ==> order == order0
      ensures ok && src != dest ==> globalSolved && order == globalBest
      ensures depth > 0 ==> old(solutions) <= solutions <= old(solutions) + Most(|dest| - |forbidden|)
      ensures depth == 0 ==> solutions <= Most(|dest|)
      ensures depth > 0 && old(globalSolved) ==> globalSolved && |globalBest| <= |old(globalBest)|
      ensures solutions <= 100 && src == dest ==>
                (ok && order == order0) || (globalSolved && |globalBest| <= |base| + depth)
      ensures solutions <= 100 && src != dest ==>
        Beats(globalSolved, globalBest, |base| + depth, src, dest, forbidden, |dest|)
      decreases |dest| - |forbidden|, 1
    {
      hide *;
      order := order0;
      StateIs();
      SearchedIs(State(), src, dest, order0, forbidden, depth);
      if depth == 0 {
        globalSolved, solutions := false, 0;
      }
      StateIs();
      if globalSolved && depth > |globalBest| {
        AlreadyBeaten(globalBest, |base| + depth, src, dest, forbidden);
        return false, order;
      }
      if solutions > 100 {
        return false, order;
      }
      if src == dest {
        LeafSolves(dest, order, forbidden, root, base);
        return true, order;
      }
      var solved, bestOrder := false, [];
      NodeIsPermuted(src, dest, order0, forbidden, root, base);
      FreeIsRest(src, dest, order0, forbidden, root, base);
      CountEnds(dest, forbidden);
      ghost var start, first := solutions, State();
      BeatsNone(globalSolved, globalBest, |base| + depth, src, dest, forbidden);
      ghost var m := CommonPrefix(src, dest);
      if lead >= 0 {
        FirstDescent(src, dest, forbidden, lead);
      }
      for i := 0 to |dest|
        invariant Tried(first, src, dest, order0, forbidden, depth, 0, [], false) ==
                  Tried(State(), src, dest, order0, forbidden, depth, i, bestOrder, solved)
        invariant globalSolved ==> IsSolution(root, dest, base, globalBest)
        invariant solved ==> globalSolved && |globalBest| <= |bestOrder|
        invariant lead >= 0 ==> (if i <= m then !globalSolved && solutions == 0 && !solved else solved)
        invariant start <= solutions <= start + Free(dest, forbidden, i) * MostEach(|dest| - |forbidden|)
        invariant depth > 0 && old(globalSolved) ==> globalSolved && |globalBest| <= |old(globalBest)|
        invariant solutions <= 100 ==> Beats(globalSolved, globalBest, |base| + depth, src, dest, forbidden, i)
      {
        ghost var now := solutions;
        if !MayMove(src, dest, forbidden, i) {
          if solutions <= 100 {
            BeatsNext(globalSolved, globalBest, |base| + depth, src, dest, forbidden, i);
          }
          CountGrows(start, now, now, dest, forbidden, i);
          TriedNext(State(), src, dest, order0, forbidden, depth, i, bestOrder, solved);
          continue;
        }
        MayMoveIsFree(src, dest, forbidden, i);
        ghost var lead' := if lead >= 0 && i == m then lead else -1;
        bestOrder, solved := Try(src, dest, order0, forbidden, depth, i, bestOrder, solved, root, base, lead');
        CountGrows(start, now, solutions, dest, forbidden, i);
      }
      TriedAll(State(), src, dest, order0, forbidden, depth, bestOrder, solved);
      StateIs();
      if !solved {
        return false, order;
      }
      return true, globalBest;
    }

    lemma StateIs()
      ensures State() == Shared(solutions, globalSolved, globalBest)
    {
    }

    /** The public entry point: it always succeeds, and what it appends to `order0` turns `src` into `dest`, moving no
        element twice. Unless the cap on solutions was hit no list of moves is shorter, and up to four elements
        never hit it. */
    method Move(src: seq<int>, dest: seq<int>, order0: seq<int>) returns (ok: bool, order: seq<int>)
      requires SameElements(src, dest)
      modifies this
      ensures Outcome(State(), ok, order) == Searched(old(State()), src, dest, order0, [], 0)
      ensures ok && IsSolution(src, dest, order0, order)
      ensures solutions <= 100 ==> IsShortest(src, dest, order0, order)
      ensures |dest| <= 4 ==> solutions <= 64 && IsShortest(src, dest, order0, order)
    {
      hide Searched, Tried;
      assert order0 + [] == order0;
      ok, order := Search(src, dest, order0, [], 0, src, order0, 0);
      if |dest| <= 4 {
        MostOfFour(|dest|);
      }
      if solutions <= 100 {
        forall m | Admissible(src, dest, [], m) ensures |order| <= |order0| + |m| {
          if src != dest {
            BeatsAll(globalSolved, globalBest, |order0|, src, dest, [], m);
          }
        }
        UnbeatenIsShortest(src, dest, order0, order);
      }
    }
  }
}
