/** The search of src/libcoopy_core/Mover.cpp as a function, and an input on which its cap on solutions makes it
    settle for more moves than are needed. */
module MoveSearch {
  import opened Common
  import opened MoveLists

  /** The elements among the first `n` that may still be moved. */
  function Free(dest: seq<int>, forbidden: seq<int>, n: nat): nat
    requires n <= |dest|
  {
    if n == 0 then 0 else Free(dest, forbidden, n - 1) + if dest[n - 1] in forbidden then 0 else 1
  }

  lemma {:induction false} FreeShrinks(dest: seq<int>, forbidden: seq<int>, x: int, n: nat)
    requires n <= |dest| && x !in forbidden
    ensures Free(dest, forbidden + [x], n) <= Free(dest, forbidden, n)
    ensures x in dest[..n] ==> Free(dest, forbidden + [x], n) < Free(dest, forbidden, n)
  {
    if n > 0 {
      FreeShrinks(dest, forbidden, x, n - 1);
      assert dest[..n] == dest[..n - 1] + [dest[n - 1]];
    }
  }

  lemma FreeShrinksAt(dest: seq<int>, forbidden: seq<int>, i: nat)
    requires i < |dest| && dest[i] !in forbidden
    ensures Free(dest, forbidden + [dest[i]], |dest|) < Free(dest, forbidden, |dest|)
  {
    assert dest[..|dest|] == dest;
    FreeShrinks(dest, forbidden, dest[i], |dest|);
  }

  /** The fields all calls share: `solutions`, `global_solved` and `global_best_order`. */
  datatype Shared = Shared(solutions: nat, solved: bool, order: seq<int>)

  datatype Outcome = Outcome(shared: Shared, ok: bool, order: seq<int>)

  /** `move` at any depth. */
  function Searched(start: Shared, src: seq<int>, dest: seq<int>, order: seq<int>, forbidden: seq<int>,
                    depth: nat): Outcome
    decreases Free(dest, forbidden, |dest|), |dest| + 1
  {
    var g := if depth == 0 then start.(solved := false, solutions := 0) else start;
    if g.solved && depth > |g.order| then Outcome(g, false, order)
    else if g.solutions > 100 then Outcome(g, false, order)
    else if src == dest then Outcome(g, true, order)
    else
      var t := Tried(g, src, dest, order, forbidden, depth, 0, [], false);
      Outcome(t.shared, t.ok, if t.ok then t.shared.order else order)
  }

  /** The better of what a node has and what the search below an element found. */
  function Improved(g: Shared, found: seq<int>): Shared {
    var h := g.(solutions := g.solutions + 1);
    if |found| < |h.order| || !h.solved then h.(order := found, solved := true) else h
  }

  /** The loop of `move` from element `i` on; `ok` and `order` are its local result. */
  function Tried(g: Shared, src: seq<int>, dest: seq<int>, order: seq<int>, forbidden: seq<int>, depth: nat, i: nat,
                 best: seq<int>, solved: bool): Outcome
    requires i <= |dest|
    decreases Free(dest, forbidden, |dest|), |dest| - i
  {
    if i == |dest| then Outcome(g, solved, best)
    else if !MayMove(src, dest, forbidden, i) then Tried(g, src, dest, order, forbidden, depth, i + 1, best, solved)
    else
      FreeShrinksAt(dest, forbidden, i);
      var c := Searched(g, Step(src, dest, i), dest, order + [dest[i]], forbidden + [dest[i]], depth + 1);
      if c.ok && (|c.order| < |best| || !solved) then
        Tried(Improved(c.shared, c.order), src, dest, order, forbidden, depth, i + 1, c.order, true)
      else Tried(c.shared, src, dest, order, forbidden, depth, i + 1, best, solved)
  }

  lemma {:induction false} TriedSkips(g: Shared, src: seq<int>, dest: seq<int>, order: seq<int>, forbidden: seq<int>,
                                      depth: nat,
                                      i: nat, j: nat, best: seq<int>, solved: bool)
    requires i <= j <= |dest| && forall k: nat :: i <= k < j ==> !MayMove(src, dest, forbidden, k)
    ensures Tried(g, src, dest, order, forbidden, depth, i, best, solved) ==
      Tried(g, src, dest, order, forbidden, depth, j, best, solved)
    decreases j - i
  {
    hide MayMove, Step;
    if i < j {
      TriedSkips(g, src, dest, order, forbidden, depth, i + 1, j, best, solved);
    }
  }

  lemma TriedNext(g: Shared, src: seq<int>, dest: seq<int>, order: seq<int>, forbidden: seq<int>, depth: nat, i: nat,
                  best: seq<int>, solved: bool)
    requires i < |dest|
    ensures Tried(g, src, dest, order, forbidden, depth, i, best, solved) ==
      if !MayMove(src, dest, forbidden, i) then Tried(g, src, dest, order, forbidden, depth, i + 1, best, solved)
      else
        var c := Searched(g, Step(src, dest, i), dest, order + [dest[i]], forbidden + [dest[i]], depth + 1);
        if c.ok && (|c.order| < |best| || !solved) then
          Tried(Improved(c.shared, c.order), src, dest, order, forbidden, depth, i + 1, c.order, true)
        else Tried(c.shared, src, dest, order, forbidden, depth, i + 1, best, solved)
  {
    hide Step, MayMove, Free;
  }

  lemma TriedAll(g: Shared, src: seq<int>, dest: seq<int>, order: seq<int>, forbidden: seq<int>, depth: nat,
                 best: seq<int>, solved: bool)
    ensures Tried(g, src, dest, order, forbidden, depth, |dest|, best, solved) == Outcome(g, solved, best)
  {
    hide Step, MayMove, Free;
  }

  lemma SearchedIs(start: Shared, src: seq<int>, dest: seq<int>, order: seq<int>, forbidden: seq<int>, depth: nat)
    ensures Searched(start, src, dest, order, forbidden, depth) ==
      var g := if depth == 0 then start.(solved := false, solutions := 0) else start;
      if (g.solved && depth > |g.order|) || g.solutions > 100 then Outcome(g, false, order)
      else if src == dest then Outcome(g, true, order)
      else
        var t := Tried(g, src, dest, order, forbidden, depth, 0, [], false);
        Outcome(t.shared, t.ok, if t.ok then t.shared.order else order)
  {
    hide Step, MayMove, Free;
  }

  lemma ImprovedIs(g: Shared, found: seq<int>)
    ensures Improved(g, found) ==
      if |found| < |g.order| || !g.solved then Shared(g.solutions + 1, true, found)
      else Shared(g.solutions + 1, g.solved, g.order)
  {
  }

  // ---------------------------------------------------------------------------
  // A rotation of 53 elements or more

  function Iota(n: nat): (s: seq<int>)
    ensures |s| == n && forall i :: 0 <= i < n ==> s[i] == i
  {
    seq(n, i => i)
  }

  /** The last of `n` elements stands at place `d`. */
  function Rotated(n: nat, d: nat): (s: seq<int>)
    requires d < n
    ensures |s| == n && forall i :: 0 <= i < n ==> s[i] == if i < d then i else if i == d then n - 1 else i - 1
  {
    seq(n, i => if i < d then i else if i == d then n - 1 else i - 1)
  }

  lemma RotatedIndex(n: nat, d: nat, i: nat)
    requires d < n && i < n
    ensures i in Rotated(n, d) && IndexOf(Rotated(n, d), i) == if i == n - 1 then d else if i < d then i else i + 1
  {
    var s, k := Rotated(n, d), if i == n - 1 then d else if i < d then i else i + 1;
    assert s[k] == i;
    IndexOfUnique(s, k);
  }

  /** Only the first unsettled element and the last one are out of place. */
  lemma RotatedMoves(n: nat, d: nat, i: nat)
    requires d < n - 1 && i < n
    ensures MayMove(Rotated(n, d), Iota(n), Iota(d), i) <==> i == d || i == n - 1
  {
    RotatedIndex(n, d, i);
    assert i in Iota(d) <==> i < d by {
      if i < d {
        assert Iota(d)[i] == i;
      }
    }
  }

  /** Moving the first unsettled element pushes the last one on. */
  lemma FirstSettles(n: nat, d: nat)
    requires d < n - 1
    ensures Step(Rotated(n, d), Iota(n), d) == Rotated(n, d + 1)
  {
    var s := Rotated(n, d);
    WithoutAt(s, d, d + 1);
    RestIs(n, d);
    Reassembled(n, d);
    hide Without, Rotated;
    StepAfter(s, Iota(n), d, s[..d + 1] + s[d + 2..]);
  }

  /** A move, given what is left without its element and that its predecessor stands right there. */
  lemma StepAfter(s: seq<int>, dest: seq<int>, i: nat, r: seq<int>)
    requires i < |dest| && dest[i] in s && Without(s, dest[i]) == r && Distinct(r) && i <= |r|
    requires i > 0 ==> r[i - 1] == dest[i - 1]
    ensures Step(s, dest, i) == if i == 0 then [dest[0]] + r else r[..i] + [dest[i]] + r[i..]
  {
    hide Without;
    if i > 0 {
      assert r[i - 1] in r;
      IndexOfUnique(r, i - 1);
    }
  }

  lemma RestIs(n: nat, d: nat)
    requires d < n - 1
    ensures var s := Rotated(n, d); var r := s[..d + 1] + s[d + 2..];
      |r| == n - 1 && forall i :: 0 <= i < n - 1 ==> r[i] == if i < d then i else if i == d then n - 1 else i
  {
  }

  lemma Reassembled(n: nat, d: nat)
    requires d < n - 1
    ensures var s := Rotated(n, d); var r := s[..d + 1] + s[d + 2..];
      (if d == 0 then [0] + r else r[..d] + [d] + r[d..]) == Rotated(n, d + 1)
  {
    var s := Rotated(n, d);
    var r := s[..d + 1] + s[d + 2..];
    RestIs(n, d);
    var t := if d == 0 then [0] + r else r[..d] + [d] + r[d..];
    var u := Rotated(n, d + 1);
    assert |t| == |u|;
    forall i | 0 <= i < n ensures t[i] == u[i] {
    }
  }

  lemma WithoutAt(s: seq<int>, x: int, k: nat)
    requires Distinct(s) && k < |s| && s[k] == x
    ensures x in s && Without(s, x) == s[..k] + s[k + 1..] && Distinct(Without(s, x))
  {
    IndexOfUnique(s, k);
    WithoutMembers(s, x);
  }

  /** Moving the last element settles everything. */
  lemma LastSettles(n: nat, d: nat)
    requires d < n - 1
    ensures Step(Rotated(n, d), Iota(n), n - 1) == Iota(n)
  {
    var s := Rotated(n, d);
    WithoutAt(s, n - 1, d);
    WithoutLast(n, d);
    hide Without, Rotated;
    StepAfter(s, Iota(n), n - 1, Iota(n - 1));
    assert Iota(n - 1)[..n - 1] + [n - 1] + Iota(n - 1)[n - 1..] == Iota(n);
  }

  lemma WithoutLast(n: nat, d: nat)
    requires d < n - 1
    ensures var s := Rotated(n, d); s[..d] + s[d + 1..] == Iota(n - 1)
  {
    var s := Rotated(n, d);
    var q := s[..d] + s[d + 1..];
    assert |q| == n - 1;
    forall i | 0 <= i < n - 1 ensures q[i] == i {
    }
  }

  lemma RotatedSteps(n: nat, d: nat)
    requires d < n - 1
    ensures Step(Rotated(n, d), Iota(n), d) == Rotated(n, d + 1)
    ensures Step(Rotated(n, d), Iota(n), n - 1) == Iota(n) == Rotated(n, n - 1)
    ensures Rotated(n, d) != Iota(n)
    ensures Iota(d) + [Iota(n)[d]] == Iota(d + 1)
  {
    hide Step;
    FirstSettles(n, d);
    LastSettles(n, d);
    assert Rotated(n, d)[d] != Iota(n)[d];
  }

  /** What the first descent through the rotation makes of the `k` elements still to settle. */
  ghost predicate RotationOutcome(r: Outcome, n: nat, k: nat) {
    && r.ok && r.shared.solved && r.order == r.shared.order
    && |r.order| == (if k <= 51 then n - k else n - 51)
    && r.shared.solutions == (if k <= 51 then 2 * k - 1 else k + 50)
  }

  lemma {:induction false} RotationSearched(g: Shared, n: nat, d: nat)
    requires d < n - 1 && !g.solved && g.solutions == 0
    ensures RotationOutcome(Searched(g, Rotated(n, d), Iota(n), Iota(d), Iota(d), d), n, n - 1 - d)
    decreases n - d
  {
    hide Step, MayMove, Free;
    var src, dest, f := Rotated(n, d), Iota(n), Iota(d);
    RotatedSteps(n, d);
    forall i: nat | i < n ensures MayMove(src, dest, f, i) <==> i == d || i == n - 1 {
      RotatedMoves(n, d, i);
    }
    TriedSkips(g, src, dest, f, f, d, 0, d, [], false);
    var c := Searched(g, Rotated(n, d + 1), dest, Iota(d + 1), Iota(d + 1), d + 1);
    if d < n - 2 {
      RotationSearched(g, n, d + 1);
    } else {
      assert c == Outcome(g, true, Iota(n - 1));
    }
    var h := Improved(c.shared, c.order);
    TriedSkips(h, src, dest, f, f, d, d + 1, n - 1, c.order, true);
    RotationEnds(h, n, d, c.order);
  }

  /** The second and last child of a node: the last element goes straight to its place. */
  lemma RotationEnds(h: Shared, n: nat, d: nat, best: seq<int>)
    requires d < n - 1 && h.solved && MayMove(Rotated(n, d), Iota(n), Iota(d), n - 1)
    requires d + 1 <= |h.order|
    ensures var t := Tried(h, Rotated(n, d), Iota(n), Iota(d), Iota(d), d, n - 1, best, true);
      if h.solutions > 100 || d + 1 >= |best| then t == Outcome(h, true, best)
      else t == Outcome(Improved(h, Iota(d) + [n - 1]), true, Iota(d) + [n - 1])
  {
    hide Step, MayMove, Free;
    RotatedSteps(n, d);
  }

  /** The property that fails: on 53 elements or more, rotated by one, the search settles for `n - 51` moves where
      moving the last element is enough. */
  lemma RotationIsNotShortest(g: Shared, n: nat)
    requires n >= 53
    ensures var r := Searched(g, Rotated(n, 0), Iota(n), [], [], 0);
      r.ok && r.shared.solutions > 100 && |r.order| == n - 51 > 1
    ensures Among([n - 1], Iota(n)) && Replay(Rotated(n, 0), Iota(n), [n - 1]) == Iota(n)
  {
    hide Step, MayMove, Free;
    assert Iota(0) == [];
    var h := g.(solved := false, solutions := 0);
    RotationSearched(h, n, 0);
    RotatedSteps(n, 0);
    assert Iota(n)[n - 1] == n - 1;
    IndexOfUnique(Iota(n), n - 1);
    assert [n - 1][..0] == [];
  }
}
