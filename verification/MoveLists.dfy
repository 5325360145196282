/** Lists of moves that turn one order into another (src/libcoopy_core/Mover.cpp). A move takes an element out and
    puts it back right after the element that precedes it in the destination, or at the front. How few moves there can
    be is decided by how many elements already stand in the right order among themselves. */
module MoveLists {
  import opened Common

  /** `s` and `t` list the same elements, each once. */
  ghost predicate SameElements(s: seq<int>, t: seq<int>) {
    Distinct(s) && Distinct(t) && |s| == |t| && forall x :: x in s <==> x in t
  }

  function IndexOf(s: seq<int>, x: int): (k: nat)
    requires x in s
    ensures k < |s| && s[k] == x && x !in s[..k]
  {
    if s[0] == x then 0 else 1 + IndexOf(s[1..], x)
  }

  function Without(s: seq<int>, x: int): seq<int>
    requires x in s
  {
    var k := IndexOf(s, x);
    s[..k] + s[k + 1..]
  }

  /** Moving `dest[i]` to where the destination wants it. */
  function Step(src: seq<int>, dest: seq<int>, i: nat): seq<int>
    requires i < |dest|
  {
    if dest[i] !in src then src else
    var rest := Without(src, dest[i]);
    if i == 0 then [dest[0]] + rest
    else if dest[i - 1] in rest then
      var j := IndexOf(rest, dest[i - 1]);
      rest[..j + 1] + [dest[i]] + rest[j + 1..]
    else rest
  }

  /** `dest[i]` does not stand right after its predecessor. */
  predicate OutOfPlace(src: seq<int>, dest: seq<int>, i: nat)
    requires i < |dest|
  {
    if dest[i] !in src then false else
    var k := IndexOf(src, dest[i]);
    if k == 0 then i != 0
    else if i == 0 then true
    else src[k - 1] != dest[i - 1]
  }

  lemma {:induction false} IndexOfUnique(s: seq<int>, k: nat)
    requires Distinct(s) && k < |s|
    ensures IndexOf(s, s[k]) == k
  {
  }

  lemma WithoutMembers(s: seq<int>, x: int)
    requires Distinct(s) && x in s
    ensures var r := Without(s, x);
            |r| == |s| - 1 && Distinct(r) && forall y :: y in r <==> y in s && y != x
  {
    var k := IndexOf(s, x);
    var r := Without(s, x);
    forall y | y in s && y != x ensures y in r {
      var j :| 0 <= j < |s| && s[j] == y;
      assert r[if j < k then j else j - 1] == y;
    }
  }

  lemma InsertMembers(r: seq<int>, j: nat, x: int)
    requires Distinct(r) && j <= |r| && x !in r
    ensures var t := r[..j] + [x] + r[j..];
            |t| == |r| + 1 && Distinct(t) && forall y :: y in t <==> y in r || y == x
  {
    var t := r[..j] + [x] + r[j..];
    forall y | y in r || y == x ensures y in t {
      if y in r {
        var i :| 0 <= i < |r| && r[i] == y;
        assert t[if i < j then i else i + 1] == y;
      } else {
        assert t[j] == x;
      }
    }
  }

  lemma SameIsDistinct(src: seq<int>, dest: seq<int>)
    requires SameElements(src, dest)
    ensures Distinct(src) && Distinct(dest) && |src| == |dest| && forall x :: x in src <==> x in dest
  {
  }

  lemma MemberOfSame(src: seq<int>, dest: seq<int>, i: nat)
    requires SameElements(src, dest) && i < |dest|
    ensures dest[i] in src
  {
    var x := dest[i];
    assert x in dest;
  }

  /** The place a move puts its element in, among the other elements. */
  lemma StepIsInsert(src: seq<int>, dest: seq<int>, i: nat) returns (rest: seq<int>, j: nat)
    requires SameElements(src, dest) && i < |dest|
    ensures rest == Without(src, dest[i]) && Distinct(rest) && dest[i] !in rest && j <= |rest|
    ensures forall y :: y in rest <==> y in src && y != dest[i]
    ensures Step(src, dest, i) == rest[..j] + [dest[i]] + rest[j..]
    ensures if i == 0 then j == 0 else dest[i - 1] in rest && j == IndexOf(rest, dest[i - 1]) + 1
  {
    var x := dest[i];
    assert x in dest;
    WithoutMembers(src, x);
    rest := Without(src, x);
    hide Without;
    if i == 0 {
      j := 0;
      assert rest[..0] + [x] + rest[0..] == [x] + rest;
    } else {
      var w := dest[i - 1];
      assert w in dest && w != x;
      j := IndexOf(rest, w) + 1;
    }
  }

  /** A move permutes. */
  lemma StepSameElements(src: seq<int>, dest: seq<int>, i: nat)
    requires SameElements(src, dest) && i < |dest|
    ensures SameElements(Step(src, dest, i), dest)
  {
    hide Step, Without;
    var rest, j := StepIsInsert(src, dest, i);
    InsertMembers(rest, j, dest[i]);
    MemberOfSame(src, dest, i);
    WithoutMembers(src, dest[i]);
  }

  // ---------------------------------------------------------------------------
  // Replaying a list of moves

  function StepOf(src: seq<int>, dest: seq<int>, x: int): seq<int>
    requires x in dest
  {
    Step(src, dest, IndexOf(dest, x))
  }

  ghost predicate Among(moves: seq<int>, dest: seq<int>) {
    forall x :: x in moves ==> x in dest
  }

  /** The order reached by making the moves one after the other. */
  ghost function Replay(src: seq<int>, dest: seq<int>, moves: seq<int>): seq<int>
    requires Among(moves, dest)
  {
    if moves == [] then src
    else StepOf(Replay(src, dest, moves[..|moves| - 1]), dest, moves[|moves| - 1])
  }

  lemma ReplayGrows(src: seq<int>, dest: seq<int>, moves: seq<int>, i: nat)
    requires Among(moves, dest) && i < |dest| && Distinct(dest)
    ensures Among(moves + [dest[i]], dest)
    ensures Replay(src, dest, moves + [dest[i]]) == Step(Replay(src, dest, moves), dest, i)
  {
    var more := moves + [dest[i]];
    assert forall x :: x in more ==> x in moves || x == dest[i];
    assert more[..|moves|] == moves;
    IndexOfUnique(dest, i);
  }

  /** A list of moves found for `base`: each element moved at most once, and the destination reached. */
  ghost predicate IsSolution(root: seq<int>, dest: seq<int>, base: seq<int>, order: seq<int>) {
    && |base| <= |order| && order[..|base|] == base
    && Distinct(order[|base|..]) && Among(order[|base|..], dest)
    && Replay(root, dest, order[|base|..]) == dest
  }

  predicate MayMove(src: seq<int>, dest: seq<int>, forbidden: seq<int>, i: nat)
    requires i < |dest|
  {
    dest[i] !in forbidden && OutOfPlace(src, dest, i)
  }

  /** The moves the search may still make: out-of-place elements, none moved twice, ending at the destination. */
  ghost predicate Admissible(src: seq<int>, dest: seq<int>, forbidden: seq<int>, moves: seq<int>)
    decreases |moves|
  {
    if moves == [] then src == dest
    else
      && moves[0] in dest && moves[0] !in forbidden && OutOfPlace(src, dest, IndexOf(dest, moves[0]))
      && Admissible(StepOf(src, dest, moves[0]), dest, forbidden + [moves[0]], moves[1..])
  }

  lemma {:induction false} DistinctWithin(s: seq<int>, t: seq<int>)
    requires Distinct(s) && Among(s, t)
    ensures |s| <= |t|
  {
    if s != [] {
      var x := s[0];
      assert x in s;
      var k := IndexOf(t, x);
      var t' := t[..k] + t[k + 1..];
      forall y | y in s[1..] ensures y in t' {
        assert y in s && y in t;
        var j :| 0 <= j < |t| && t[j] == y;
        assert t'[if j < k then j else j - 1] == y;
      }
      DistinctWithin(s[1..], t');
    }
  }

  function CommonPrefix(s: seq<int>, t: seq<int>): (m: nat)
    ensures m <= |s| && m <= |t| && s[..m] == t[..m]
    ensures m < |s| && m < |t| ==> s[m] != t[m]
  {
    if s == [] || t == [] || s[0] != t[0] then 0
    else
      var m := CommonPrefix(s[1..], t[1..]);
      assert s[..m + 1] == [s[0]] + s[1..][..m] && t[..m + 1] == [t[0]] + t[1..][..m];
      m + 1
  }

  // ---------------------------------------------------------------------------
  // Relative order

  /** `x` stands before `y`. */
  predicate Before(s: seq<int>, x: int, y: int) {
    x in s && y in s && IndexOf(s, x) < IndexOf(s, y)
  }

  lemma BeforeAt(s: seq<int>, i: nat, j: nat)
    requires Distinct(s) && i < j < |s|
    ensures Before(s, s[i], s[j])
  {
    IndexOfUnique(s, i);
    IndexOfUnique(s, j);
  }

  lemma BeforeIsTotal(s: seq<int>, x: int, y: int)
    requires Distinct(s) && x in s && y in s && x != y
    ensures Before(s, x, y) <==> !Before(s, y, x)
  {
  }

  lemma WithoutBefore(s: seq<int>, z: int, x: int, y: int)
    requires Distinct(s) && z in s && x != z && y != z && Before(s, x, y)
    ensures Before(Without(s, z), x, y)
  {
    var k, i, j := IndexOf(s, z), IndexOf(s, x), IndexOf(s, y);
    var r := Without(s, z);
    WithoutMembers(s, z);
    var i', j' := if i < k then i else i - 1, if j < k then j else j - 1;
    assert r[i'] == x && r[j'] == y;
    BeforeAt(r, i', j');
  }

  lemma InsertBefore(r: seq<int>, j: nat, z: int, x: int, y: int)
    requires Distinct(r) && j <= |r| && z !in r && Before(r, x, y)
    ensures Before(r[..j] + [z] + r[j..], x, y)
  {
    var t := r[..j] + [z] + r[j..];
    InsertMembers(r, j, z);
    var a, b := IndexOf(r, x), IndexOf(r, y);
    var a', b' := if a < j then a else a + 1, if b < j then b else b + 1;
    assert t[a'] == x && t[b'] == y;
    BeforeAt(t, a', b');
  }

  /** Where an insertion puts the new element. */
  lemma InsertPlaces(r: seq<int>, j: nat, z: int, y: int)
    requires Distinct(r) && j <= |r| && z !in r && y in r
    ensures IndexOf(r, y) < j ==> Before(r[..j] + [z] + r[j..], y, z)
    ensures IndexOf(r, y) >= j ==> Before(r[..j] + [z] + r[j..], z, y)
  {
    var t := r[..j] + [z] + r[j..];
    InsertMembers(r, j, z);
    var b := IndexOf(r, y);
    assert t[j] == z;
    if b < j {
      assert t[b] == y;
      BeforeAt(t, b, j);
    } else {
      assert t[b + 1] == y;
      BeforeAt(t, j, b + 1);
    }
  }

  /** A move leaves the others as they stand. */
  lemma StepKeepsOthers(src: seq<int>, dest: seq<int>, i: nat, x: int, y: int)
    requires SameElements(src, dest) && i < |dest| && x != dest[i] && y != dest[i] && Before(src, x, y)
    ensures Before(Step(src, dest, i), x, y)
  {
    hide Step, Before, SameElements;
    var rest, j := StepIsInsert(src, dest, i);
    SameIsDistinct(src, dest);
    MemberOfSame(src, dest, i);
    WithoutBefore(src, dest[i], x, y);
    InsertBefore(rest, j, dest[i], x, y);
  }

  /** The moved element stands after everything up to its predecessor and before everything beyond it. */
  lemma StepPlaces(src: seq<int>, dest: seq<int>, i: nat, y: int)
    requires SameElements(src, dest) && i < |dest| && y in src && y != dest[i]
    ensures i == 0 ==> Before(Step(src, dest, i), dest[i], y)
    ensures i > 0 && (y == dest[i - 1] || Before(src, y, dest[i - 1])) ==> Before(Step(src, dest, i), y, dest[i])
    ensures i > 0 && Before(src, dest[i - 1], y) ==> Before(Step(src, dest, i), dest[i], y)
  {
    hide Step, SameElements, Without;
    var rest, j := StepIsInsert(src, dest, i);
    SameIsDistinct(src, dest);
    MemberOfSame(src, dest, i);
    InsertPlaces(rest, j, dest[i], y);
    if i > 0 {
      var w := dest[i - 1];
      if Before(src, y, w) {
        WithoutBefore(src, dest[i], y, w);
      }
      if Before(src, w, y) {
        WithoutBefore(src, dest[i], w, y);
      }
    }
  }

  // ---------------------------------------------------------------------------
  // How few moves suffice

  /** The elements of `kept` stand in the same order in both lists. */
  ghost predicate KeepsOrder(src: seq<int>, dest: seq<int>, kept: set<int>) {
    && (forall x :: x in kept ==> x in src && x in dest)
    && forall x, y :: x in kept && y in kept && Before(dest, x, y) ==> Before(src, x, y)
  }

  ghost function Elements(s: seq<int>): set<int> {
    set x | x in s
  }

  lemma {:induction false} ElementsCount(s: seq<int>)
    ensures |Elements(s)| <= |s|
    ensures Distinct(s) ==> |Elements(s)| == |s|
  {
    if s != [] {
      var n := |s| - 1;
      ElementsCount(s[..n]);
      assert s == s[..n] + [s[n]];
      assert Elements(s) == Elements(s[..n]) + {s[n]};
      if Distinct(s) {
        assert forall i :: 0 <= i < n ==> s[..n][i] == s[i] != s[n];
      }
    }
  }

  lemma {:induction false} ReplayKeeps(src: seq<int>, dest: seq<int>, moves: seq<int>, x: int, y: int)
    requires SameElements(src, dest) && Among(moves, dest) && x !in moves && y !in moves && Before(src, x, y)
    ensures SameElements(Replay(src, dest, moves), dest) && Before(Replay(src, dest, moves), x, y)
  {
    if moves != [] {
      hide Before, SameElements, Step;
      var n := |moves| - 1;
      var z := moves[n];
      assert z in moves && forall m :: m in moves[..n] ==> m in moves;
      ReplayKeeps(src, dest, moves[..n], x, y);
      var mid := Replay(src, dest, moves[..n]);
      var i := IndexOf(dest, z);
      StepSameElements(mid, dest, i);
      StepKeepsOthers(mid, dest, i, x, y);
    }
  }

  lemma UnmovedPair(src: seq<int>, dest: seq<int>, moves: seq<int>, x: int, y: int)
    requires SameElements(src, dest) && Among(moves, dest) && Replay(src, dest, moves) == dest
    requires x !in moves && y !in moves && Before(dest, x, y)
    ensures Before(src, x, y)
  {
    SameIsDistinct(src, dest);
    BeforeIsTotal(src, x, y);
    BeforeIsTotal(dest, x, y);
    hide Before;
    if Before(src, y, x) {
      ReplayKeeps(src, dest, moves, y, x);
    }
  }

  /** The elements a successful list of moves never touches were in order from the start. */
  lemma UnmovedKeepOrder(src: seq<int>, dest: seq<int>, moves: seq<int>)
    requires SameElements(src, dest) && Among(moves, dest) && Replay(src, dest, moves) == dest
    ensures KeepsOrder(src, dest, Elements(dest) - Elements(moves))
    ensures |dest| <= |Elements(dest) - Elements(moves)| + |moves|
    ensures Distinct(moves) ==> |dest| == |Elements(dest) - Elements(moves)| + |moves|
  {
    var kept := Elements(dest) - Elements(moves);
    SameIsDistinct(src, dest);
    forall x, y | x in kept && y in kept && Before(dest, x, y) ensures Before(src, x, y) {
      UnmovedPair(src, dest, moves, x, y);
    }
    hide Before, SameElements;
    UnmovedCount(dest, moves);
  }

  lemma UnmovedCount(dest: seq<int>, moves: seq<int>)
    requires Distinct(dest) && Among(moves, dest)
    ensures |dest| <= |Elements(dest) - Elements(moves)| + |moves|
    ensures Distinct(moves) ==> |dest| == |Elements(dest) - Elements(moves)| + |moves|
  {
    ElementsCount(dest);
    ElementsCount(moves);
    hide Distinct;
    forall x | x in Elements(moves) ensures x in Elements(dest) {
    }
    assert |Elements(dest) - Elements(moves)| == |Elements(dest)| - |Elements(moves)|;
  }

  /** The elements of `dest[..n]` outside `kept`, in their final order. */
  ghost function Others(dest: seq<int>, kept: set<int>, n: nat): seq<int>
    requires n <= |dest|
  {
    if n == 0 then [] else Others(dest, kept, n - 1) + if dest[n - 1] in kept then [] else [dest[n - 1]]
  }

  lemma {:induction false} OthersMembers(dest: seq<int>, kept: set<int>, n: nat)
    requires n <= |dest| && Distinct(dest)
    ensures forall x :: x in Others(dest, kept, n) <==> x in dest[..n] && x !in kept
    ensures Distinct(Others(dest, kept, n)) && Among(Others(dest, kept, n), dest)
  {
    if n > 0 {
      OthersMembers(dest, kept, n - 1);
      assert dest[..n] == dest[..n - 1] + [dest[n - 1]];
      assert forall i :: 0 <= i < n - 1 ==> dest[..n - 1][i] == dest[i] != dest[n - 1];
    }
  }

  lemma OrderedStep(t: seq<int>, dest: seq<int>, kept: set<int>, i: nat)
    requires SameElements(t, dest) && i < |dest| && dest[i] !in kept
    requires KeepsOrder(t, dest, kept + Elements(dest[..i]))
    ensures KeepsOrder(Step(t, dest, i), dest, kept + Elements(dest[..i + 1]))
  {
    var was, now := kept + Elements(dest[..i]), kept + Elements(dest[..i + 1]);
    SameIsDistinct(t, dest);
    StepSameElements(t, dest, i);
    SameIsDistinct(Step(t, dest, i), dest);
    NewToFront(dest, kept, i);
    KeptIsWithin(t, dest, was);
    hide Step, SameElements, Before, Distinct;
    forall x | x in now ensures x in Step(t, dest, i) && x in dest {
      assert x in Elements(dest);
    }
    forall x, y | x in now && y in now && Before(dest, x, y) ensures Before(Step(t, dest, i), x, y) {
      OrderedPair(t, dest, was, i, x, y);
    }
  }

  lemma NewToFront(dest: seq<int>, kept: set<int>, i: nat)
    requires Distinct(dest) && i < |dest| && dest[i] !in kept
    ensures dest[i] !in kept + Elements(dest[..i]) && dest[i] in Elements(dest)
    ensures kept + Elements(dest[..i + 1]) == kept + Elements(dest[..i]) + {dest[i]}
  {
    assert forall j :: 0 <= j < i ==> dest[..i][j] == dest[j] != dest[i];
    assert dest[..i + 1] == dest[..i] + [dest[i]];
  }

  lemma OrderedPair(t: seq<int>, dest: seq<int>, was: set<int>, i: nat, x: int, y: int)
    requires SameElements(t, dest) && i < |dest| && KeepsOrder(t, dest, was) && Elements(dest[..i]) <= was
    requires x in was + {dest[i]} && y in was + {dest[i]} && dest[i] !in was && Before(dest, x, y)
    ensures Before(Step(t, dest, i), x, y)
  {
    var z := dest[i];
    assert !Before(dest, z, z);
    hide Step, SameElements, Before;
    if x != z && y != z {
      StepKeepsOthers(t, dest, i, x, y);
    } else if x != z {
      StepPlaces(t, dest, i, x);
      EarlierIsUpTo(t, dest, was, i, x);
    } else {
      StepPlaces(t, dest, i, y);
      LaterIsBeyond(t, dest, was, i, y);
    }
  }

  /** Up to the predecessor of `dest[i]`. */
  lemma EarlierIsUpTo(t: seq<int>, dest: seq<int>, was: set<int>, i: nat, x: int)
    requires SameElements(t, dest) && i < |dest| && KeepsOrder(t, dest, was) && Elements(dest[..i]) <= was
    requires x in was && Before(dest, x, dest[i])
    ensures i > 0 && (x == dest[i - 1] || Before(t, x, dest[i - 1]))
  {
    IndexOfUnique(dest, i);
    var k := IndexOf(dest, x);
    IndexOfUnique(dest, i - 1);
    assert dest[..i][i - 1] == dest[i - 1];
    assert dest[i - 1] in Elements(dest[..i]);
    if k < i - 1 {
      BeforeAt(dest, k, i - 1);
    }
  }

  lemma LaterIsBeyond(t: seq<int>, dest: seq<int>, was: set<int>, i: nat, y: int)
    requires SameElements(t, dest) && i < |dest| && KeepsOrder(t, dest, was) && Elements(dest[..i]) <= was
    requires y in was && Before(dest, dest[i], y)
    ensures i > 0 ==> Before(t, dest[i - 1], y)
  {
    if i > 0 {
      IndexOfUnique(dest, i);
      BeforeAt(dest, i - 1, IndexOf(dest, y));
      assert dest[..i][i - 1] == dest[i - 1];
      assert dest[i - 1] in Elements(dest[..i]);
    }
  }

  /** Replaying the first of the others brings `dest[..n]` and what is kept into their final order. */
  ghost predicate OrderedUpTo(src: seq<int>, dest: seq<int>, kept: set<int>, n: nat) {
    && n <= |dest| && Among(Others(dest, kept, n), dest)
    && var t := Replay(src, dest, Others(dest, kept, n));
       SameElements(t, dest) && KeepsOrder(t, dest, kept + Elements(dest[..n]))
  }

  lemma OthersStart(src: seq<int>, dest: seq<int>, kept: set<int>)
    requires SameElements(src, dest) && KeepsOrder(src, dest, kept)
    ensures OrderedUpTo(src, dest, kept, 0)
  {
    hide SameElements, KeepsOrder;
    assert Others(dest, kept, 0) == [];
    assert kept + Elements(dest[..0]) == kept;
  }

  /** One more element of the destination is in its place among those kept and those before it. */
  lemma OthersNext(src: seq<int>, dest: seq<int>, kept: set<int>, n: nat)
    requires Distinct(dest) && n < |dest| && OrderedUpTo(src, dest, kept, n)
    ensures OrderedUpTo(src, dest, kept, n + 1)
  {
    var moves := Others(dest, kept, n);
    var t := Replay(src, dest, moves);
    OthersMembers(dest, kept, n + 1);
    hide SameElements, KeepsOrder, Step, Replay, Among, Distinct;
    if dest[n] in kept {
      AlreadyKept(dest, kept, n);
      assert moves + [] == moves;
    } else {
      ReplayGrows(src, dest, moves, n);
      StepSameElements(t, dest, n);
      OrderedStep(t, dest, kept, n);
    }
  }

  lemma AlreadyKept(dest: seq<int>, kept: set<int>, n: nat)
    requires n < |dest| && dest[n] in kept
    ensures kept + Elements(dest[..n + 1]) == kept + Elements(dest[..n])
  {
    assert dest[..n + 1] == dest[..n] + [dest[n]];
  }

  lemma {:induction false} OthersReplay(src: seq<int>, dest: seq<int>, kept: set<int>, n: nat)
    requires SameElements(src, dest) && KeepsOrder(src, dest, kept) && n <= |dest|
    ensures OrderedUpTo(src, dest, kept, n)
  {
    hide *;
    if n == 0 {
      OthersStart(src, dest, kept);
    } else {
      SameIsDistinct(src, dest);
      OthersReplay(src, dest, kept, n - 1);
      OthersNext(src, dest, kept, n - 1);
    }
  }

  /** What stands at `t[m]` or later does not stand in the common front. */
  lemma FrontLacks(s: seq<int>, t: seq<int>, m: nat, x: int)
    requires Distinct(t) && m < |s| && m < |t| && s[..m] == t[..m] && x == t[m] && x in s && s[m] != x
    ensures IndexOf(s, x) > m
  {
    assert forall i :: 0 <= i < m ==> s[i] == s[..m][i] == t[..m][i] == t[i];
  }

  /** Lists of the same elements in the same order are equal. */
  lemma SameOrderIsEqual(s: seq<int>, t: seq<int>)
    requires SameElements(s, t) && KeepsOrder(s, t, Elements(t))
    ensures s == t
  {
    var m := CommonPrefix(s, t);
    if m < |s| {
      var x, y := t[m], s[m];
      assert x in t && y in s && y in t && x in s;
      var k := IndexOf(t, y);
      FrontLacks(t, s, m, y);
      BeforeAt(t, m, k);
      IndexOfUnique(s, m);
      FrontLacks(s, t, m, x);
    } else {
      assert s[..m] == s && t[..m] == t;
    }
  }

  /** Moving just the elements outside `kept`, in their final order, reaches the destination. */
  lemma OthersSuffice(src: seq<int>, dest: seq<int>, kept: set<int>)
    requires SameElements(src, dest) && KeepsOrder(src, dest, kept)
    ensures var moves := Others(dest, kept, |dest|);
      Distinct(moves) && Among(moves, dest) && Replay(src, dest, moves) == dest && |moves| == |dest| - |kept|
  {
    var moves := Others(dest, kept, |dest|);
    SameIsDistinct(src, dest);
    KeptIsWithin(src, dest, kept);
    hide SameElements, KeepsOrder, Replay, Others, Distinct;
    OthersMembers(dest, kept, |dest|);
    OthersReplay(src, dest, kept, |dest|);
    assert dest[..|dest|] == dest;
    SameOrderIsEqual(Replay(src, dest, moves), dest);
    OthersCount(dest, kept);
  }

  lemma KeptIsWithin(src: seq<int>, dest: seq<int>, kept: set<int>)
    requires KeepsOrder(src, dest, kept)
    ensures kept <= Elements(dest) && kept + Elements(dest) == Elements(dest)
  {
    hide Before;
    forall x | x in kept ensures x in Elements(dest) {
    }
  }

  lemma OthersCount(dest: seq<int>, kept: set<int>)
    requires Distinct(dest) && kept <= Elements(dest)
    ensures |Others(dest, kept, |dest|)| == |dest| - |kept|
  {
    var moves := Others(dest, kept, |dest|);
    OthersMembers(dest, kept, |dest|);
    assert dest[..|dest|] == dest;
    ElementsCount(moves);
    ElementsCount(dest);
    hide Distinct, Others, Among;
    forall x ensures x in Elements(moves) <==> x in Elements(dest) - kept {
    }
    assert Elements(moves) == Elements(dest) - kept;
  }

  // ---------------------------------------------------------------------------
  // Leaving out moves that change nothing

  /** Moving an element that is in place changes nothing. */
  lemma StepInPlace(src: seq<int>, dest: seq<int>, i: nat)
    requires SameElements(src, dest) && i < |dest| && !OutOfPlace(src, dest, i)
    ensures Step(src, dest, i) == src
  {
    var x := dest[i];
    assert x in dest;
    var k := IndexOf(src, x);
    var rest := Without(src, x);
    if i > 0 {
      WithoutMembers(src, x);
      assert rest[k - 1] == dest[i - 1];
      IndexOfUnique(rest, k - 1);
    }
  }

  lemma {:induction false} ReplayFront(src: seq<int>, dest: seq<int>, moves: seq<int>)
    requires Among(moves, dest) && moves != []
    ensures moves[0] in dest && Among(moves[1..], dest)
    ensures Replay(src, dest, moves) == Replay(StepOf(src, dest, moves[0]), dest, moves[1..])
  {
    hide Step;
    var first := moves[0];
    assert first in moves && forall x :: x in moves[1..] ==> x in moves;
    var n := |moves| - 1;
    if n > 0 {
      assert forall x :: x in moves[..n] ==> x in moves;
      ReplayFront(src, dest, moves[..n]);
      assert moves[..n][1..] == moves[1..][..n - 1] && moves[1..][n - 1] == moves[n];
    } else {
      assert moves[1..] == [] && moves[..0] == [];
    }
  }

  /** A list of moves without repetition has an admissible one that is no longer. */
  lemma {:induction false} Trimmed(src: seq<int>, dest: seq<int>, forbidden: seq<int>, moves: seq<int>)
    returns (m: seq<int>)
    requires SameElements(src, dest) && Distinct(moves) && Among(moves, dest) && Replay(src, dest, moves) == dest
    requires forall x :: x in moves ==> x !in forbidden
    ensures Admissible(src, dest, forbidden, m) && |m| <= |moves|
    decreases |moves|
  {
    if moves == [] {
      m := [];
    } else {
      hide Step, OutOfPlace, SameElements;
      var x := moves[0];
      ReplayFront(src, dest, moves);
      var i := IndexOf(dest, x);
      assert forall j :: 0 <= j < |moves| - 1 ==> moves[1..][j] == moves[j + 1] != x;
      assert forall z :: z in moves[1..] ==> z in moves && z != x;
      if OutOfPlace(src, dest, i) {
        StepSameElements(src, dest, i);
        var rest := Trimmed(StepOf(src, dest, x), dest, forbidden + [x], moves[1..]);
        m := [x] + rest;
        assert m[1..] == rest;
        assert x in moves;
      } else {
        StepInPlace(src, dest, i);
        m := Trimmed(src, dest, forbidden, moves[1..]);
      }
    }
  }

  /** `order` adds as few moves to `base` as any list of moves does, repetitions allowed: as many as there are elements
      outside a largest set that stands in the same order in both lists. */
  ghost predicate IsShortest(src: seq<int>, dest: seq<int>, base: seq<int>, order: seq<int>) {
    && (forall m :: Among(m, dest) && Replay(src, dest, m) == dest ==> |order| <= |base| + |m|)
    && (forall kept :: KeepsOrder(src, dest, kept) ==> |order| <= |base| + |dest| - |kept|)
    && (exists kept :: KeepsOrder(src, dest, kept) && |order| == |base| + |dest| - |kept|)
  }

  /** A solution that no admissible list beats is shortest. */
  lemma UnbeatenIsShortest(src: seq<int>, dest: seq<int>, base: seq<int>, order: seq<int>)
    requires SameElements(src, dest) && IsSolution(src, dest, base, order)
    requires forall m :: Admissible(src, dest, [], m) ==> |order| <= |base| + |m|
    ensures IsShortest(src, dest, base, order)
  {
    hide SameElements, KeepsOrder, Admissible, Replay;
    forall kept | KeepsOrder(src, dest, kept) ensures |order| <= |base| + |dest| - |kept| {
      OthersSuffice(src, dest, kept);
      var m := Trimmed(src, dest, [], Others(dest, kept, |dest|));
    }
    forall m | Among(m, dest) && Replay(src, dest, m) == dest ensures |order| <= |base| + |m| {
      UnmovedKeepOrder(src, dest, m);
    }
    UnmovedKeepOrder(src, dest, order[|base|..]);
  }
}
