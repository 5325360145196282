/** Pairing local, remote and pivot units (src/libcoopy_core/OrderMerge.cpp, `process`).

    Units are row or column numbers; -1 stands for "no such unit". */
module MatchUnits {
  import opened Common

  /** A partial matching between the pivot (a) and one edited side (b). */
  datatype OrderResult = OrderResult(toB: seq<int>, toA: seq<int>) {
    function A2b(x: int): int {
      if 0 <= x < |toB| then toB[x] else -1
    }

    function B2a(x: int): int {
      if 0 <= x < |toA| then toA[x] else -1
    }

    /** The two directions are mutually inverse. */
    ghost predicate IsMatching() {
      && (forall a :: 0 <= a < |toB| ==> toB[a] == -1 || (0 <= toB[a] < |toA| && toA[toB[a]] == a))
      && (forall b :: 0 <= b < |toA| ==> toA[b] == -1 || (0 <= toA[b] < |toB| && toB[toA[b]] == b))
    }

    /** Side b holds pivot units only, in pivot order: at most deletions happened there. */
    ghost predicate KeepsPivotOrder() {
      && (forall b :: 0 <= b < |toA| ==> toA[b] != -1)
      && (forall b, b' :: 0 <= b < b' < |toA| ==> toA[b] < toA[b'])
    }
  }

  datatype Status = Insert | Delete | Preserve

  datatype MatchUnit = MatchUnit(pivot: int, local: int, remote: int, deleted: bool, status: Status)

  /** The record a local unit deserves. */
  function LocalUnit(ol: OrderResult, or: OrderResult, l: int): MatchUnit {
    var p := ol.B2a(l);
    if p == -1 then MatchUnit(-1, l, -1, false, Preserve)
    else if or.A2b(p) == -1 then MatchUnit(p, l, -1, true, Delete)
    else MatchUnit(p, l, or.A2b(p), false, Preserve)
  }

  /** The record of a remote unit that is new to the pivot. */
  function RemoteUnit(r: int): MatchUnit {
    MatchUnit(-1, -1, r, false, Insert)
  }

  /** The records owed once `done` local units and the remote units of `marks` are handled. */
  ghost predicate Owed(ol: OrderResult, or: OrderResult, u: MatchUnit, done: int, marks: seq<int>) {
    if u.local != -1 then
      0 <= u.local < done && u == LocalUnit(ol, or, u.local)
    else
      0 <= u.remote < |marks| && marks[u.remote] == 1 && or.B2a(u.remote) == -1 && u == RemoteUnit(u.remote)
  }

  /** The full account of a pair of orders: every local unit, and every remote unit new to the pivot. */
  ghost predicate IsRecord(ol: OrderResult, or: OrderResult, u: MatchUnit) {
    if u.local != -1 then
      0 <= u.local < |ol.toA| && u == LocalUnit(ol, or, u.local)
    else
      0 <= u.remote < |or.toA| && or.B2a(u.remote) == -1 && u == RemoteUnit(u.remote)
  }

  /** `accum` holds exactly what is owed, each record once, local units in local order. */
  ghost predicate Accounts(ol: OrderResult, or: OrderResult, accum: seq<MatchUnit>, done: int, marks: seq<int>) {
    && Distinct(accum)
    && (forall u :: u in accum <==> Owed(ol, or, u, done, marks))
    && (forall i, j :: 0 <= i < j < |accum| && accum[i].local != -1 && accum[j].local != -1 ==>
          accum[i].local < accum[j].local)
  }

  lemma PushLocal(ol: OrderResult, or: OrderResult, accum: seq<MatchUnit>, done: nat, marks: seq<int>, marks': seq<int>)
    requires Accounts(ol, or, accum, done, marks) && |marks| == |marks'|
    requires forall r :: 0 <= r < |marks| && or.B2a(r) == -1 ==> marks[r] == marks'[r]
    ensures Accounts(ol, or, accum + [LocalUnit(ol, or, done)], done + 1, marks')
  {
    var u := LocalUnit(ol, or, done);
    forall v ensures v in accum + [u] <==> Owed(ol, or, v, done + 1, marks') {
      assert v in accum <==> Owed(ol, or, v, done, marks);
    }
    forall i | 0 <= i < |accum| ensures accum[i] != u && accum[i].local < done {
      assert accum[i] in accum;
    }
  }

  lemma PushRemote(ol: OrderResult, or: OrderResult, accum: seq<MatchUnit>, done: nat, marks: seq<int>, r: nat)
    requires Accounts(ol, or, accum, done, marks)
    requires r < |marks| && marks[r] == 0 && or.B2a(r) == -1
    ensures Accounts(ol, or, accum + [RemoteUnit(r)], done, marks[r := 1])
  {
    var u := RemoteUnit(r);
    forall v ensures v in accum + [u] <==> Owed(ol, or, v, done, marks[r := 1]) {
      assert v in accum <==> Owed(ol, or, v, done, marks);
    }
    forall i | 0 <= i < |accum| ensures accum[i] != u {
      assert accum[i] in accum;
    }
  }

  /** Every record of the pair of orders, once, local units in local order. */
  ghost predicate IsAccount(ol: OrderResult, or: OrderResult, accum: seq<MatchUnit>) {
    && Distinct(accum)
    && (forall u :: u in accum <==> IsRecord(ol, or, u))
    && (forall i, j :: 0 <= i < j < |accum| && accum[i].local != -1 && accum[j].local != -1 ==>
          accum[i].local < accum[j].local)
  }

  lemma AccountIsFull(ol: OrderResult, or: OrderResult, accum: seq<MatchUnit>, marks: seq<int>)
    requires Accounts(ol, or, accum, |ol.toA|, marks) && |marks| == |or.toA|
    requires forall r :: 0 <= r < |marks| && or.B2a(r) == -1 ==> marks[r] == 1
    ensures IsAccount(ol, or, accum)
  {
    forall u ensures u in accum <==> IsRecord(ol, or, u) {
      assert u in accum <==> Owed(ol, or, u, |ol.toA|, marks);
    }
  }

  // ---------------------------------------------------------------------------
  // Where the new remote units stand

  /** Some local unit up to `l` has a partner beyond remote unit `r`. */
  ghost predicate ReachesPast(ol: OrderResult, or: OrderResult, l: int, r: int) {
    exists k :: 0 <= k <= l && LocalUnit(ol, or, k).remote > r
  }

  /** A remote unit new to the pivot stands before a local unit exactly when that one, or one before it, has a partner
      beyond it; the new remote units stand in remote order. */
  ghost predicate IsPlaced(ol: OrderResult, or: OrderResult, accum: seq<MatchUnit>) {
    && (forall i, j :: 0 <= i < |accum| && 0 <= j < |accum| && accum[i].local == -1 && accum[j].local != -1 ==>
      (i < j <==> ReachesPast(ol, or, accum[j].local, accum[i].remote)))
    && (forall i, j :: 0 <= i < j < |accum| && accum[i].local == -1 && accum[j].local == -1 ==>
      accum[i].remote < accum[j].remote)
  }

  /** The furthest partner of the first `n` local units. */
  ghost function Furthest(ol: OrderResult, or: OrderResult, n: nat): nat {
    if n == 0 then 0
    else
      var before, r := Furthest(ol, or, n - 1), LocalUnit(ol, or, n - 1).remote;
      if r > before then r else before
  }

  lemma {:induction false} FurthestReaches(ol: OrderResult, or: OrderResult, n: nat, r: nat)
    ensures r < Furthest(ol, or, n) <==> ReachesPast(ol, or, n - 1, r)
  {
    if n > 0 {
      FurthestReaches(ol, or, n - 1, r);
      assert ReachesPast(ol, or, n - 1, r) <==> ReachesPast(ol, or, n - 2, r) || LocalUnit(ol, or, n - 1).remote > r;
    }
  }

  /** The remote units recorded so far: those new to the pivot below `bound`, and the partners of the first `done` local
      units. */
  ghost predicate MarkedUpTo(ol: OrderResult, or: OrderResult, marks: seq<int>, done: nat, bound: nat) {
    forall r :: 0 <= r < |marks| ==>
      (marks[r] == 1 <==> if or.B2a(r) == -1 then r < bound else 0 <= ol.A2b(or.B2a(r)) < done)
  }

  lemma MarkLocal(ol: OrderResult, or: OrderResult, marks: seq<int>, done: nat, bound: nat)
    requires ol.IsMatching() && or.IsMatching() && done < |ol.toA| && |marks| == |or.toA|
    requires MarkedUpTo(ol, or, marks, done, bound)
    ensures var r := LocalUnit(ol, or, done).remote;
            r < |marks| && MarkedUpTo(ol, or, if r >= 0 then marks[r := 1] else marks, done + 1, bound)
  {
    var u := LocalUnit(ol, or, done);
    forall r | 0 <= r < |marks| && or.B2a(r) != -1 ensures ol.A2b(or.B2a(r)) == done <==> u.remote == r {
    }
  }

  lemma PlacedGrows(ol: OrderResult, or: OrderResult, accum: seq<MatchUnit>, u: MatchUnit)
    requires IsPlaced(ol, or, accum)
    requires forall i :: 0 <= i < |accum| && accum[i].local == -1 ==>
      if u.local == -1 then accum[i].remote < u.remote else ReachesPast(ol, or, u.local, accum[i].remote)
    requires u.local == -1 ==> forall j :: 0 <= j < |accum| && accum[j].local != -1 ==>
      !ReachesPast(ol, or, accum[j].local, u.remote)
    ensures IsPlaced(ol, or, accum + [u])
  {
    hide ReachesPast;
    var all := accum + [u];
    forall i, j | 0 <= i < |all| && 0 <= j < |all| && all[i].local == -1 && all[j].local != -1
      ensures i < j <==> ReachesPast(ol, or, all[j].local, all[i].remote)
    {
      assert i < |accum| && j < |accum| ==> all[i] == accum[i] && all[j] == accum[j];
    }
  }

  lemma MarkedNext(ol: OrderResult, or: OrderResult, marks: seq<int>, done: nat, bound: nat, r: nat)
    requires MarkedUpTo(ol, or, marks, done, Max(bound, r)) && (r < |marks| ==> marks[r] == 1 || or.B2a(r) != -1)
    ensures MarkedUpTo(ol, or, marks, done, Max(bound, r + 1))
  {
  }

  lemma PlaceLocal(ol: OrderResult, or: OrderResult, accum: seq<MatchUnit>, done: nat, marks: seq<int>)
    requires Accounts(ol, or, accum, done, marks) && IsPlaced(ol, or, accum)
    requires MarkedUpTo(ol, or, marks, done, Furthest(ol, or, done + 1))
    ensures IsPlaced(ol, or, accum + [LocalUnit(ol, or, done)])
  {
    hide Furthest;
    forall i | 0 <= i < |accum| && accum[i].local == -1 ensures ReachesPast(ol, or, done, accum[i].remote) {
      var u := accum[i];
      assert u in accum;
      FurthestReaches(ol, or, done + 1, u.remote);
    }
    hide ReachesPast, IsPlaced, Accounts;
    PlacedGrows(ol, or, accum, LocalUnit(ol, or, done));
  }

  lemma NotReached(ol: OrderResult, or: OrderResult, done: nat, l: int, r: nat)
    requires Furthest(ol, or, done) <= r && l < done
    ensures !ReachesPast(ol, or, l, r)
  {
    FurthestReaches(ol, or, done, r);
  }

  lemma PlaceRemote(ol: OrderResult, or: OrderResult, accum: seq<MatchUnit>, done: nat, marks: seq<int>, r: nat)
    requires Accounts(ol, or, accum, done, marks) && IsPlaced(ol, or, accum)
    requires MarkedUpTo(ol, or, marks, done, r) && Furthest(ol, or, done) <= r
    ensures IsPlaced(ol, or, accum + [RemoteUnit(r)])
  {
    hide Furthest;
    forall j | 0 <= j < |accum|
      ensures accum[j].local != -1 ==> !ReachesPast(ol, or, accum[j].local, r)
      ensures accum[j].local == -1 ==> accum[j].remote < r
    {
      var u := accum[j];
      assert u in accum;
      if u.local != -1 {
        NotReached(ol, or, done, u.local, r);
      }
    }
    hide ReachesPast, IsPlaced, Accounts;
    PlacedGrows(ol, or, accum, RemoteUnit(r));
  }

  lemma FurthestNext(ol: OrderResult, or: OrderResult, l: nat)
    requires ol.IsMatching() && or.IsMatching()
    ensures var p := ol.B2a(l);
            if p != -1 && or.A2b(p) != -1
            then 0 <= or.A2b(p) < |or.toA| && Furthest(ol, or, l + 1) == Max(Furthest(ol, or, l), or.A2b(p))
            else Furthest(ol, or, l + 1) == Furthest(ol, or, l)
  {
  }

  lemma MaxIs(a: nat, b: nat)
    ensures Max(a, b) == if a < b then b else a
  {
  }

  function Max(a: nat, b: nat): nat {
    if a < b then b else a
  }

  /** `process` as `merge` calls it: the complete pairing of the two sides. */
  method PairUnits(nlocal: OrderResult, nremote: OrderResult) returns (accum: seq<MatchUnit>)
    requires nlocal.IsMatching() && nremote.IsMatching()
    ensures IsAccount(nlocal, nremote, accum) && IsPlaced(nlocal, nremote, accum)
  {
    var pairing := new Pairing(nlocal, nremote);
    var baseLocal, baseRemote := pairing.Process(0, 0, 0, 0, |nlocal.toA|, |nremote.toA|);
    AccountIsFull(nlocal, nremote, pairing.accum, pairing.xremote);
    accum := pairing.accum;
  }

  class Pairing {
    var orderLocal: OrderResult
    var orderRemote: OrderResult
    var accum: seq<MatchUnit>
    var xlocal: seq<int>
    var xremote: seq<int>

    constructor (nlocal: OrderResult, nremote: OrderResult)
      ensures orderLocal == nlocal && orderRemote == nremote && Settled(0) && accum == []
      ensures forall r :: 0 <= r < |xremote| ==> xremote[r] == 0
    {
      orderLocal, orderRemote, accum := nlocal, nremote, [];
      xlocal, xremote := seq(|nlocal.toA|, _ => 0), seq(|nremote.toA|, _ => 0);
    }

    ghost predicate Settled(done: int)
      reads this
    {
      && 0 <= done <= |xlocal| == |orderLocal.toA| && |xremote| == |orderRemote.toA|
      && (forall l :: 0 <= l < |xlocal| ==> (xlocal[l] == 0 <==> done <= l))
      && (forall r :: 0 <= r < |xremote| ==> xremote[r] == 0 || xremote[r] == 1)
      && Accounts(orderLocal, orderRemote, accum, done, xremote)
    }

    /** The records stand where they should, and the new remote units below `bound` are among them. */
    ghost predicate Ordered(done: nat, bound: nat)
      reads this
    {
      IsPlaced(orderLocal, orderRemote, accum) && MarkedUpTo(orderLocal, orderRemote, xremote, done, bound)
    }

    /** `done` local units are recorded, and the new remote units below `next` or a partner of one of them. */
    ghost predicate At(done: nat, next: nat)
      reads this
    {
      Settled(done) && Ordered(done, Max(Furthest(orderLocal, orderRemote, done), next))
    }

    lemma AtSizes(done: nat, next: nat)
      requires At(done, next)
      ensures done <= |xlocal| == |orderLocal.toA| && |xremote| == |orderRemote.toA|
      ensures done < |xlocal| ==> xlocal[done] == 0
    {
    }

    /** Recording local unit `l`: kept, deleted remotely, or added locally. */
    method TakeLocal(l: nat)
      requires Settled(l) && l < |xlocal| && Ordered(l, Furthest(orderLocal, orderRemote, l + 1))
      requires orderLocal.IsMatching() && orderRemote.IsMatching()
      modifies this`accum, this`xlocal, this`xremote
      ensures Settled(l + 1) && Ordered(l + 1, Furthest(orderLocal, orderRemote, l + 1))
      ensures accum == old(accum) + [LocalUnit(orderLocal, orderRemote, l)]
    {
      hide Furthest, IsPlaced;
      PlaceLocal(orderLocal, orderRemote, accum, l, xremote);
      MarkLocal(orderLocal, orderRemote, xremote, l, Furthest(orderLocal, orderRemote, l + 1));
      var p := orderLocal.B2a(l);
      if p != -1 {
        var r := orderRemote.A2b(p);
        if r != -1 {
          accum := accum + [MatchUnit(p, l, r, false, Preserve)];
          xremote := xremote[r := 1];
        } else {
          accum := accum + [MatchUnit(p, l, -1, true, Delete)];
        }
      } else {
        accum := accum + [MatchUnit(-1, l, -1, false, Preserve)];
      }
      xlocal := xlocal[l := 1];
      PushLocal(orderLocal, orderRemote, old(accum), l, old(xremote), xremote);
    }

    /** Looking at remote unit `r`: only one that is new to the pivot and not yet recorded is recorded here. */
    method TakeRemote(r: nat, ghost done: nat)
      requires At(done, r)
      modifies this`accum, this`xremote
      ensures At(done, r + 1)
      ensures forall q :: 0 <= q < |xremote| && q != r ==> xremote[q] == old(xremote[q])
      ensures accum == old(accum) || accum == old(accum) + [RemoteUnit(r)]
    {
      hide Furthest, IsPlaced;
      if r < |xremote| && xremote[r] == 0 && orderRemote.B2a(r) == -1 {
        PlaceRemote(orderLocal, orderRemote, accum, done, xremote, r);
        PushRemote(orderLocal, orderRemote, accum, done, xremote, r);
        accum := accum + [RemoteUnit(r)];
        xremote := xremote[r := 1];
      } else {
        MarkedNext(orderLocal, orderRemote, xremote, done, Furthest(orderLocal, orderRemote, done), r);
      }
    }

    /** The turn of local unit `l`: first the new remote units before its partner, by a call of `process` on an empty
        stretch of local units, then its own record. */
    method TurnLocal(l: nat, baseRemote0: nat, ghost next: nat) returns (baseRemote: nat)
      requires At(l, next) && l < |xlocal|
      requires next <= baseRemote0 == Furthest(orderLocal, orderRemote, l)
      requires orderLocal.IsMatching() && orderRemote.IsMatching()
      modifies this`accum, this`xlocal, this`xremote
      ensures At(l + 1, next)
      ensures baseRemote0 <= baseRemote == Furthest(orderLocal, orderRemote, l + 1)
      decreases 0, 2
    {
      hide Accounts, IsPlaced, MarkedUpTo, Furthest;
      FurthestNext(orderLocal, orderRemote, l);
      baseRemote := baseRemote0;
      var p := orderLocal.B2a(l);
      if p != -1 && orderRemote.A2b(p) != -1 {
        var baseLocal;
        baseLocal, baseRemote := Process(l, baseRemote, l, baseRemote, l, orderRemote.A2b(p));
      }
      TakeLocal(l);
    }

    /** One call of `process`; the reference parameters are returned. */
    method Process(ilocal0: nat, iremote0: nat, baseLocal0: nat, baseRemote0: nat, stopLocal: nat, stopRemote: nat)
      returns (baseLocal: nat, baseRemote: nat)
      requires At(ilocal0, iremote0) && baseLocal0 == ilocal0 && iremote0 == baseRemote0
      requires baseRemote0 == Furthest(orderLocal, orderRemote, ilocal0)
      requires stopLocal <= |xlocal| && stopRemote <= |xremote|
      requires orderLocal.IsMatching() && orderRemote.IsMatching()
      modifies this`accum, this`xlocal, this`xremote
      ensures baseLocal == Max(ilocal0, stopLocal)
      ensures At(baseLocal, Max(iremote0, stopRemote))
      ensures ilocal0 >= stopLocal ==> baseRemote == Max(baseRemote0, stopRemote)
      decreases if ilocal0 < stopLocal then 1 else 0, 1
    {
      hide *;
      MaxIs(ilocal0, stopLocal);
      MaxIs(iremote0, stopRemote);
      AtSizes(ilocal0, iremote0);
      var ilocal, iremote := ilocal0, iremote0;
      baseLocal, baseRemote := baseLocal0, baseRemote0;
      while ilocal < stopLocal || iremote < stopRemote
        invariant ilocal0 <= ilocal == baseLocal && (ilocal <= stopLocal || ilocal == ilocal0)
        invariant iremote0 <= iremote && (iremote <= stopRemote || iremote == iremote0)
        invariant At(ilocal, iremote)
        invariant ilocal < stopLocal ==> iremote <= baseRemote == Furthest(orderLocal, orderRemote, ilocal)
        invariant ilocal0 >= stopLocal ==> baseRemote == iremote
        decreases (if ilocal < stopLocal then stopLocal - ilocal else 0)
          + (if iremote < stopRemote then stopRemote - iremote else 0)
      {
        AtSizes(ilocal, iremote);
        if ilocal < stopLocal {
          if ilocal < |xlocal| && xlocal[ilocal] == 0 {
            baseRemote := TurnLocal(ilocal, baseRemote, iremote);
          }
          ilocal := ilocal + 1;
          baseLocal := baseLocal + 1;
        } else {
          TakeRemote(iremote, ilocal);
          iremote := iremote + 1;
          baseRemote := baseRemote + 1;
        }
      }
    }
  }

  /** Reading the account back: each side's units occur where they should, and only there. */
  lemma RecordsCoverBothSides(ol: OrderResult, or: OrderResult, accum: seq<MatchUnit>)
    requires ol.IsMatching() && or.IsMatching() && IsAccount(ol, or, accum)
    ensures forall i, j :: 0 <= i < j < |accum| ==> accum[i].local == -1 || accum[i].local != accum[j].local
    ensures forall i, j :: 0 <= i < j < |accum| ==> accum[i].remote == -1 || accum[i].remote != accum[j].remote
    ensures forall i, j :: 0 <= i < j < |accum| ==> accum[i].pivot == -1 || accum[i].pivot != accum[j].pivot
    ensures forall l :: 0 <= l < |ol.toA| ==> LocalUnit(ol, or, l) in accum
    ensures forall u :: u in accum ==>
      (u.deleted <==> u.local != -1 && ol.B2a(u.local) != -1 && or.A2b(ol.B2a(u.local)) == -1)
    ensures forall r :: 0 <= r < |or.toA| ==>
              ((exists u :: u in accum && u.remote == r) <==> or.B2a(r) == -1 || ol.A2b(or.B2a(r)) != -1)
    ensures forall u :: u in accum && u.local != -1 && u.remote != -1 ==>
      ol.B2a(u.local) == or.B2a(u.remote) == u.pivot != -1
  {
    forall i | 0 <= i < |accum| ensures IsRecord(ol, or, accum[i]) {
      assert accum[i] in accum;
    }
    forall l | 0 <= l < |ol.toA| ensures LocalUnit(ol, or, l) in accum {
      assert IsRecord(ol, or, LocalUnit(ol, or, l));
    }
    forall r | 0 <= r < |or.toA|
      ensures (exists u :: u in accum && u.remote == r) <==> or.B2a(r) == -1 || ol.A2b(or.B2a(r)) != -1
    {
      if or.B2a(r) == -1 {
        assert IsRecord(ol, or, RemoteUnit(r));
      } else if ol.A2b(or.B2a(r)) != -1 {
        var l := ol.A2b(or.B2a(r));
        assert IsRecord(ol, or, LocalUnit(ol, or, l)) && LocalUnit(ol, or, l).remote == r;
      }
    }
  }
}
