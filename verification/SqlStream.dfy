/** The context pass over the two tables themselves (src/ruby/sql_compare.rb): the merged stream of rows, the map of
    pending changes, and the output applied to table 1 (src/ruby/diff_apply_sql.rb). */
module SqlStream {
  import opened Common
  import opened SqlDiff
  import opened SqlContext

  /** A row of the merged query: tag 0 from table 1, tag 1 from table 2. */
  datatype Entry = Entry(key: Key, tag: int, row: Row)

  // ---------------------------------------------------------------------------
  // The pass as the program runs it

  datatype Progress = Progress(pass: Pass, hits: map<string, RowChange>)

  function StepEntry(g: Progress, e: Entry, keyify: Key -> string): Progress {
    var k := keyify(e.key);
    if k in g.hits then Progress(Hit(g.pass, g.hits[k]), g.hits - {k})
    else if e.tag == 1 then g
    else g.(pass := Pass0(g.pass, e.row))
  }

  function RunEntries(g: Progress, es: seq<Entry>, keyify: Key -> string): Progress {
    if es == [] then g else StepEntry(RunEntries(g, es[..|es| - 1], keyify), es[|es| - 1], keyify)
  }

  /** The pending changes by key; a later one replaces an earlier one. */
  function HitMap(s: Schema, rcs: seq<RowChange>, keyify: Key -> string): map<string, RowChange>
    requires IsSchema(s) && Sized(s, rcs)
  {
    if rcs == [] then map[]
    else
      var n := |rcs| - 1;
      HitMap(s, rcs[..n], keyify)[keyify(ChangeKey(s, rcs[n])) := rcs[n]]
  }

  method CollectHits(s: Schema, pendingRcs: seq<RowChange>, keyify: Key -> string)
    returns (hits: map<string, RowChange>)
    requires IsSchema(s) && Sized(s, pendingRcs)
    ensures hits == HitMap(s, pendingRcs, keyify)
  {
    hits := map[];
    for i := 0 to |pendingRcs|
      invariant hits == HitMap(s, pendingRcs[..i], keyify)
    {
      assert pendingRcs[..i + 1][..i] == pendingRcs[..i];
      hits := hits[keyify(ChangeKey(s, pendingRcs[i])) := pendingRcs[i]];
    }
    assert pendingRcs[..|pendingRcs|] == pendingRcs;
  }

  /** `apply_with_context`. */
  method ApplyWithContext(s: Schema, pendingRcs: seq<RowChange>, stream: seq<Entry>, keyify: Key -> string)
    returns (out: seq<Out>)
    requires IsSchema(s) && Sized(s, pendingRcs)
    ensures out == Finished(RunEntries(Progress(Begin, HitMap(s, pendingRcs, keyify)), stream, keyify).pass)
  {
    var hits := CollectHits(s, pendingRcs, keyify);
    hide HitMap, IsSchema, Sized;
    ghost var start := Progress(Begin, hits);
    out := [];
    var hist: seq<Row> := [];
    var n := 2;
    var pending: nat := 0;
    var skipped, noted := false, false;
    for i := 0 to |stream|
      invariant |hist| <= 2
      invariant Progress(Pass(out, hist, pending, skipped, noted), hits) == RunEntries(start, stream[..i], keyify)
    {
      assert stream[..i + 1][..i] == stream[..i];
      var row := stream[i].row;
      var k := keyify(stream[i].key);
      if k in hits {
        if skipped {
          out := out + [Skip];
        }
        out := out + Contexts(hist);
        hist := [];
        pending := n;
        out := out + [Change(hits[k])];
        hits := hits - {k};
        skipped, noted := false, true;
      } else if stream[i].tag == 1 {
      } else if pending > 0 {
        if skipped {
          out := out + [Skip];
        }
        out := out + [Context(row)];
        pending := pending - 1;
        skipped := false;
      } else {
        hist := hist + [row];
        if |hist| > n {
          skipped := true;
          hist := hist[1..];
        }
      }
    }
    assert stream[..|stream|] == stream;
    if skipped && noted {
      out := out + [Skip];
    }
  }

  // ---------------------------------------------------------------------------
  // The merged query

  function RowWith(s: Schema, t: seq<Row>, k: Key): (r: Option<Row>)
    requires IsSchema(s) && Fits(s, t)
    ensures r.Some? ==> r.value in t && |r.value| == |s.columns| && KeyOf(s, r.value) == k
    ensures r.None? ==> forall i :: 0 <= i < |t| ==> KeyOf(s, t[i]) != k
  {
    if t == [] then None
    else if KeyOf(s, t[0]) == k then Some(t[0])
    else
      assert t == [t[0]] + t[1..];
      RowWith(s, t[1..], k)
  }

  function EntryOf(k: Key, tag: int, r: Option<Row>): seq<Entry> {
    if r.Some? then [Entry(k, tag, r.value)] else []
  }

  /** The one or two rows of a key, the one of table 1 first. */
  function EntriesAt(s: Schema, t1: seq<Row>, t2: seq<Row>, k: Key): seq<Entry>
    requires IsSchema(s) && Fits(s, t1) && Fits(s, t2)
  {
    EntryOf(k, 0, RowWith(s, t1, k)) + EntryOf(k, 1, RowWith(s, t2, k))
  }

  /** Both tables ordered by key and tag, for the keys in the order of the database. */
  function Stream(s: Schema, t1: seq<Row>, t2: seq<Row>, keys: seq<Key>): seq<Entry>
    requires IsSchema(s) && Fits(s, t1) && Fits(s, t2)
  {
    if keys == [] then []
    else
      var n := |keys| - 1;
      Stream(s, t1, t2, keys[..n]) + EntriesAt(s, t1, t2, keys[n])
  }

  /** The keys of both tables, each once, and told apart by `keyify`. */
  ghost predicate AreKeys(s: Schema, t1: seq<Row>, t2: seq<Row>, keys: seq<Key>, keyify: Key -> string)
    requires IsSchema(s) && Fits(s, t1) && Fits(s, t2)
  {
    (forall i, j :: 0 <= i < |keys| && 0 <= j < |keys| && keyify(keys[i]) == keyify(keys[j]) ==> i == j) &&
    (forall k :: k in keys <==> RowWith(s, t1, k).Some? || RowWith(s, t2, k).Some?)
  }

  /** The setting of the laws below: two keyed tables, a diff of them, and their keys. */
  ghost predicate Setting(s: Schema, t1: seq<Row>, t2: seq<Row>, cs: seq<RowChange>, keys: seq<Key>,
                          keyify: Key -> string) {
    IsTable(s, t1) && IsTable(s, t2) && IsDiff(s, t1, t2, cs) && Sized(s, cs) && AreKeys(s, t1, t2, keys, keyify)
  }

  function ItemAt(s: Schema, t1: seq<Row>, hits: map<string, RowChange>, k: Key, keyify: Key -> string): Item
    requires IsSchema(s) && Fits(s, t1)
  {
    if keyify(k) in hits then Changed(hits[keyify(k)])
    else
      var r := RowWith(s, t1, k);
      Same(if r.Some? then r.value else [])
  }

  function Items(s: Schema, t1: seq<Row>, hits: map<string, RowChange>, keys: seq<Key>,
                 keyify: Key -> string): (r: seq<Item>)
    requires IsSchema(s) && Fits(s, t1)
    ensures |r| == |keys| && forall i :: 0 <= i < |keys| ==> r[i] == ItemAt(s, t1, hits, keys[i], keyify)
  {
    seq(|keys|, i requires 0 <= i < |keys| => ItemAt(s, t1, hits, keys[i], keyify))
  }

  lemma ItemsNext(s: Schema, t1: seq<Row>, hits: map<string, RowChange>, keys: seq<Key>, keyify: Key -> string, n: nat)
    requires IsSchema(s) && Fits(s, t1) && n < |keys|
    ensures Items(s, t1, hits, keys[..n + 1], keyify) ==
            Items(s, t1, hits, keys[..n], keyify) + [ItemAt(s, t1, hits, keys[n], keyify)]
  {
  }

  lemma RunNext(xs: seq<Item>, x: Item)
    ensures RunItems(xs + [x]) == StepItem(RunItems(xs), x)
    ensures ChangesIn(xs + [x]) == ChangesIn(xs) + if x.Changed? then [x.rc] else []
  {
    assert (xs + [x])[..|xs|] == xs;
  }

  // ---------------------------------------------------------------------------
  // Which keys have a change

  lemma KeyFound(s: Schema, t: seq<Row>, r: Row)
    requires IsTable(s, t) && r in t
    ensures |r| == |s.columns| && RowWith(s, t, KeyOf(s, r)) == Some(r)
  {
    var i :| 0 <= i < |t| && t[i] == r;
    var q := RowWith(s, t, KeyOf(s, r));
    assert q.Some?;
    KeyIsUnique(s, t, q.value, r);
  }

  lemma ChangeKeyIsKey(s: Schema, t1: seq<Row>, t2: seq<Row>, cs: seq<RowChange>, keys: seq<Key>, keyify: Key -> string,
                       i: nat)
    requires Setting(s, t1, t2, cs, keys, keyify) && i < |cs|
    ensures ChangeKey(s, cs[i]) in keys
  {
    assert IsChange(s, t1, t2, cs[i]);
    if cs[i].mode.Insert? {
      KeyFound(s, t2, Values(cs[i]));
    } else {
      KeyFound(s, t1, Values(cs[i]));
    }
  }

  /** With one change a key, every change is found under its key and nothing else is. */
  lemma {:induction false} HitMapHolds(s: Schema, cs: seq<RowChange>, keyify: Key -> string)
    requires IsSchema(s) && Sized(s, cs)
    requires forall i, j ::
      0 <= i < |cs| && 0 <= j < |cs| && keyify(ChangeKey(s, cs[i])) == keyify(ChangeKey(s, cs[j])) ==> i == j
    ensures forall i :: 0 <= i < |cs| ==> keyify(ChangeKey(s, cs[i])) in HitMap(s, cs, keyify)
    ensures forall i :: 0 <= i < |cs| ==> HitMap(s, cs, keyify)[keyify(ChangeKey(s, cs[i]))] == cs[i]
    ensures forall x :: x in HitMap(s, cs, keyify) ==> exists i :: 0 <= i < |cs| && keyify(ChangeKey(s, cs[i])) == x
  {
    if cs != [] {
      var n := |cs| - 1;
      assert forall i :: 0 <= i < n ==> cs[..n][i] == cs[i];
      HitMapHolds(s, cs[..n], keyify);
      assert forall i :: 0 <= i < n ==> keyify(ChangeKey(s, cs[i])) != keyify(ChangeKey(s, cs[n]));
    }
  }

  lemma KeysToldApart(s: Schema, t1: seq<Row>, t2: seq<Row>, cs: seq<RowChange>, keys: seq<Key>, keyify: Key -> string)
    requires Setting(s, t1, t2, cs, keys, keyify)
    ensures forall i, j ::
      0 <= i < |cs| && 0 <= j < |cs| && keyify(ChangeKey(s, cs[i])) == keyify(ChangeKey(s, cs[j])) ==> i == j
  {
    forall i, j | 0 <= i < |cs| && 0 <= j < |cs| && keyify(ChangeKey(s, cs[i])) == keyify(ChangeKey(s, cs[j]))
      ensures i == j {
      ChangeKeyIsKey(s, t1, t2, cs, keys, keyify, i);
      ChangeKeyIsKey(s, t1, t2, cs, keys, keyify, j);
      SameKey(s, t1, t2, keys, keyify, ChangeKey(s, cs[i]), ChangeKey(s, cs[j]));
    }
  }

  lemma SameKey(s: Schema, t1: seq<Row>, t2: seq<Row>, keys: seq<Key>, keyify: Key -> string, a: Key, b: Key)
    requires IsSchema(s) && Fits(s, t1) && Fits(s, t2) && AreKeys(s, t1, t2, keys, keyify)
    requires a in keys && b in keys && keyify(a) == keyify(b)
    ensures a == b
  {
    var i :| 0 <= i < |keys| && keys[i] == a;
    var j :| 0 <= j < |keys| && keys[j] == b;
  }

  /** A key is hit exactly when a change touches it, and then by that change. */
  lemma HitIffTouched(s: Schema, t1: seq<Row>, t2: seq<Row>, cs: seq<RowChange>, keys: seq<Key>, keyify: Key -> string,
                      k: Key)
    requires Setting(s, t1, t2, cs, keys, keyify) && k in keys
    ensures var hits := HitMap(s, cs, keyify);
      (keyify(k) in hits <==> Touches(s, cs, k)) &&
      (keyify(k) in hits ==> hits[keyify(k)] in cs && ChangeKey(s, hits[keyify(k)]) == k)
  {
    var hits := HitMap(s, cs, keyify);
    KeysToldApart(s, t1, t2, cs, keys, keyify);
    HitMapHolds(s, cs, keyify);
    if keyify(k) in hits {
      var i :| 0 <= i < |cs| && keyify(ChangeKey(s, cs[i])) == keyify(k);
      ChangeKeyIsKey(s, t1, t2, cs, keys, keyify, i);
      SameKey(s, t1, t2, keys, keyify, ChangeKey(s, cs[i]), k);
    }
  }

  lemma TakenTouches(s: Schema, t1: seq<Row>, t2: seq<Row>, cs: seq<RowChange>, r: Row)
    requires IsTable(s, t1) && IsTable(s, t2) && IsDiff(s, t1, t2, cs) && Sized(s, cs) && r in t1 && r !in t2
    ensures |r| == |s.columns| && Touches(s, cs, KeyOf(s, r))
  {
    KeyFound(s, t1, r);
    assert Takes(cs, r);
    var i :| 0 <= i < |cs| && Before(cs[i]) == Some(r);
    assert ChangeKey(s, cs[i]) == KeyOf(s, r);
  }

  lemma BroughtTouches(s: Schema, t1: seq<Row>, t2: seq<Row>, cs: seq<RowChange>, r: Row)
    requires IsTable(s, t1) && IsTable(s, t2) && IsDiff(s, t1, t2, cs) && Sized(s, cs) && r in t2 && r !in t1
    ensures |r| == |s.columns| && Touches(s, cs, KeyOf(s, r))
  {
    assert Brings(cs, r);
    var i :| 0 <= i < |cs| && After(cs[i]) == Some(r);
    assert IsChange(s, t1, t2, cs[i]);
    BroughtKey(s, t1, t2, cs[i], r);
  }

  /** A key without a change has the same row in both tables. */
  lemma UntouchedIsShared(s: Schema, t1: seq<Row>, t2: seq<Row>, cs: seq<RowChange>, keys: seq<Key>,
                          keyify: Key -> string, k: Key)
    requires Setting(s, t1, t2, cs, keys, keyify) && k in keys && !Touches(s, cs, k)
    ensures RowWith(s, t1, k).Some? && RowWith(s, t2, k) == RowWith(s, t1, k)
  {
    var a, b := RowWith(s, t1, k), RowWith(s, t2, k);
    if a.Some? {
      if a.value !in t2 {
        TakenTouches(s, t1, t2, cs, a.value);
      } else {
        KeyFound(s, t2, a.value);
      }
    } else {
      BroughtTouches(s, t1, t2, cs, b.value);
    }
  }

  // ---------------------------------------------------------------------------
  // The stream runs as its items

  lemma {:induction false} RunConcat(g: Progress, a: seq<Entry>, b: seq<Entry>, keyify: Key -> string)
    ensures RunEntries(g, a + b, keyify) == RunEntries(RunEntries(g, a, keyify), b, keyify)
  {
    if b == [] {
      assert a + b == a;
    } else {
      var n := |b| - 1;
      assert (a + b)[..|a| + n] == a + b[..n];
      RunConcat(g, a, b[..n], keyify);
    }
  }

  lemma RunOne(g: Progress, e: Entry, keyify: Key -> string)
    ensures RunEntries(g, [e], keyify) == StepEntry(g, e, keyify)
  {
    assert [e][..0] == [];
  }

  lemma RunTwo(g: Progress, d: Entry, e: Entry, keyify: Key -> string)
    ensures RunEntries(g, [d, e], keyify) == StepEntry(StepEntry(g, d, keyify), e, keyify)
  {
    assert [d, e][..1] == [d];
    RunOne(g, d, keyify);
  }

  /** The rows of one key make one step of the pass. */
  lemma KeyIsOneStep(s: Schema, t1: seq<Row>, t2: seq<Row>, cs: seq<RowChange>, keys: seq<Key>, keyify: Key -> string,
                     k: Key, g: Progress)
    requires Setting(s, t1, t2, cs, keys, keyify) && k in keys
    requires var hits := HitMap(s, cs, keyify);
      (keyify(k) in g.hits <==> keyify(k) in hits) && (keyify(k) in hits ==> g.hits[keyify(k)] == hits[keyify(k)])
    ensures RunEntries(g, EntriesAt(s, t1, t2, k), keyify) ==
            Progress(StepItem(g.pass, ItemAt(s, t1, HitMap(s, cs, keyify), k, keyify)), g.hits - {keyify(k)})
  {
    var a, b := RowWith(s, t1, k), RowWith(s, t2, k);
    HitIffTouched(s, t1, t2, cs, keys, keyify, k);
    if keyify(k) !in g.hits {
      UntouchedIsShared(s, t1, t2, cs, keys, keyify, k);
      assert g.hits - {keyify(k)} == g.hits;
    }
    hide HitMap, RowWith, RunEntries;
    if a.Some? && b.Some? {
      RunTwo(g, Entry(k, 0, a.value), Entry(k, 1, b.value), keyify);
      assert EntriesAt(s, t1, t2, k) == [Entry(k, 0, a.value), Entry(k, 1, b.value)];
    } else if a.Some? {
      RunOne(g, Entry(k, 0, a.value), keyify);
    } else {
      RunOne(g, Entry(k, 1, b.value), keyify);
    }
  }

  function Remaining(hits: map<string, RowChange>, keys: seq<Key>, keyify: Key -> string): map<string, RowChange> {
    if keys == [] then hits else Remaining(hits, keys[..|keys| - 1], keyify) - {keyify(keys[|keys| - 1])}
  }

  lemma {:induction false} StillThere(hits: map<string, RowChange>, keys: seq<Key>, keyify: Key -> string, x: string)
    requires forall i :: 0 <= i < |keys| ==> keyify(keys[i]) != x
    ensures x in Remaining(hits, keys, keyify) <==> x in hits
    ensures x in hits ==> Remaining(hits, keys, keyify)[x] == hits[x]
  {
    if keys != [] {
      StillThere(hits, keys[..|keys| - 1], keyify, x);
    }
  }

  lemma {:induction false} StreamIsItems(s: Schema, t1: seq<Row>, t2: seq<Row>, cs: seq<RowChange>, keys: seq<Key>,
                                         keyify: Key -> string, n: nat)
    requires IsSchema(s) && Fits(s, t1) && Fits(s, t2) && Sized(s, cs)
    requires Setting(s, t1, t2, cs, keys, keyify) && n <= |keys|
    ensures var hits := HitMap(s, cs, keyify);
      RunEntries(Progress(Begin, hits), Stream(s, t1, t2, keys[..n]), keyify) ==
      Progress(RunItems(Items(s, t1, hits, keys[..n], keyify)), Remaining(hits, keys[..n], keyify))
  {
    hide *;
    if n == 0 {
      StreamStarts(s, t1, t2, HitMap(s, cs, keyify), keys, keyify);
    } else {
      StreamIsItems(s, t1, t2, cs, keys, keyify, n - 1);
      StreamStep(s, t1, t2, cs, keys, keyify, n - 1);
      assert n - 1 + 1 == n;
    }
  }

  lemma StreamStarts(s: Schema, t1: seq<Row>, t2: seq<Row>, hits: map<string, RowChange>, keys: seq<Key>,
                     keyify: Key -> string)
    requires IsSchema(s) && Fits(s, t1) && Fits(s, t2)
    ensures RunEntries(Progress(Begin, hits), Stream(s, t1, t2, keys[..0]), keyify) ==
      Progress(RunItems(Items(s, t1, hits, keys[..0], keyify)), Remaining(hits, keys[..0], keyify))
  {
    assert keys[..0] == [];
  }

  lemma StreamNext(s: Schema, t1: seq<Row>, t2: seq<Row>, keys: seq<Key>, n: nat)
    requires IsSchema(s) && Fits(s, t1) && Fits(s, t2) && n < |keys|
    ensures Stream(s, t1, t2, keys[..n + 1]) == Stream(s, t1, t2, keys[..n]) + EntriesAt(s, t1, t2, keys[n])
  {
    assert keys[..n + 1][..n] == keys[..n];
  }

  lemma RemainingNext(s: Schema, t1: seq<Row>, t2: seq<Row>, hits: map<string, RowChange>, keys: seq<Key>,
                      keyify: Key -> string, n: nat)
    requires IsSchema(s) && Fits(s, t1) && Fits(s, t2) && AreKeys(s, t1, t2, keys, keyify) && n < |keys|
    ensures var rest, x := Remaining(hits, keys[..n], keyify), keyify(keys[n]);
      Remaining(hits, keys[..n + 1], keyify) == rest - {x} &&
      (x in rest <==> x in hits) && (x in hits ==> rest[x] == hits[x])
  {
    assert keys[..n + 1][..n] == keys[..n];
    assert forall i :: 0 <= i < n ==> keys[..n][i] == keys[i] && keyify(keys[i]) != keyify(keys[n]);
    StillThere(hits, keys[..n], keyify, keyify(keys[n]));
  }

  lemma StreamStep(s: Schema, t1: seq<Row>, t2: seq<Row>, cs: seq<RowChange>, keys: seq<Key>, keyify: Key -> string,
                   n: nat)
    requires IsSchema(s) && Fits(s, t1) && Fits(s, t2) && Sized(s, cs)
    requires Setting(s, t1, t2, cs, keys, keyify) && n < |keys|
    requires var hits := HitMap(s, cs, keyify);
      RunEntries(Progress(Begin, hits), Stream(s, t1, t2, keys[..n]), keyify) ==
      Progress(RunItems(Items(s, t1, hits, keys[..n], keyify)), Remaining(hits, keys[..n], keyify))
    ensures var hits := HitMap(s, cs, keyify);
      RunEntries(Progress(Begin, hits), Stream(s, t1, t2, keys[..n + 1]), keyify) ==
      Progress(RunItems(Items(s, t1, hits, keys[..n + 1], keyify)), Remaining(hits, keys[..n + 1], keyify))
  {
    var hits := HitMap(s, cs, keyify);
    RemainingNext(s, t1, t2, hits, keys, keyify, n);
    hide Setting, HitMap, Fits, IsSchema, Sized, RowWith, EntriesAt, StepItem, ItemAt, Items, Remaining, RunItems,
      Stream, RunEntries;
    var g := Progress(RunItems(Items(s, t1, hits, keys[..n], keyify)), Remaining(hits, keys[..n], keyify));
    KeyIsOneStep(s, t1, t2, cs, keys, keyify, keys[n], g);
    StreamNext(s, t1, t2, keys, n);
    RunConcat(Progress(Begin, hits), Stream(s, t1, t2, keys[..n]), EntriesAt(s, t1, t2, keys[n]), keyify);
    ItemsNext(s, t1, hits, keys, keyify, n);
    RunNext(Items(s, t1, hits, keys[..n], keyify), ItemAt(s, t1, hits, keys[n], keyify));
  }

  // ---------------------------------------------------------------------------
  // The changes that come out

  function ChangesOf(out: seq<Out>): seq<RowChange> {
    if out == [] then [] else ChangesOf(out[..|out| - 1]) + if out[|out| - 1].Change? then [out[|out| - 1].rc] else []
  }

  function ChangesIn(xs: seq<Item>): seq<RowChange> {
    if xs == [] then [] else ChangesIn(xs[..|xs| - 1]) + if xs[|xs| - 1].Changed? then [xs[|xs| - 1].rc] else []
  }

  lemma {:induction false} ChangesConcat(a: seq<Out>, b: seq<Out>)
    ensures ChangesOf(a + b) == ChangesOf(a) + ChangesOf(b)
  {
    if b == [] {
      assert a + b == a;
    } else {
      var n := |b| - 1;
      assert (a + b)[..|a| + n] == a + b[..n];
      ChangesConcat(a, b[..n]);
    }
  }

  lemma PieceChanges(xs: seq<Item>, i: nat)
    requires i < |xs|
    ensures ChangesOf(Piece(xs, i)) == if xs[i].Changed? then [xs[i].rc] else []
  {
    if xs[i].Changed? {
      assert Shown(xs, i);
    }
    var p := Piece(xs, i);
    if |p| == 2 {
      assert p[..1] == [Skip] && p[..1][..0] == [];
      assert ChangesOf(p[..1]) == ChangesOf([]) + [];
    } else if |p| == 1 {
      assert p[..0] == [];
    }
  }

  lemma {:induction false} PiecesChanges(xs: seq<Item>, n: nat)
    requires n <= |xs|
    ensures ChangesOf(Pieces(xs, n)) == ChangesIn(xs[..n])
  {
    if n > 0 {
      PiecesChanges(xs, n - 1);
      PieceChanges(xs, n - 1);
      ChangesConcat(Pieces(xs, n - 1), Piece(xs, n - 1));
      assert xs[..n][..n - 1] == xs[..n - 1];
    }
  }

  /** Every change comes out once, in the order of the items. */
  lemma DeclaredChanges(xs: seq<Item>)
    ensures ChangesOf(Declared(xs)) == ChangesIn(xs)
  {
    PiecesChanges(xs, |xs|);
    assert xs[..|xs|] == xs;
    var tail := if AnyChange(xs) && Dropped(xs) > 2 then [Skip] else [];
    ChangesConcat(Pieces(xs, |xs|), tail);
    if tail != [] {
      assert tail[..0] == [];
    }
  }

  /** `ds` holds the changes of `cs` with a key in `ks`, one a key. */
  ghost predicate Passed(s: Schema, cs: seq<RowChange>, ds: seq<RowChange>, ks: seq<Key>)
    requires IsSchema(s) && Sized(s, cs)
  {
    (forall i :: 0 <= i < |ds| ==> ds[i] in cs && |ds[i].cells| == |s.columns| && ChangeKey(s, ds[i]) in ks) &&
    (forall i, j :: 0 <= i < |ds| && 0 <= j < |ds| && ChangeKey(s, ds[i]) == ChangeKey(s, ds[j]) ==> i == j) &&
    (forall i :: 0 <= i < |cs| && ChangeKey(s, cs[i]) in ks ==> cs[i] in ds)
  }

  predicate OneEach(s: Schema, cs: seq<RowChange>)
    requires IsSchema(s) && Sized(s, cs)
  {
    forall i, j :: 0 <= i < |cs| && 0 <= j < |cs| && ChangeKey(s, cs[i]) == ChangeKey(s, cs[j]) ==> i == j
  }

  lemma SettingHas(s: Schema, t1: seq<Row>, t2: seq<Row>, cs: seq<RowChange>, keys: seq<Key>, keyify: Key -> string)
    requires Setting(s, t1, t2, cs, keys, keyify)
    ensures IsSchema(s) && Fits(s, t1) && Fits(s, t2) && Sized(s, cs) && OneEach(s, cs)
  {
  }

  lemma PassedHit(s: Schema, cs: seq<RowChange>, ds: seq<RowChange>, ks: seq<Key>, rc: RowChange)
    requires IsSchema(s) && Sized(s, cs) && Passed(s, cs, ds, ks) && rc in cs && ChangeKey(s, rc) !in ks
    requires OneEach(s, cs)
    ensures Passed(s, cs, ds + [rc], ks + [ChangeKey(s, rc)])
  {
    hide KeyOf, Values;
    var es, ls := ds + [rc], ks + [ChangeKey(s, rc)];
    forall i | 0 <= i < |es|
      ensures es[i] in cs && |es[i].cells| == |s.columns| && ChangeKey(s, es[i]) in ls
    {
      if i < |ds| {
        assert es[i] == ds[i];
      }
    }
    forall i, j | 0 <= i < |es| && 0 <= j < |es| && ChangeKey(s, es[i]) == ChangeKey(s, es[j]) ensures i == j {
      assert i < |ds| ==> es[i] == ds[i] && ChangeKey(s, ds[i]) in ks;
      assert j < |ds| ==> es[j] == ds[j] && ChangeKey(s, ds[j]) in ks;
    }
    forall i | 0 <= i < |cs| && ChangeKey(s, cs[i]) in ls ensures cs[i] in es {
      if ChangeKey(s, cs[i]) == ChangeKey(s, rc) {
        var j :| 0 <= j < |cs| && cs[j] == rc;
        assert es[|ds|] == rc;
      }
    }
  }

  lemma PassedOver(s: Schema, cs: seq<RowChange>, ds: seq<RowChange>, ks: seq<Key>, k: Key)
    requires IsSchema(s) && Sized(s, cs) && Passed(s, cs, ds, ks) && !Touches(s, cs, k)
    ensures Passed(s, cs, ds, ks + [k])
  {
  }

  lemma KeyIsNew(s: Schema, t1: seq<Row>, t2: seq<Row>, keys: seq<Key>, keyify: Key -> string, n: nat)
    requires IsSchema(s) && Fits(s, t1) && Fits(s, t2) && AreKeys(s, t1, t2, keys, keyify) && n < |keys|
    ensures keys[n] !in keys[..n]
  {
    forall x | x in keys[..n] ensures x != keys[n] {
      var i :| 0 <= i < n && keys[..n][i] == x;
      assert keys[i] == x && keyify(keys[i]) != keyify(keys[n]);
    }
  }

  /** The changes of the items: those whose key has been passed. */
  lemma {:induction false} ItemChanges(s: Schema, t1: seq<Row>, t2: seq<Row>, cs: seq<RowChange>, keys: seq<Key>,
                                       keyify: Key -> string, n: nat)
    requires IsSchema(s) && Fits(s, t1) && Fits(s, t2) && Sized(s, cs)
    requires Setting(s, t1, t2, cs, keys, keyify) && n <= |keys|
    ensures Passed(s, cs, ChangesIn(Items(s, t1, HitMap(s, cs, keyify), keys[..n], keyify)), keys[..n])
  {
    SettingHas(s, t1, t2, cs, keys, keyify);
    if n == 0 {
      NothingPassed(s, t1, cs, HitMap(s, cs, keyify), keys, keyify);
    } else {
      KeyIsNew(s, t1, t2, keys, keyify, n - 1);
      hide Setting, HitMap, Passed, Touches, OneEach, Fits, IsSchema, Sized, ChangeKey, Items, ChangesIn;
      ItemChanges(s, t1, t2, cs, keys, keyify, n - 1);
      HitIffTouched(s, t1, t2, cs, keys, keyify, keys[n - 1]);
      ItemChangesStep(s, t1, cs, keys, keyify, n - 1);
    }
  }

  lemma NothingPassed(s: Schema, t1: seq<Row>, cs: seq<RowChange>, hits: map<string, RowChange>, keys: seq<Key>,
                      keyify: Key -> string)
    requires IsSchema(s) && Fits(s, t1) && Sized(s, cs)
    ensures Passed(s, cs, ChangesIn(Items(s, t1, hits, keys[..0], keyify)), keys[..0])
  {
    hide RowWith, ChangeKey;
    assert keys[..0] == [];
  }

  lemma ItemChangesStep(s: Schema, t1: seq<Row>, cs: seq<RowChange>, keys: seq<Key>, keyify: Key -> string, n: nat)
    requires IsSchema(s) && Fits(s, t1) && Sized(s, cs) && OneEach(s, cs) && n < |keys| && keys[n] !in keys[..n]
    requires var hits, k := HitMap(s, cs, keyify), keys[n];
      (keyify(k) in hits <==> Touches(s, cs, k))
        && (keyify(k) in hits ==> hits[keyify(k)] in cs && ChangeKey(s, hits[keyify(k)]) == k)
    requires Passed(s, cs, ChangesIn(Items(s, t1, HitMap(s, cs, keyify), keys[..n], keyify)), keys[..n])
    ensures Passed(s, cs, ChangesIn(Items(s, t1, HitMap(s, cs, keyify), keys[..n + 1], keyify)), keys[..n + 1])
  {
    hide Passed, HitMap, Touches, OneEach, Fits, IsSchema, Sized, RowWith, ChangeKey, Items, ChangesIn;
    var hits, k := HitMap(s, cs, keyify), keys[n];
    var xs, x := Items(s, t1, hits, keys[..n], keyify), ItemAt(s, t1, hits, k, keyify);
    ItemsNext(s, t1, hits, keys, keyify, n);
    RunNext(xs, x);
    assert keys[..n + 1] == keys[..n] + [k];
    if keyify(k) in hits {
      PassedHit(s, cs, ChangesIn(xs), keys[..n], hits[keyify(k)]);
    } else {
      PassedOver(s, cs, ChangesIn(xs), keys[..n], k);
      assert ChangesIn(xs) + [] == ChangesIn(xs);
    }
  }

  lemma KeyOrderIsDiff(s: Schema, t1: seq<Row>, t2: seq<Row>, cs: seq<RowChange>, keys: seq<Key>, keyify: Key -> string)
    requires Setting(s, t1, t2, cs, keys, keyify)
    ensures IsDiff(s, t1, t2, ChangesIn(Items(s, t1, HitMap(s, cs, keyify), keys, keyify)))
  {
    ItemChanges(s, t1, t2, cs, keys, keyify, |keys|);
    assert keys[..|keys|] == keys;
    forall i | 0 <= i < |cs| ensures ChangeKey(s, cs[i]) in keys {
      ChangeKeyIsKey(s, t1, t2, cs, keys, keyify, i);
    }
    hide HitMap, ChangesIn, IsDiff, IsTable, AreKeys, Items;
    SameChanges(s, t1, t2, cs, ChangesIn(Items(s, t1, HitMap(s, cs, keyify), keys, keyify)));
  }

  /** The whole program with context wanted: compare, pass over both tables in key order, apply what comes out. The
      output is the declared one, and table 1 becomes table 2. */
  method CompareWithContext(s: Schema, t1: seq<Row>, t2: seq<Row>, keys: seq<Key>, keyify: Key -> string)
    returns (out: seq<Out>, rows: seq<Row>)
    requires IsTable(s, t1) && IsTable(s, t2) && s.key != [] && AreKeys(s, t1, t2, keys, keyify)
    ensures Sized(s, Diff(s, t1, t2))
    ensures out == Declared(Items(s, t1, HitMap(s, Diff(s, t1, t2), keyify), keys, keyify))
    ensures IsDiff(s, t1, t2, ChangesOf(out)) && multiset(rows) == multiset(t2)
  {
    var ok, changes := Compare(s, s, t1, t2);
    DiffIsDiff(s, t1, t2);
    out := ApplyWithContext(s, changes, Stream(s, t1, t2, keys), keyify);
    ghost var xs := Items(s, t1, HitMap(s, changes, keyify), keys, keyify);
    StreamIsItems(s, t1, t2, changes, keys, keyify, |keys|);
    assert keys[..|keys|] == keys;
    PassIsDeclared(xs);
    DeclaredChanges(xs);
    KeyOrderIsDiff(s, t1, t2, changes, keys, keyify);
    ApplyDiff(s, t1, t2, ChangesOf(out));
    var table := new SqlTable(t1);
    table.ApplyRows(ChangesOf(out));
    rows := table.rows;
  }
}
