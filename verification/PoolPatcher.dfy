/** Running a batch of deferred inserts: the pre-scan and the emission of src/libcoopy_core/MergeOutputFilter.cpp, and
    the insert branch and retry loop of src/libcoopy_core/SheetPatcher.cpp. */
module PoolPatcher {
  import opened DeferredInserts

  // ---------------------------------------------------------------------------
  // The pre-scan and the order of emission

  ghost predicate Announces(schema: Schema, u: Insert, id: Id) {
    exists c :: c in u.val && schema.RoleOf(u, c) == Mints(id)
  }

  /** Every id some row will mint is filed as not linked yet; the rest of the pool is untouched. */
  ghost predicate IsScan(schema: Schema, pool: Pool, batch: seq<Insert>, base: Pool) {
    forall id ::
      if Announced(schema, batch, id) then id in base && base[id] == Record(Cell("", true), false)
      else SameRecord(pool, base, id)
  }

  ghost predicate Announced(schema: Schema, batch: seq<Insert>, id: Id) {
    exists u :: u in batch && Announces(schema, u, id)
  }

  method ScanRow(schema: Schema, pool0: Pool, u: Insert) returns (pool: Pool)
    ensures IsScan(schema, pool0, [u], pool)
  {
    pool := pool0;
    var left := u.val.Keys;
    while left != {}
      invariant left <= u.val.Keys
      invariant forall id ::
                  if exists c :: c in u.val && c !in left && schema.RoleOf(u, c) == Mints(id)
                  then id in pool && pool[id] == Record(Cell("", true), false)
                  else (id in pool <==> id in pool0) && (id in pool0 ==> pool[id] == pool0[id])
    {
      var c :| c in left;
      if schema.RoleOf(u, c).Mints? {
        pool := pool[schema.RoleOf(u, c).id := Record(Cell("", true), false)];
      }
      left := left - {c};
    }
    assert forall w :: w in [u] <==> w == u;
    assert forall id :: Announces(schema, u, id) <==>
      exists c :: c in u.val && c !in left && schema.RoleOf(u, c) == Mints(id);
  }

  method Scan(schema: Schema, pool0: Pool, batch: seq<Insert>) returns (pool: Pool)
    ensures IsScan(schema, pool0, batch, pool)
  {
    pool := pool0;
    for i := 0 to |batch|
      invariant IsScan(schema, pool0, batch[..i], pool)
    {
      var next := ScanRow(schema, pool, batch[i]);
      ScanGrows(schema, pool0, batch[..i], pool, batch[i], next);
      assert batch[..i + 1] == batch[..i] + [batch[i]];
      pool := next;
    }
    assert batch[..|batch|] == batch;
  }

  lemma ScanGrows(schema: Schema, pool0: Pool, units: seq<Insert>, mid: Pool, u: Insert, pool: Pool)
    requires IsScan(schema, pool0, units, mid) && IsScan(schema, mid, [u], pool)
    ensures IsScan(schema, pool0, units + [u], pool)
  {
    assert forall w :: w in units + [u] <==> w in units || w == u;
    assert forall w :: w in [u] <==> w == u;
  }

  lemma ScanMarks(schema: Schema, pool: Pool, batch: seq<Insert>, base: Pool)
    requires IsScan(schema, pool, batch, base)
    ensures Marked(schema, base, batch)
  {
    forall u, id | u in batch && schema.IsMint(u, id) ensures !Usable(base, true, id) {
      assert Announces(schema, u, id);
    }
  }

  function OfTable(rows: seq<Insert>, name: string): seq<Insert> {
    if rows == [] then []
    else if rows[|rows| - 1].sheet == name then OfTable(rows[..|rows| - 1], name) + [rows[|rows| - 1]]
    else OfTable(rows[..|rows| - 1], name)
  }

  function ByTable(rows: seq<Insert>, tables: seq<string>): seq<Insert> {
    if tables == [] then [] else ByTable(rows, tables[..|tables| - 1]) + OfTable(rows, tables[|tables| - 1])
  }

  /** Rows are emitted in arrival order, or grouped by the requested tables when at least two are named. */
  function Emission(rows: seq<Insert>, tables: seq<string>): seq<Insert> {
    if |set t | t in tables| < 2 then rows else ByTable(rows, tables)
  }

  /** How often a table was asked for. */
  function Asked(tables: seq<string>, name: string): nat {
    if tables == [] then 0
    else Asked(tables[..|tables| - 1], name) + if tables[|tables| - 1] == name then 1 else 0
  }

  /** Every row's table is asked for exactly once, or fewer than two tables are named. */
  predicate AskedOnce(rows: seq<Insert>, tables: seq<string>) {
    |set t | t in tables| < 2 || forall u :: u in rows ==> Asked(tables, u.sheet) == 1
  }

  lemma {:induction false} OfTableCount(rows: seq<Insert>, name: string, u: Insert)
    ensures multiset(OfTable(rows, name))[u] == if u.sheet == name then multiset(rows)[u] else 0
  {
    if rows != [] {
      var front := rows[..|rows| - 1];
      OfTableCount(front, name, u);
      assert rows == front + [rows[|rows| - 1]];
    }
  }

  /** A row goes out as often as it came in, times as often as its table was asked for. */
  lemma {:induction false} ByTableCount(rows: seq<Insert>, tables: seq<string>, u: Insert)
    ensures multiset(ByTable(rows, tables))[u] == Asked(tables, u.sheet) * multiset(rows)[u]
  {
    if tables != [] {
      var front := tables[..|tables| - 1];
      ByTableCount(rows, front, u);
      OfTableCount(rows, tables[|tables| - 1], u);
      OneMoreTime(Asked(front, u.sheet), multiset(rows)[u]);
    }
  }

  lemma OneMoreTime(n: nat, k: nat)
    ensures (n + 1) * k == n * k + k
    ensures n * k == k <==> n == 1 || k == 0
  {
    if n > 1 {
      assert n * k == k + (n - 1) * k;
    }
  }

  /** Every row goes out exactly once if and only if its table was asked for exactly once; with fewer than two
      tables named all rows go out as they came. */
  lemma EmissionIsComplete(rows: seq<Insert>, tables: seq<string>)
    ensures multiset(Emission(rows, tables)) == multiset(rows) <==> AskedOnce(rows, tables)
  {
    if |set t | t in tables| >= 2 {
      forall u: Insert
        ensures multiset(ByTable(rows, tables))[u] == multiset(rows)[u] <==> (u in rows ==> Asked(tables, u.sheet) == 1)
      {
        ByTableCount(rows, tables, u);
        OneMoreTime(Asked(tables, u.sheet), multiset(rows)[u]);
      }
      if multiset(ByTable(rows, tables)) == multiset(rows) {
        assert forall u :: u in rows ==> Asked(tables, u.sheet) == 1;
      } else {
        var u :| multiset(ByTable(rows, tables))[u] != multiset(rows)[u];
        assert u in rows && Asked(tables, u.sheet) != 1;
      }
    }
  }

  /** A table named twice beside another is written twice: `--table A --table A --table B`. */
  lemma NamedTwiceWritesTwice(a: string, b: string, u: Insert)
    requires a != b && u.sheet == a
    ensures Emission([u], [a, a, b]) == [u, u]
  {
    hide ByTable;
    EmissionByTable([u], [a, a, b], 0, 2);
    ByTableTwice(a, b, u);
  }

  lemma EmissionByTable(rows: seq<Insert>, tables: seq<string>, i: nat, j: nat)
    requires i < |tables| && j < |tables| && tables[i] != tables[j]
    ensures Emission(rows, tables) == ByTable(rows, tables)
  {
    hide ByTable;
    TwoAtLeast(tables[i], tables[j], set t | t in tables);
  }

  lemma ByTableTwice(a: string, b: string, u: Insert)
    requires a != b && u.sheet == a
    ensures ByTable([u], [a, a, b]) == [u, u]
  {
    hide ByTable, OfTable;
    OfOne(u, a);
    OfOne(u, b);
    ByTableNext([u], [], a);
    ByTableNext([u], [a], a);
    ByTableNext([u], [a, a], b);
    assert [] + [a] == [a] && [a] + [a] == [a, a] && [a, a] + [b] == [a, a, b];
  }

  lemma OfOne(u: Insert, name: string)
    ensures OfTable([u], name) == if u.sheet == name then [u] else []
  {
    assert [u][..0] == [];
  }

  lemma ByTableNext(rows: seq<Insert>, tables: seq<string>, name: string)
    ensures ByTable(rows, tables + [name]) == ByTable(rows, tables) + OfTable(rows, name)
    ensures ByTable(rows, []) == []
  {
    assert (tables + [name])[..|tables|] == tables;
  }

  lemma TwoAtLeast(a: string, b: string, s: set<string>)
    requires a != b && a in s && b in s
    ensures |s| >= 2
  {
    var rest := s - {a};
    assert b in rest && |rest| == |s| - 1;
    assert |rest| > 0;
  }

  // ---------------------------------------------------------------------------
  // What the written rows hold

  ghost predicate HasRole(schema: Schema, u: Insert, row: Row, c: string, role: Role) {
    c in row.cells && c in u.val && schema.RoleOf(u, c) == role
  }

  /** Every minting column holds the id its table minted for it when the row was written. */
  ghost predicate MintsHold(schema: Schema, mint: Mint, done: seq<Insert>, rows: seq<Row>)
    requires |rows| == |done|
  {
    forall i, c, id :: 0 <= i < |done| && HasRole(schema, done[i], rows[i], c, Mints(id)) ==>
      rows[i].cells[c] == mint(rows[..i], done[i], c)
  }

  /** A reference holds the new id of every written row that minted the id it names. If the batch announced that id
      there is such a row; if not, the reference holds the cell the pool had linked to the id before, or what it held
      itself when the pool did not know the id. */
  ghost predicate ReferenceHolds(schema: Schema, pool: Pool, batch: seq<Insert>, done: seq<Insert>, rows: seq<Row>,
                                 j: nat, d: string, id: Id)
    requires |rows| == |done| && j < |done| && HasRole(schema, done[j], rows[j], d, Refers(id))
  {
    && (forall i, c :: 0 <= i < |done| && HasRole(schema, done[i], rows[i], c, Mints(id)) ==>
      rows[j].cells[d] == rows[i].cells[c])
    && (if Announced(schema, batch, id)
        then exists i, c :: 0 <= i < |done| && HasRole(schema, done[i], rows[i], c, Mints(id))
        else if id in pool then pool[id].linked && rows[j].cells[d] == pool[id].cell
        else rows[j].cells[d] == done[j].val[d])
  }

  ghost predicate ReferencesHold(schema: Schema, pool: Pool, batch: seq<Insert>, done: seq<Insert>, rows: seq<Row>)
    requires |rows| == |done|
  {
    forall j, d, id :: 0 <= j < |done| && HasRole(schema, done[j], rows[j], d, Refers(id)) ==>
      ReferenceHolds(schema, pool, batch, done, rows, j, d, id)
  }

  lemma MinterWritten(schema: Schema, pool: Pool, done: seq<Insert>, rows: seq<Row>, id: Id) returns (i: nat, c: string)
    requires |rows| == |done| && MintedIn(schema, done, id)
    requires forall i :: 0 <= i < |done| ==> RowIs(schema, pool, done[i], rows[i])
    ensures i < |done| && HasRole(schema, done[i], rows[i], c, Mints(id))
  {
    var w :| w in done && schema.IsMint(w, id);
    i :| 0 <= i < |done| && done[i] == w;
    c :| c in schema.ColumnsOf(w) && c in w.val && schema.RoleOf(w, c) == Mints(id);
    assert RowIs(schema, pool, done[i], rows[i]);
  }

  /** References follow the ids that were minted. */
  lemma ReferencesFollow(schema: Schema, pool0: Pool, batch: seq<Insert>, base: Pool, done: seq<Insert>, pool: Pool,
                         rows: seq<Row>)
    requires IsScan(schema, pool0, batch, base) && PoolIs(schema, base, done, pool) && |rows| == |done|
    requires forall w :: w in done ==> w in batch
    requires forall i :: 0 <= i < |done| ==> RowIs(schema, pool, done[i], rows[i])
    ensures ReferencesHold(schema, pool0, batch, done, rows)
  {
    forall j, d, id | 0 <= j < |done| && HasRole(schema, done[j], rows[j], d, Refers(id))
      ensures ReferenceHolds(schema, pool0, batch, done, rows, j, d, id)
    {
      ReferenceFollows(schema, pool0, batch, base, done, pool, rows, j, d, id);
    }
  }

  lemma ReferenceFollows(schema: Schema, pool0: Pool, batch: seq<Insert>, base: Pool, done: seq<Insert>, pool: Pool,
                         rows: seq<Row>, j: nat, d: string, id: Id)
    requires IsScan(schema, pool0, batch, base) && PoolIs(schema, base, done, pool) && |rows| == |done|
    requires forall w :: w in done ==> w in batch
    requires forall i :: 0 <= i < |done| ==> RowIs(schema, pool, done[i], rows[i])
    requires j < |done| && HasRole(schema, done[j], rows[j], d, Refers(id))
    ensures ReferenceHolds(schema, pool0, batch, done, rows, j, d, id)
  {
    hide Schema.RoleOf, Announces, Schema.IsMint;
    assert RowIs(schema, pool, done[j], rows[j]) && Usable(pool, true, id);
    if MintedIn(schema, done, id) {
      var i, c := MinterWritten(schema, pool, done, rows, id);
      MintIsAnnounced(schema, batch, done, id);
    }
  }

  lemma MintIsAnnounced(schema: Schema, batch: seq<Insert>, done: seq<Insert>, id: Id)
    requires MintedIn(schema, done, id) && forall w :: w in done ==> w in batch
    ensures Announced(schema, batch, id)
  {
    var w :| w in done && schema.IsMint(w, id);
    assert Announces(schema, w, id);
  }

  lemma MintsHoldNext(schema: Schema, mint: Mint, done: seq<Insert>, rows: seq<Row>, u: Insert, pool: Pool,
                      pool': Pool, rows': seq<Row>)
    requires |rows| == |done| && MintsHold(schema, mint, done, rows)
    requires Ready(schema, pool, true, u) && Attempt(schema, mint, true, u, pool, rows, [], pool', rows', [])
    ensures |rows'| == |done + [u]| && MintsHold(schema, mint, done + [u], rows')
  {
    var row := AttemptRow(schema, mint, u, pool, rows, pool', rows');
    hide Attempt, Ready, PutAll;
    var all := done + [u];
    forall i, c, id | 0 <= i < |all| && HasRole(schema, all[i], rows'[i], c, Mints(id))
      ensures rows'[i].cells[c] == mint(rows'[..i], all[i], c)
    {
      if i < |done| {
        assert HasRole(schema, done[i], rows[i], c, Mints(id)) && rows'[..i] == rows[..i];
      } else {
        assert rows'[..i] == rows;
        var cols := schema.ColumnsOf(u);
        var k :| 0 <= k < |cols| && cols[k] == c;
        assert CellIs(schema, mint, rows, pool, u, row.cells, cols[k]);
      }
    }
  }

  // ---------------------------------------------------------------------------
  // The patcher

  /** The value the code writes into an active column. */
  function Written(schema: Schema, mint: Mint, rows: seq<Row>, pool: Pool, u: Insert, c: string): Cell
    requires c in u.val
  {
    match schema.RoleOf(u, c)
    case Plain => u.val[c]
    case Refers(id) => Translate(pool, id, u.val[c])
    case Mints(id) => mint(rows, u, c)
  }

  lemma FilledGrows(schema: Schema, mint: Mint, rows: seq<Row>, pool: Pool, u: Insert, cells: map<string, Cell>, i: nat)
    requires i < |schema.ColumnsOf(u)| && FilledUpTo(schema, mint, rows, pool, u, cells, i)
    ensures var c := schema.ColumnsOf(u)[i];
            FilledUpTo(schema, mint, rows, pool, u,
                       if c in u.val then cells[c := Written(schema, mint, rows, pool, u, c)] else cells, i + 1)
  {
    var cols := schema.ColumnsOf(u);
    assert cols[..i + 1] == cols[..i] + [cols[i]];
  }

  ghost predicate UsableUpTo(schema: Schema, pool: Pool, scanned: bool, u: Insert, n: nat)
    requires n <= |schema.ColumnsOf(u)|
  {
    forall j :: 0 <= j < n && schema.ColumnsOf(u)[j] in u.val && schema.RoleOf(u, schema.ColumnsOf(u)[j]).Refers? ==>
      Usable(pool, scanned, schema.RoleOf(u, schema.ColumnsOf(u)[j]).id)
  }

  lemma UsableIsReady(schema: Schema, pool: Pool, scanned: bool, u: Insert)
    ensures UsableUpTo(schema, pool, scanned, u, |schema.ColumnsOf(u)|) ==> Ready(schema, pool, scanned, u)
  {
  }

  lemma UnusableIsNotReady(schema: Schema, pool: Pool, scanned: bool, u: Insert, i: nat)
    requires i < |schema.ColumnsOf(u)| && schema.ColumnsOf(u)[i] in u.val
      && schema.RoleOf(u, schema.ColumnsOf(u)[i]).Refers?
    requires !Usable(pool, scanned, schema.RoleOf(u, schema.ColumnsOf(u)[i]).id)
    ensures !Ready(schema, pool, scanned, u)
  {
    assert schema.IsRef(u, schema.RoleOf(u, schema.ColumnsOf(u)[i]).id);
  }

  /** Filling a row column by column: it stops at the first reference that cannot be translated yet. */
  method FillRow(schema: Schema, mint: Mint, rows: seq<Row>, pool: Pool, scanned: bool, u: Insert)
    returns (defer: bool, cells: map<string, Cell>, inventions: seq<Invention>)
    ensures defer <==> !Ready(schema, pool, scanned, u)
    ensures !defer ==> FilledUpTo(schema, mint, rows, pool, u, cells, |schema.ColumnsOf(u)|)
                       && inventions == schema.AllInventions(u)
  {
    var cols := schema.ColumnsOf(u);
    cells, inventions, defer := map[], [], false;
    var i := 0;
    assert FilledUpTo(schema, mint, rows, pool, u, cells, i);
    hide FilledUpTo, Ready, Usable;
    while i < |cols|
      invariant 0 <= i <= |cols| && !defer
      invariant FilledUpTo(schema, mint, rows, pool, u, cells, i) && inventions == schema.Inventions(u, i)
      invariant UsableUpTo(schema, pool, scanned, u, i)
    {
      var c := cols[i];
      FilledGrows(schema, mint, rows, pool, u, cells, i);
      if c in u.val {
        match schema.RoleOf(u, c)
        case Plain =>
          cells := cells[c := u.val[c]];
        case Refers(id) =>
          if !Usable(pool, scanned, id) {
            UnusableIsNotReady(schema, pool, scanned, u, i);
            defer := true;
            return;
          }
          cells := cells[c := Translate(pool, id, u.val[c])];
        case Mints(id) =>
          cells := cells[c := mint(rows, u, c)];
          inventions := inventions + [Invention(id, c)];
      }
      i := i + 1;
    }
    UsableIsReady(schema, pool, scanned, u);
  }

  /** Recording what the flushed row minted. */
  method PutInventions(pool0: Pool, inventions: seq<Invention>, cells: map<string, Cell>) returns (pool: Pool)
    ensures pool == PutAll(pool0, inventions, cells)
  {
    pool := pool0;
    for k := 0 to |inventions|
      invariant pool == PutAll(pool0, inventions[..k], cells)
    {
      var inv := inventions[k];
      assert inventions[..k + 1][..k] == inventions[..k];
      pool := pool[inv.id := Record(if inv.column in cells then cells[inv.column] else Cell("", true), true)];
    }
    assert inventions[..|inventions|] == inventions;
  }

  lemma TakeOne(units: seq<Insert>, k: nat, put: seq<Insert>)
    requires k < |units|
    ensures units[k] in multiset(units[k..]) + multiset(put)
    ensures multiset(units[k..]) + multiset(put) - multiset{units[k]} == multiset(units[k + 1..]) + multiset(put)
    ensures multiset(units[k..]) + multiset(put) == multiset(units[k + 1..]) + multiset(put + [units[k]])
  {
    assert units[k..] == [units[k]] + units[k + 1..];
  }

  class SheetPatcher {
    const schema: Schema
    const mint: Mint
    var pool: Pool
    var scanned: bool
    var rows: seq<Row>
    var deferred: seq<Insert>
    ghost var done: seq<Insert>

    constructor (schema: Schema, mint: Mint, pool: Pool)
      ensures this.schema == schema && this.mint == mint && this.pool == pool
      ensures !scanned && rows == [] && deferred == [] && done == []
    {
      this.schema, this.mint, this.pool := schema, mint, pool;
      scanned, rows, deferred, done := false, [], [], [];
    }

    /** The insert branch of `changeRow`. */
    method ChangeRow(u: Insert)
      modifies this`pool, this`rows, this`deferred, this`done
      ensures Attempt(schema, mint, scanned, u, old(pool), old(rows), old(deferred), pool, rows, deferred)
      ensures done == if old(Ready(schema, pool, scanned, u)) then old(done) + [u] else old(done)
    {
      var defer, cells, inventions := FillRow(schema, mint, rows, pool, scanned, u);
      if defer {
        deferred := deferred + [u];
      } else {
        rows := rows + [Row(u.sheet, cells)];
        pool := PutInventions(pool, inventions, cells);
        done := done + [u];
      }
    }

    ghost predicate OnTrack(base: Pool, batch: seq<Insert>, pending: multiset<Insert>)
      reads `pool, `scanned, `rows, `done
    {
      && scanned && Marked(schema, base, batch) && Running(schema, base, batch, done, pending, pool, rows)
      && MintsHold(schema, mint, done, rows)
    }

    ghost predicate Stuck(units: seq<Insert>)
      reads `pool
    {
      forall u :: u in units ==> !Ready(schema, pool, true, u)
    }

    method TryRow(u: Insert, ghost base: Pool, ghost batch: seq<Insert>, ghost pending: multiset<Insert>)
      requires OnTrack(base, batch, pending) && u in pending
      modifies this`pool, this`rows, this`deferred, this`done
      ensures old(Ready(schema, pool, true, u)) ==>
        OnTrack(base, batch, pending - multiset{u}) && deferred == old(deferred)
      ensures !old(Ready(schema, pool, true, u)) ==>
                OnTrack(base, batch, pending) && deferred == old(deferred) + [u] && pool == old(pool)
    {
      hide Marked, Ready, MintsHold, PoolIs, RowIs, DistinctMints, Resolvable;
      ghost var ready, pool0, rows0, done0 := Ready(schema, pool, true, u), pool, rows, done;
      ChangeRow(u);
      if ready {
        AttemptKeepsRunning(schema, mint, base, batch, done0, pending, u, pool0, rows0, pool, rows);
        MintsHoldNext(schema, mint, done0, rows0, u, pool0, pool, rows);
      }
    }

    /** Trying a list of rows in turn. */
    method ChangeRows(units: seq<Insert>, ghost base: Pool, ghost batch: seq<Insert>)
      requires OnTrack(base, batch, multiset(units)) && deferred == []
      modifies this`pool, this`rows, this`deferred, this`done
      ensures OnTrack(base, batch, multiset(deferred))
      ensures |deferred| <= |units|
      ensures |deferred| == |units| ==> deferred == units && Stuck(units)
      ensures old(Stuck(units)) ==> deferred == units
    {
      hide OnTrack, Ready;
      assert units[0..] == units && multiset(units) + multiset(deferred) == multiset(units);
      for k := 0 to |units|
        invariant OnTrack(base, batch, multiset(units[k..]) + multiset(deferred))
        invariant |deferred| <= k
        invariant |deferred| == k ==> deferred == units[..k] && pool == old(pool) && Stuck(units[..k])
        invariant old(Stuck(units)) ==> |deferred| == k
      {
        ghost var put := deferred;
        assert units[..k + 1] == units[..k] + [units[k]];
        TakeOne(units, k, put);
        TryRow(units[k], base, batch, multiset(units[k..]) + multiset(deferred));
      }
      assert units[|units|..] == [] && units[..|units|] == units;
      assert multiset(units[|units|..]) + multiset(deferred) == multiset(deferred);
    }

    /** `mergeDone`: retry the deferred rows until none is left or a whole pass changes nothing.
        `ok` is false where the original reports a cyclic dependency and exits. */
    method MergeDone(ghost base: Pool, ghost batch: seq<Insert>) returns (ok: bool)
      requires OnTrack(base, batch, multiset(deferred))
      modifies this`pool, this`rows, this`deferred, this`done
      ensures OnTrack(base, batch, multiset(deferred)) && Stuck(deferred)
      ensures ok <==> deferred == []
    {
      hide OnTrack, Ready;
      var len, prevLen := -1, -2;
      var more := true;
      while more
        invariant OnTrack(base, batch, multiset(deferred))
        invariant len >= 0 ==> |deferred| <= len && (|deferred| == len ==> Stuck(deferred))
        invariant more ==> len != 0
        invariant !more ==> Stuck(deferred) && (len == 0 <==> deferred == []) && len >= 0
        decreases |deferred|, if len == |deferred| then 0 else 1, more
      {
        prevLen := len;
        len := |deferred|;
        if len > 0 {
          var cp := deferred;
          deferred := [];
          ChangeRows(cp, base, batch);
        }
        more := len > 0 && len != prevLen;
      }
      ok := len <= 0;
    }

    /** `mergeAllDone`: scan all rows, emit those asked for, settle what was put off. */
    method MergeAllDone(batch: seq<Insert>, tables: seq<string>) returns (ok: bool, ghost base: Pool)
      requires rows == [] && deferred == [] && done == []
      modifies this
      ensures IsScan(schema, old(pool), batch, base)
      ensures multiset(done) + multiset(deferred) == multiset(batch) <==> AskedOnce(batch, tables)
      ensures var sent := Emission(batch, tables);
        && multiset(done) + multiset(deferred) == multiset(sent) && |rows| == |done|
        && (forall u :: u in done ==> Resolvable(schema, base, sent, u))
        && (forall u :: u in deferred ==> !Resolvable(schema, base, sent, u))
        && (ok <==> deferred == [])
        && (ok <==> exists rank :: IsRank(schema, base, sent, rank))
        && MintsHold(schema, mint, done, rows)
        && (DistinctMints(schema, multiset(sent)) ==> forall i :: 0 <= i < |done| ==>
          RowIs(schema, pool, done[i], rows[i]))
        && (DistinctMints(schema, multiset(sent)) ==> ReferencesHold(schema, old(pool), batch, done, rows))
    {
      assert MintsHold(schema, mint, done, rows);
      hide MintsHold, ReferencesHold, PoolIs, Ready, Resolvable, IsRank, DistinctMints, RowIs, Wave, IsScan,
        Marked, Emission, AskedOnce;
      pool := Scan(schema, pool, batch);
      base := pool;
      scanned := true;
      ScanMarks(schema, old(pool), batch, base);
      var order := Emission(batch, tables);
      EmissionIsMarked(schema, base, batch, tables);
      EmissionIsComplete(batch, tables);
      assert multiset(done) + multiset(order) == multiset(order);
      ChangeRows(order, base, order);
      ok := MergeDone(base, order);
      StuckIsUnresolvable(schema, base, order, done, deferred, pool, rows);
      Verdict(schema, base, order, done, deferred);
      if DistinctMints(schema, multiset(order)) {
        SentFromBatch(batch, tables, done, deferred);
        ReferencesFollow(schema, old(pool), batch, base, done, pool, rows);
      }
    }
  }

  lemma {:induction false} OfTableMembers(rows: seq<Insert>, name: string)
    ensures forall u :: u in OfTable(rows, name) ==> u in rows
  {
    if rows != [] {
      OfTableMembers(rows[..|rows| - 1], name);
    }
  }

  lemma {:induction false} ByTableMembers(rows: seq<Insert>, tables: seq<string>)
    ensures forall u :: u in ByTable(rows, tables) ==> u in rows
  {
    if tables != [] {
      ByTableMembers(rows, tables[..|tables| - 1]);
      OfTableMembers(rows, tables[|tables| - 1]);
    }
  }

  lemma SentFromBatch(batch: seq<Insert>, tables: seq<string>, done: seq<Insert>, left: seq<Insert>)
    requires multiset(done) + multiset(left) == multiset(Emission(batch, tables))
    ensures forall u :: u in done ==> u in batch
  {
    ByTableMembers(batch, tables);
    forall u | u in done ensures u in batch {
      assert u in multiset(done) + multiset(left);
      assert u in multiset(Emission(batch, tables));
    }
  }

  lemma EmissionIsMarked(schema: Schema, base: Pool, batch: seq<Insert>, tables: seq<string>)
    requires Marked(schema, base, batch)
    ensures Marked(schema, base, Emission(batch, tables))
  {
    ByTableMembers(batch, tables);
  }

  lemma Verdict(schema: Schema, base: Pool, batch: seq<Insert>, done: seq<Insert>, left: seq<Insert>)
    requires multiset(done) + multiset(left) == multiset(batch)
    requires forall u :: u in done ==> Resolvable(schema, base, batch, u)
    requires forall u :: u in left ==> !Resolvable(schema, base, batch, u)
    ensures left == [] <==> exists rank :: IsRank(schema, base, batch, rank)
  {
    hide Resolvable, IsRank;
    if left == [] {
      forall u | u in batch ensures Resolvable(schema, base, batch, u) {
        assert u in multiset(batch);
      }
      var rank := ResolvableIsAcyclic(schema, base, batch);
    } else {
      var u := left[0];
      assert u in multiset(left) && u in multiset(batch);
      forall rank | IsRank(schema, base, batch, rank) ensures false {
        RankedIsResolvable(schema, base, batch, rank, u);
      }
    }
  }

  lemma RankedIsResolvable(schema: Schema, base: Pool, batch: seq<Insert>, rank: map<Insert, nat>, u: Insert)
    requires IsRank(schema, base, batch, rank) && u in batch
    ensures Resolvable(schema, base, batch, u)
  {
    AcyclicIsResolvable(schema, base, batch, rank, u);
  }
}
