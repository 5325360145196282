/** Inserts that mint new ids and refer to each other
    (src/libcoopy_core/MergeOutputFilter.cpp, src/libcoopy_core/SheetPatcher.cpp, src/libcoopy_full/PoolImpl.cpp).

    A pool translates the ids of the incoming rows to the ids the target tables mint. Rows that refer to an
    id not minted yet are put off and retried until nothing moves. */
module DeferredInserts {
  import opened Common

  datatype Cell = Cell(text: string, escaped: bool) {
    /** `SheetCell::toString`, the key under which a pool files a value. */
    function Key(): string {
      if escaped then "{" + text + "}" else text
    }
  }

  /** A pool name and the key of a value in it. */
  type Id = (string, string)

  datatype Record = Record(cell: Cell, linked: bool)

  type Pool = map<Id, Record>

  datatype Link = Link(pool: string, invent: bool)

  datatype Insert = Insert(sheet: string, val: map<string, Cell>)

  datatype Row = Row(sheet: string, cells: map<string, Cell>)

  /** The id a table mints for a column of a new row; nothing is assumed about it. */
  type Mint = (seq<Row>, Insert, string) -> Cell

  /** What a column means for the row that fills it. */
  datatype Role = Plain | Refers(id: Id) | Mints(id: Id)

  datatype Invention = Invention(id: Id, column: string)

  /** The columns of every table, and which of them are tied to a pool (`PoolImpl::create`). */
  datatype Schema = Schema(columns: map<string, seq<string>>, links: map<string, Link>) {
    function LinkOf(table: string, column: string): Option<Link> {
      var key := table + ":::" + column;
      if key in links && links[key].pool != "" then Some(links[key]) else None
    }

    function RoleOf(u: Insert, column: string): Role
      requires column in u.val
    {
      match LinkOf(u.sheet, column)
      case None => Plain
      case Some(l) =>
        var id := (l.pool, u.val[column].Key());
        if l.invent then Mints(id) else Refers(id)
    }

    function ColumnsOf(u: Insert): seq<string> {
      if u.sheet in columns then columns[u.sheet] else []
    }

    /** The minting columns among the first `n`, in column order. */
    function Inventions(u: Insert, n: nat): seq<Invention>
      requires n <= |ColumnsOf(u)|
    {
      if n == 0 then []
      else
        var c := ColumnsOf(u)[n - 1];
        if c in u.val && RoleOf(u, c).Mints? then Inventions(u, n - 1) + [Invention(RoleOf(u, c).id, c)]
        else Inventions(u, n - 1)
    }

    function AllInventions(u: Insert): seq<Invention> {
      Inventions(u, |ColumnsOf(u)|)
    }

    ghost predicate IsRef(u: Insert, id: Id) {
      exists c :: c in ColumnsOf(u) && c in u.val && RoleOf(u, c) == Refers(id)
    }

    ghost predicate IsMint(u: Insert, id: Id) {
      exists c :: c in ColumnsOf(u) && c in u.val && RoleOf(u, c) == Mints(id)
    }
  }

  /** After the pre-scan an id can be written unless it is marked as still to be minted. */
  predicate Usable(pool: Pool, scanned: bool, id: Id) {
    if id in pool then pool[id].linked else scanned
  }

  function Translate(pool: Pool, id: Id, val: Cell): Cell {
    if id in pool then pool[id].cell else val
  }

  ghost predicate Ready(schema: Schema, pool: Pool, scanned: bool, u: Insert) {
    forall id :: schema.IsRef(u, id) ==> Usable(pool, scanned, id)
  }

  /** What one column of a written row must hold, given the pool. */
  ghost predicate CellIs(schema: Schema, mint: Mint, rows: seq<Row>, pool: Pool, u: Insert, cells: map<string, Cell>,
                         c: string)
    requires c in u.val
  {
    && c in cells
    && match schema.RoleOf(u, c)
       case Plain => cells[c] == u.val[c]
       case Refers(id) => cells[c] == Translate(pool, id, u.val[c])
       case Mints(id) => cells[c] == mint(rows, u, c)
  }

  ghost predicate FilledUpTo(schema: Schema, mint: Mint, rows: seq<Row>, pool: Pool, u: Insert,
                             cells: map<string, Cell>, n: nat)
    requires n <= |schema.ColumnsOf(u)|
  {
    && (forall i :: 0 <= i < n && schema.ColumnsOf(u)[i] in u.val ==>
      CellIs(schema, mint, rows, pool, u, cells, schema.ColumnsOf(u)[i]))
    && (forall c :: c in cells ==> c in schema.ColumnsOf(u)[..n] && c in u.val)
  }

  /** The pool after a row's inventions were put in. */
  function PutAll(pool: Pool, inventions: seq<Invention>, cells: map<string, Cell>): Pool {
    if inventions == [] then pool
    else
      var last := inventions[|inventions| - 1];
      var before := PutAll(pool, inventions[..|inventions| - 1], cells);
      before[last.id := Record(if last.column in cells then cells[last.column] else Cell("", true), true)]
  }

  /** Everything one attempt to write a row may do. */
  ghost predicate Attempt(schema: Schema, mint: Mint, scanned: bool, u: Insert, pool: Pool, rows: seq<Row>,
                          deferred: seq<Insert>,
                          pool': Pool, rows': seq<Row>, deferred': seq<Insert>) {
    if Ready(schema, pool, scanned, u) then
      && |rows'| == |rows| + 1 && rows' == rows + [rows'[|rows|]] && deferred' == deferred
      && rows'[|rows|].sheet == u.sheet
      && FilledUpTo(schema, mint, rows, pool, u, rows'[|rows|].cells, |schema.ColumnsOf(u)|)
      && pool' == PutAll(pool, schema.AllInventions(u), rows'[|rows|].cells)
    else
      pool' == pool && rows' == rows && deferred' == deferred + [u]
  }

  // ---------------------------------------------------------------------------
  // What an attempt does to the pool

  ghost predicate Invents(inventions: seq<Invention>, id: Id) {
    exists i :: 0 <= i < |inventions| && inventions[i].id == id
  }

  lemma {:induction false} InventionsAreMints(schema: Schema, u: Insert, n: nat, id: Id)
    requires n <= |schema.ColumnsOf(u)|
    ensures Invents(schema.Inventions(u, n), id) <==>
            exists i ::
              0 <= i < n && schema.ColumnsOf(u)[i] in u.val && schema.RoleOf(u, schema.ColumnsOf(u)[i]) == Mints(id)
  {
    if n > 0 {
      InventionsAreMints(schema, u, n - 1, id);
      var c := schema.ColumnsOf(u)[n - 1];
      var front, all := schema.Inventions(u, n - 1), schema.Inventions(u, n);
      if c in u.val && schema.RoleOf(u, c).Mints? {
        assert all[|front|] == Invention(schema.RoleOf(u, c).id, c);
        assert Invents(all, id) <==> Invents(front, id) || schema.RoleOf(u, c).id == id by {
          if Invents(front, id) {
            var i :| 0 <= i < |front| && front[i].id == id;
            assert all[i].id == id;
          }
        }
      }
    }
  }

  lemma MintIsInvention(schema: Schema, u: Insert, id: Id)
    ensures schema.IsMint(u, id) <==> Invents(schema.AllInventions(u), id)
  {
    InventionsAreMints(schema, u, |schema.ColumnsOf(u)|, id);
  }

  /** Putting inventions in makes their ids usable and touches nothing else. */
  lemma {:induction false} PutAllAt(pool: Pool, inventions: seq<Invention>, cells: map<string, Cell>, id: Id)
    ensures var after := PutAll(pool, inventions, cells);
            if Invents(inventions, id) then id in after && after[id].linked
            else (id in after <==> id in pool) && (id in pool ==> after[id] == pool[id])
  {
    if inventions != [] {
      var front := inventions[..|inventions| - 1];
      PutAllAt(pool, front, cells, id);
      if Invents(front, id) {
        var i :| 0 <= i < |front| && front[i].id == id;
        assert inventions[i].id == id;
      } else if inventions[|inventions| - 1].id != id {
        assert forall i :: 0 <= i < |front| ==> inventions[i] == front[i];
      }
    }
  }

  // ---------------------------------------------------------------------------
  // Which rows can be written at all

  /** The rows that can be written within `n` waves, given the pool after the scan. */
  ghost function Wave(schema: Schema, base: Pool, batch: seq<Insert>, n: nat): set<Insert> {
    if n == 0 then {}
    else set u | u in batch && Served(schema, base, Wave(schema, base, batch, n - 1), u)
  }

  /** Every reference of `u` is usable from the start or minted by one of `providers`. */
  ghost predicate Served(schema: Schema, base: Pool, providers: set<Insert>, u: Insert) {
    forall id :: schema.IsRef(u, id) ==> Usable(base, true, id) || exists w :: w in providers && schema.IsMint(w, id)
  }

  ghost predicate Resolvable(schema: Schema, base: Pool, batch: seq<Insert>, u: Insert) {
    exists n: nat :: u in Wave(schema, base, batch, n)
  }

  lemma {:induction false} WaveGrows(schema: Schema, base: Pool, batch: seq<Insert>, n: nat, m: nat)
    requires n <= m
    ensures Wave(schema, base, batch, n) <= Wave(schema, base, batch, m)
  {
    if n > 0 {
      WaveGrows(schema, base, batch, n - 1, m - 1);
    }
  }

  /** A row served by resolvable rows is resolvable: finitely many providers fit in one wave. */
  lemma ServedIsResolvable(schema: Schema, base: Pool, batch: seq<Insert>, providers: set<Insert>, u: Insert)
    requires u in batch && Served(schema, base, providers, u)
    requires forall w :: w in providers ==> Resolvable(schema, base, batch, w)
    ensures Resolvable(schema, base, batch, u)
  {
    var n := CommonWave(schema, base, batch, providers);
    hide Schema.IsRef, Schema.IsMint, Usable;
    ServedByMore(schema, base, providers, Wave(schema, base, batch, n), u);
    hide Served;
    assert u in Wave(schema, base, batch, n + 1);
  }

  lemma ServedByMore(schema: Schema, base: Pool, providers: set<Insert>, more: set<Insert>, u: Insert)
    requires Served(schema, base, providers, u) && providers <= more
    ensures Served(schema, base, more, u)
  {
    hide Schema.IsRef, Schema.IsMint, Usable;
  }

  lemma CommonWave(schema: Schema, base: Pool, batch: seq<Insert>, providers: set<Insert>) returns (n: nat)
    requires forall w :: w in providers ==> Resolvable(schema, base, batch, w)
    ensures providers <= Wave(schema, base, batch, n)
  {
    if providers == {} {
      n := 0;
    } else {
      var w :| w in providers;
      var m := CommonWave(schema, base, batch, providers - {w});
      var k: nat :| w in Wave(schema, base, batch, k);
      n := if m < k then k else m;
      WaveGrows(schema, base, batch, m, n);
      WaveGrows(schema, base, batch, k, n);
    }
  }

  /** A rank that strictly decreases along references to ids minted in the batch. */
  ghost predicate IsRank(schema: Schema, base: Pool, batch: seq<Insert>, rank: map<Insert, nat>) {
    && (forall u :: u in batch ==> u in rank)
    && forall u, id :: u in batch && schema.IsRef(u, id) && !Usable(base, true, id) ==>
         exists w :: w in batch && schema.IsMint(w, id) && rank[w] < rank[u]
  }

  /** In a batch without cyclic references every row is resolvable. */
  lemma {:induction false} AcyclicIsResolvable(schema: Schema, base: Pool, batch: seq<Insert>, rank: map<Insert, nat>,
                                               u: Insert)
    requires IsRank(schema, base, batch, rank) && u in batch
    ensures u in Wave(schema, base, batch, rank[u] + 1)
    decreases rank[u]
  {
    hide Schema.IsRef, Schema.IsMint, Usable;
    var below := Wave(schema, base, batch, rank[u]);
    forall id | schema.IsRef(u, id) && !Usable(base, true, id)
      ensures exists w :: w in below && schema.IsMint(w, id)
    {
      var w :| w in batch && schema.IsMint(w, id) && rank[w] < rank[u];
      AcyclicIsResolvable(schema, base, batch, rank, w);
      WaveGrows(schema, base, batch, rank[w] + 1, rank[u]);
    }
    assert Served(schema, base, below, u);
  }

  lemma NotBefore(schema: Schema, base: Pool, batch: seq<Insert>, u: Insert, n: nat)
    requires n == 0 || u !in Wave(schema, base, batch, n - 1)
    ensures forall j: nat :: u in Wave(schema, base, batch, j) ==> n <= j
  {
    forall j: nat | j < n ensures u !in Wave(schema, base, batch, j) {
      WaveGrows(schema, base, batch, j, n - 1);
    }
  }

  ghost function FirstWave(schema: Schema, base: Pool, batch: seq<Insert>, u: Insert, n: nat): (k: nat)
    requires u in Wave(schema, base, batch, n)
    ensures u in Wave(schema, base, batch, k) && k <= n
    ensures forall j: nat :: u in Wave(schema, base, batch, j) ==> k <= j
  {
    if n > 0 && u in Wave(schema, base, batch, n - 1) then FirstWave(schema, base, batch, u, n - 1)
    else
      NotBefore(schema, base, batch, u, n);
      n
  }

  lemma EarlierProvider(schema: Schema, base: Pool, batch: seq<Insert>, u: Insert, k: nat, id: Id) returns (w: Insert)
    requires u in Wave(schema, base, batch, k) && schema.IsRef(u, id) && !Usable(base, true, id)
    ensures k > 0 && w in batch && schema.IsMint(w, id) && w in Wave(schema, base, batch, k - 1)
  {
    assert Served(schema, base, Wave(schema, base, batch, k - 1), u);
    w :| w in Wave(schema, base, batch, k - 1) && schema.IsMint(w, id);
  }

  /** Conversely, if every row is resolvable the references are acyclic. */
  lemma ResolvableIsAcyclic(schema: Schema, base: Pool, batch: seq<Insert>) returns (rank: map<Insert, nat>)
    requires forall u :: u in batch ==> Resolvable(schema, base, batch, u)
    ensures IsRank(schema, base, batch, rank)
  {
    hide Wave, Usable;
    var units := set u | u in batch;
    var all := CommonWave(schema, base, batch, units);
    rank := map u | u in units :: FirstWave(schema, base, batch, u, all);
    forall u, id | u in batch && schema.IsRef(u, id) && !Usable(base, true, id)
      ensures exists w :: w in batch && schema.IsMint(w, id) && rank[w] < rank[u]
    {
      assert u in units;
      var w := EarlierProvider(schema, base, batch, u, rank[u], id);
      assert w in units;
    }
  }

  // ---------------------------------------------------------------------------
  // The state of a run

  ghost predicate MintedIn(schema: Schema, units: seq<Insert>, id: Id) {
    exists w :: w in units && schema.IsMint(w, id)
  }

  ghost predicate SameRecord(before: Pool, after: Pool, id: Id) {
    (id in after <==> id in before) && (id in before ==> after[id] == before[id])
  }

  /** An id is usable exactly when it was from the start or a written row has minted it; the record of any other id
      is the one the scan left. */
  ghost predicate PoolIs(schema: Schema, base: Pool, done: seq<Insert>, pool: Pool) {
    forall id ::
      && (Usable(pool, true, id) <==> Usable(base, true, id) || MintedIn(schema, done, id))
      && (MintedIn(schema, done, id) || SameRecord(base, pool, id))
  }

  /** The row written for `u`, read against the pool: references translated, minted ids recorded, the rest copied. */
  ghost predicate RowIs(schema: Schema, pool: Pool, u: Insert, row: Row) {
    && row.sheet == u.sheet
    && (forall c :: c in row.cells <==> c in schema.ColumnsOf(u) && c in u.val)
    && (forall c :: c in row.cells ==>
          match schema.RoleOf(u, c)
          case Plain => row.cells[c] == u.val[c]
          case Refers(id) => Usable(pool, true, id) && row.cells[c] == Translate(pool, id, u.val[c])
          case Mints(id) => id in pool && pool[id] == Record(row.cells[c], true))
  }

  ghost predicate MintsApart(schema: Schema, u: Insert) {
    var inv := schema.AllInventions(u);
    forall i, j :: 0 <= i < j < |inv| ==> inv[i].id != inv[j].id
  }

  /** No id is minted twice, in one row or in two. */
  ghost predicate DistinctMints(schema: Schema, batch: multiset<Insert>) {
    && (forall u, w, id :: u in batch && w in batch && schema.IsMint(u, id) && schema.IsMint(w, id) ==>
      u == w && batch[u] == 1)
    && (forall u :: u in batch ==> MintsApart(schema, u))
  }

  /** The scan marked everything the batch will mint. */
  ghost predicate Marked(schema: Schema, base: Pool, batch: seq<Insert>) {
    forall u, id :: u in batch && schema.IsMint(u, id) ==> !Usable(base, true, id)
  }

  ghost predicate Running(schema: Schema, base: Pool, batch: seq<Insert>, done: seq<Insert>, pending: multiset<Insert>,
                          pool: Pool, rows: seq<Row>) {
    && multiset(done) + pending == multiset(batch) && |rows| == |done|
    && PoolIs(schema, base, done, pool)
    && (forall u :: u in done ==> Resolvable(schema, base, batch, u))
    && (DistinctMints(schema, multiset(batch)) ==> forall i :: 0 <= i < |done| ==>
      RowIs(schema, pool, done[i], rows[i]))
  }

  lemma PoolAdvances(schema: Schema, base: Pool, done: seq<Insert>, pool: Pool, u: Insert, cells: map<string, Cell>)
    requires PoolIs(schema, base, done, pool)
    ensures PoolIs(schema, base, done + [u], PutAll(pool, schema.AllInventions(u), cells))
  {
    var after := PutAll(pool, schema.AllInventions(u), cells);
    forall id
      ensures Usable(after, true, id) <==> Usable(base, true, id) || MintedIn(schema, done + [u], id)
      ensures MintedIn(schema, done + [u], id) || SameRecord(base, after, id)
    {
      PutAllAt(pool, schema.AllInventions(u), cells, id);
      MintIsInvention(schema, u, id);
      assert Usable(pool, true, id) <==> Usable(base, true, id) || MintedIn(schema, done, id);
      assert forall w :: w in done + [u] <==> w in done || w == u;
    }
  }

  /** A row that is ready is resolvable. */
  lemma ReadyIsResolvable(schema: Schema, base: Pool, batch: seq<Insert>, done: seq<Insert>, pool: Pool, u: Insert)
    requires PoolIs(schema, base, done, pool) && Ready(schema, pool, true, u) && u in batch
    requires forall w :: w in done ==> Resolvable(schema, base, batch, w)
    ensures Resolvable(schema, base, batch, u)
  {
    var providers := set w | w in done;
    forall id | schema.IsRef(u, id)
      ensures Usable(base, true, id) || exists w :: w in providers && schema.IsMint(w, id)
    {
      assert Usable(pool, true, id);
      if MintedIn(schema, done, id) {
        var w :| w in done && schema.IsMint(w, id);
        assert w in providers;
      }
    }
    ServedIsResolvable(schema, base, batch, providers, u);
  }

  /** Nothing written so far uses an id that a pending row is about to mint. */
  lemma PendingMintIsFresh(schema: Schema, base: Pool, batch: seq<Insert>, done: seq<Insert>, pool: Pool, u: Insert,
                           id: Id)
    requires PoolIs(schema, base, done, pool) && Marked(schema, base, batch) && DistinctMints(schema, multiset(batch))
    requires multiset(done) + multiset{u} <= multiset(batch) && schema.IsMint(u, id)
    ensures !Usable(pool, true, id)
  {
    assert u in multiset(batch);
    if MintedIn(schema, done, id) {
      var w :| w in multiset(done) && schema.IsMint(w, id);
    }
  }

  lemma RowSurvives(schema: Schema, pool: Pool, w: Insert, row: Row, u: Insert, cells: map<string, Cell>)
    requires RowIs(schema, pool, w, row)
    requires forall id :: schema.IsMint(u, id) ==> !Usable(pool, true, id)
    ensures RowIs(schema, PutAll(pool, schema.AllInventions(u), cells), w, row)
  {
    forall c | c in row.cells && !schema.RoleOf(w, c).Plain?
      ensures var id, after := schema.RoleOf(w, c).id, PutAll(pool, schema.AllInventions(u), cells);
              (id in after <==> id in pool) && (id in pool ==> after[id] == pool[id])
    {
      var id := schema.RoleOf(w, c).id;
      PutAllAt(pool, schema.AllInventions(u), cells, id);
      MintIsInvention(schema, u, id);
      assert Usable(pool, true, id);
    }
  }

  /** A freshly written row reads right against the pool it has just updated. */
  lemma {:induction false} PutAllRecords(pool: Pool, inventions: seq<Invention>, cells: map<string, Cell>, i: nat)
    requires i < |inventions| && inventions[i].column in cells
    requires forall j, k :: 0 <= j < k < |inventions| ==> inventions[j].id != inventions[k].id
    ensures var after := PutAll(pool, inventions, cells);
            inventions[i].id in after && after[inventions[i].id] == Record(cells[inventions[i].column], true)
  {
    var front := inventions[..|inventions| - 1];
    if i < |front| {
      PutAllRecords(pool, front, cells, i);
      assert front[i] == inventions[i];
    }
  }

  lemma {:induction false} InventionAt(schema: Schema, u: Insert, n: nat, k: nat) returns (i: nat)
    requires k < n <= |schema.ColumnsOf(u)| && schema.ColumnsOf(u)[k] in u.val
      && schema.RoleOf(u, schema.ColumnsOf(u)[k]).Mints?
    ensures i < |schema.Inventions(u, n)|
    ensures schema.Inventions(u, n)[i] == Invention(schema.RoleOf(u, schema.ColumnsOf(u)[k]).id, schema.ColumnsOf(u)[k])
  {
    if k == n - 1 {
      i := |schema.Inventions(u, n - 1)|;
    } else {
      i := InventionAt(schema, u, n - 1, k);
    }
  }

  lemma NewRowIs(schema: Schema, mint: Mint, rows: seq<Row>, pool: Pool, u: Insert, row: Row)
    requires row.sheet == u.sheet && FilledUpTo(schema, mint, rows, pool, u, row.cells, |schema.ColumnsOf(u)|)
    requires Ready(schema, pool, true, u) && MintsApart(schema, u)
    requires forall id :: schema.IsMint(u, id) ==> !Usable(pool, true, id)
    ensures RowIs(schema, PutAll(pool, schema.AllInventions(u), row.cells), u, row)
  {
    var cols := schema.ColumnsOf(u);
    var after := PutAll(pool, schema.AllInventions(u), row.cells);
    assert cols[..|cols|] == cols;
    forall c | c in cols && c in u.val
      ensures c in row.cells
      ensures match schema.RoleOf(u, c)
              case Plain => row.cells[c] == u.val[c]
              case Refers(id) => Usable(after, true, id) && row.cells[c] == Translate(after, id, u.val[c])
              case Mints(id) => id in after && after[id] == Record(row.cells[c], true)
    {
      var k :| 0 <= k < |cols| && cols[k] == c;
      assert CellIs(schema, mint, rows, pool, u, row.cells, cols[k]);
      match schema.RoleOf(u, c)
      case Plain =>
      case Refers(id) =>
        assert schema.IsRef(u, id) && Usable(pool, true, id);
        PutAllAt(pool, schema.AllInventions(u), row.cells, id);
        MintIsInvention(schema, u, id);
      case Mints(id) =>
        var i := InventionAt(schema, u, |cols|, k);
        PutAllRecords(pool, schema.AllInventions(u), row.cells, i);
    }
  }

  /** One attempt keeps the run on track: a ready row moves from pending to done, any other row is put off. */
  lemma AttemptKeepsRunning(schema: Schema, mint: Mint, base: Pool, batch: seq<Insert>, done: seq<Insert>,
                            pending: multiset<Insert>,
                            u: Insert, pool: Pool, rows: seq<Row>, pool': Pool, rows': seq<Row>)
    requires Marked(schema, base, batch) && Running(schema, base, batch, done, pending, pool, rows)
    requires u in pending && Ready(schema, pool, true, u)
      && Attempt(schema, mint, true, u, pool, rows, [], pool', rows', [])
    ensures Running(schema, base, batch, done + [u], pending - multiset{u}, pool', rows')
  {
    hide Attempt, Ready, Marked, PoolIs, Resolvable, RowIs, DistinctMints, PutAll, FilledUpTo;
    assert u in multiset(batch) && multiset(done + [u]) + (pending - multiset{u}) == multiset(batch);
    var row := AttemptRow(schema, mint, u, pool, rows, pool', rows');
    PoolAdvances(schema, base, done, pool, u, row.cells);
    ReadyIsResolvable(schema, base, batch, done, pool, u);
    if DistinctMints(schema, multiset(batch)) {
      assert multiset(done) + multiset{u} <= multiset(batch);
      forall id | schema.IsMint(u, id) ensures !Usable(pool, true, id) {
        PendingMintIsFresh(schema, base, batch, done, pool, u, id);
      }
      MintsApartIn(schema, multiset(batch), u);
      NewRowIs(schema, mint, rows, pool, u, row);
      forall i | 0 <= i < |done + [u]| ensures RowIs(schema, pool', (done + [u])[i], rows'[i]) {
        if i < |done| {
          RowSurvives(schema, pool, done[i], rows[i], u, row.cells);
        }
      }
    }
  }

  lemma AttemptRow(schema: Schema, mint: Mint, u: Insert, pool: Pool, rows: seq<Row>, pool': Pool, rows': seq<Row>)
    returns (row: Row)
    requires Ready(schema, pool, true, u) && Attempt(schema, mint, true, u, pool, rows, [], pool', rows', [])
    ensures rows' == rows + [row] && row.sheet == u.sheet
      && FilledUpTo(schema, mint, rows, pool, u, row.cells, |schema.ColumnsOf(u)|)
    ensures pool' == PutAll(pool, schema.AllInventions(u), row.cells)
  {
    row := rows'[|rows|];
  }

  lemma MintsApartIn(schema: Schema, batch: multiset<Insert>, u: Insert)
    requires DistinctMints(schema, batch) && u in batch
    ensures MintsApart(schema, u)
  {
  }

  /** When no pending row is ready, the pending rows are exactly the unresolvable ones. */
  lemma StuckIsUnresolvable(schema: Schema, base: Pool, batch: seq<Insert>, done: seq<Insert>, left: seq<Insert>,
                            pool: Pool, rows: seq<Row>)
    requires Running(schema, base, batch, done, multiset(left), pool, rows)
    requires forall u :: u in left ==> !Ready(schema, pool, true, u)
    ensures forall u :: u in done ==> Resolvable(schema, base, batch, u)
    ensures forall u :: u in left ==> !Resolvable(schema, base, batch, u)
  {
    forall u, n: nat | u in left && u in Wave(schema, base, batch, n) ensures false {
      WaveIsDone(schema, base, batch, done, left, pool, rows, n);
    }
  }

  lemma ServedByDoneIsReady(schema: Schema, base: Pool, done: seq<Insert>, pool: Pool, providers: set<Insert>,
                            u: Insert)
    requires PoolIs(schema, base, done, pool) && Served(schema, base, providers, u)
    requires forall w :: w in providers ==> w in done
    ensures Ready(schema, pool, true, u)
  {
    forall id | schema.IsRef(u, id) ensures Usable(pool, true, id) {
      if !Usable(base, true, id) {
        var w :| w in providers && schema.IsMint(w, id);
        assert MintedIn(schema, done, id);
      }
    }
  }

  lemma {:induction false} WaveIsDone(schema: Schema, base: Pool, batch: seq<Insert>, done: seq<Insert>,
                                      left: seq<Insert>, pool: Pool, rows: seq<Row>, n: nat)
    requires Running(schema, base, batch, done, multiset(left), pool, rows)
    requires forall u :: u in left ==> !Ready(schema, pool, true, u)
    ensures forall u :: u in Wave(schema, base, batch, n) ==> u in done && u !in left
  {
    hide RowIs, DistinctMints, Resolvable, Ready, Served, PoolIs;
    if n > 0 {
      WaveIsDone(schema, base, batch, done, left, pool, rows, n - 1);
      forall u | u in Wave(schema, base, batch, n) ensures u in done && u !in left {
        ServedByDoneIsReady(schema, base, done, pool, Wave(schema, base, batch, n - 1), u);
        assert u in multiset(done) + multiset(left);
      }
    }
  }
}
