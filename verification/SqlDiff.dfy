/** The keyed comparison of two tables (src/libcoopy_sqldiff/SqlCompare.cpp, src/ruby/sql_compare.rb) and its
    application (src/ruby/diff_apply_sql.rb), with the queries read as relations and `IS` as equality. */
module SqlDiff {
  import opened Common

  datatype Value = Null | Value(text: string)

  type Row = seq<Value>

  /** The columns of a table and the positions of its primary key among them. */
  datatype Schema = Schema(columns: seq<string>, key: seq<nat>)

  predicate IsSchema(s: Schema) {
    forall i :: 0 <= i < |s.key| ==> s.key[i] < |s.columns|
  }

  function KeyOf(s: Schema, r: Row): (k: seq<Value>)
    requires IsSchema(s) && |r| == |s.columns|
    ensures |k| == |s.key| && forall i :: 0 <= i < |k| ==> k[i] == r[s.key[i]]
  {
    seq(|s.key|, i requires 0 <= i < |s.key| => r[s.key[i]])
  }

  predicate Fits(s: Schema, t: seq<Row>) {
    forall i :: 0 <= i < |t| ==> |t[i]| == |s.columns|
  }

  /** A table with a trustworthy key. */
  predicate IsTable(s: Schema, t: seq<Row>) {
    IsSchema(s) && Fits(s, t) &&
    forall i, j :: 0 <= i < |t| && 0 <= j < |t| && KeyOf(s, t[i]) == KeyOf(s, t[j]) ==> i == j
  }

  /** Some row of `t` has the key of `r`: the `EXISTS` of the queries. */
  predicate Matched(s: Schema, r: Row, t: seq<Row>)
    requires IsSchema(s) && |r| == |s.columns| && Fits(s, t)
  {
    exists i :: 0 <= i < |t| && KeyOf(s, t[i]) == KeyOf(s, r)
  }

  /** `sql_data_mismatch`: some column outside the key differs. */
  predicate Mismatch(s: Schema, a: Row, b: Row)
    requires |a| == |b| == |s.columns|
  {
    exists c :: 0 <= c < |a| && c !in s.key && a[c] != b[c]
  }

  lemma KeyColumnsAgree(s: Schema, a: Row, b: Row, c: nat)
    requires IsSchema(s) && |a| == |b| == |s.columns| && KeyOf(s, a) == KeyOf(s, b) && c in s.key
    ensures c < |a| && a[c] == b[c]
  {
    var i :| 0 <= i < |s.key| && s.key[i] == c;
    assert KeyOf(s, a)[i] == KeyOf(s, b)[i];
  }

  /** With equal keys, a mismatch is any difference. */
  lemma MismatchIsDifference(s: Schema, a: Row, b: Row)
    requires IsSchema(s) && |a| == |b| == |s.columns| && KeyOf(s, a) == KeyOf(s, b)
    ensures Mismatch(s, a, b) <==> a != b
  {
    if !Mismatch(s, a, b) {
      forall c | 0 <= c < |a| ensures a[c] == b[c] {
        if c in s.key {
          KeyColumnsAgree(s, a, b, c);
        }
      }
    }
  }

  // ---------------------------------------------------------------------------
  // The queries

  /** Rows of `from` whose key is not in `against`. */
  function Missing(s: Schema, from: seq<Row>, against: seq<Row>): seq<Row>
    requires IsSchema(s) && Fits(s, from) && Fits(s, against)
  {
    if from == [] then []
    else
      var n := |from| - 1;
      Missing(s, from[..n], against) + if Matched(s, from[n], against) then [] else [from[n]]
  }

  /** The join of one row of table 1 with table 2. */
  function Partners(s: Schema, a: Row, t: seq<Row>): seq<(Row, Row)>
    requires IsSchema(s) && |a| == |s.columns| && Fits(s, t)
  {
    if t == [] then []
    else
      var n := |t| - 1;
      Partners(s, a, t[..n]) + if KeyOf(s, a) == KeyOf(s, t[n]) && Mismatch(s, a, t[n]) then [(a, t[n])] else []
  }

  function Mismatched(s: Schema, t1: seq<Row>, t2: seq<Row>): seq<(Row, Row)>
    requires IsSchema(s) && Fits(s, t1) && Fits(s, t2)
  {
    if t1 == [] then []
    else
      var n := |t1| - 1;
      Mismatched(s, t1[..n], t2) + Partners(s, t1[n], t2)
  }

  // ---------------------------------------------------------------------------
  // Row changes

  datatype Mode = Insert | Update | Delete

  datatype CellChange = CellChange(value: Value, newValue: Option<Value>)

  datatype RowChange = RowChange(mode: Mode, cells: seq<CellChange>)

  function Plain(r: Row): (cells: seq<CellChange>)
    ensures |cells| == |r| && forall c :: 0 <= c < |r| ==> cells[c] == CellChange(r[c], None)
  {
    seq(|r|, c requires 0 <= c < |r| => CellChange(r[c], None))
  }

  function Paired(a: Row, b: Row): (cells: seq<CellChange>)
    requires |a| == |b|
    ensures |cells| == |a|
    ensures forall c :: 0 <= c < |a| ==> cells[c] == CellChange(a[c], if a[c] == b[c] then None else Some(b[c]))
  {
    seq(|a|, c requires 0 <= c < |a| => CellChange(a[c], if a[c] == b[c] then None else Some(b[c])))
  }

  function Values(rc: RowChange): (r: Row)
    ensures |r| == |rc.cells| && forall c :: 0 <= c < |r| ==> r[c] == rc.cells[c].value
  {
    seq(|rc.cells|, c requires 0 <= c < |rc.cells| => rc.cells[c].value)
  }

  /** `r` with the touched columns set. */
  function SetTouched(r: Row, rc: RowChange): (u: Row)
    requires |r| == |rc.cells|
    ensures |u| == |r|
    ensures forall c :: 0 <= c < |u| ==> u[c] == if rc.cells[c].newValue.Some? then rc.cells[c].newValue.value else r[c]
  {
    seq(|r|, c requires 0 <= c < |r| => if rc.cells[c].newValue.Some? then rc.cells[c].newValue.value else r[c])
  }

  /** The row the change takes away, and the row it brings. */
  function Before(rc: RowChange): Option<Row> {
    if rc.mode.Insert? then None else Some(Values(rc))
  }

  function After(rc: RowChange): Option<Row> {
    if rc.mode.Insert? then Some(Values(rc))
    else if rc.mode.Update? then Some(SetTouched(Values(rc), rc))
    else None
  }

  function Changes<T>(mode: Mode, rows: seq<T>, cells: T -> seq<CellChange>): (r: seq<RowChange>)
    ensures |r| == |rows| && forall i :: 0 <= i < |rows| ==> r[i] == RowChange(mode, cells(rows[i]))
  {
    seq(|rows|, i requires 0 <= i < |rows| => RowChange(mode, cells(rows[i])))
  }

  function PairedOrNone(p: (Row, Row)): seq<CellChange> {
    if |p.0| == |p.1| then Paired(p.0, p.1) else []
  }

  /** The whole comparison, in order of emission. */
  function Diff(s: Schema, t1: seq<Row>, t2: seq<Row>): seq<RowChange>
    requires IsSchema(s) && Fits(s, t1) && Fits(s, t2)
  {
    Changes(Insert, Missing(s, t2, t1), Plain) +
    Changes(Update, Mismatched(s, t1, t2), PairedOrNone) +
    Changes(Delete, Missing(s, t1, t2), Plain)
  }

  /** Both tables have the same columns and the same key, which is not empty. */
  predicate Comparable(s1: Schema, s2: Schema) {
    s1 == s2 && s1.key != []
  }

  /** `SqlCompare::apply`, with every change handed on collected in order; nothing on a schema that cannot be
      compared. */
  method Compare(s1: Schema, s2: Schema, t1: seq<Row>, t2: seq<Row>) returns (ok: bool, output: seq<RowChange>)
    requires IsSchema(s1) && Fits(s1, t1) && Fits(s2, t2)
    ensures ok <==> Comparable(s1, s2)
    ensures ok ==> output == Diff(s1, t1, t2)
    ensures !ok ==> output == []
  {
    output := [];
    if s1.columns != s2.columns {
      return false, output;
    }
    if s1.key != s2.key {
      return false, output;
    }
    if |s1.key| == 0 {
      return false, output;
    }
    var inserts := Missing(s1, t2, t1);
    for i := 0 to |inserts|
      invariant output == Changes(Insert, inserts[..i], Plain)
    {
      output := output + [RowChange(Insert, Plain(inserts[i]))];
    }
    assert inserts[..|inserts|] == inserts;
    var updates := Mismatched(s1, t1, t2);
    for i := 0 to |updates|
      invariant output == Changes(Insert, inserts, Plain) + Changes(Update, updates[..i], PairedOrNone)
    {
      output := output + [RowChange(Update, PairedOrNone(updates[i]))];
    }
    assert updates[..|updates|] == updates;
    var deletes := Missing(s1, t1, t2);
    ghost var front := output;
    for i := 0 to |deletes|
      invariant output == front + Changes(Delete, deletes[..i], Plain)
    {
      output := output + [RowChange(Delete, Plain(deletes[i]))];
    }
    assert deletes[..|deletes|] == deletes;
    ok := true;
  }

  // ---------------------------------------------------------------------------
  // Applying changes

  function Without(t: seq<Row>, r: Row): seq<Row> {
    if t == [] then [] else Without(t[..|t| - 1], r) + if t[|t| - 1] == r then [] else [t[|t| - 1]]
  }

  function Updated(t: seq<Row>, rc: RowChange): (u: seq<Row>)
    ensures |u| == |t|
    ensures forall i :: 0 <= i < |t| ==> u[i] == if t[i] == Values(rc) then SetTouched(t[i], rc) else t[i]
  {
    seq(|t|, i requires 0 <= i < |t| => if t[i] == Values(rc) then SetTouched(t[i], rc) else t[i])
  }

  function Applied(t: seq<Row>, rc: RowChange): seq<Row> {
    match rc.mode
    case Insert => t + [Values(rc)]
    case Update => Updated(t, rc)
    case Delete => Without(t, Values(rc))
  }

  function AppliedAll(t: seq<Row>, cs: seq<RowChange>): seq<Row> {
    if cs == [] then t else Applied(AppliedAll(t, cs[..|cs| - 1]), cs[|cs| - 1])
  }

  /** A database table under `DiffApplySql`. */
  class SqlTable {
    var rows: seq<Row>

    constructor (rows: seq<Row>)
      ensures this.rows == rows
    {
      this.rows := rows;
    }

    method RowInsert(rc: RowChange)
      modifies this
      ensures rows == old(rows) + [Values(rc)]
    {
      rows := rows + [Values(rc)];
    }

    /** Every row that is equal in all columns goes. */
    method RowDelete(rc: RowChange)
      modifies this
      ensures rows == Without(old(rows), Values(rc))
    {
      var kept: seq<Row> := [];
      for i := 0 to |rows|
        invariant rows == old(rows)
        invariant kept == Without(rows[..i], Values(rc))
      {
        assert rows[..i + 1][..i] == rows[..i];
        if rows[i] != Values(rc) {
          kept := kept + [rows[i]];
        }
      }
      assert rows[..|rows|] == rows;
      rows := kept;
    }

    /** Every row that is equal in all columns gets the new values in the touched ones. */
    method RowUpdate(rc: RowChange)
      modifies this
      ensures rows == Updated(old(rows), rc)
    {
      for i := 0 to |rows|
        invariant |rows| == |old(rows)|
        invariant forall j :: 0 <= j < i ==> rows[j] == Updated(old(rows), rc)[j]
        invariant forall j :: i <= j < |rows| ==> rows[j] == old(rows)[j]
      {
        if rows[i] == Values(rc) {
          rows := rows[i := SetTouched(rows[i], rc)];
        }
      }
    }

    /** `apply_row` for every change in turn. */
    method ApplyRows(cs: seq<RowChange>)
      modifies this
      ensures rows == AppliedAll(old(rows), cs)
    {
      for i := 0 to |cs|
        invariant rows == AppliedAll(old(rows), cs[..i])
      {
        assert cs[..i + 1][..i] == cs[..i];
        match cs[i].mode {
          case Insert => RowInsert(cs[i]);
          case Update => RowUpdate(cs[i]);
          case Delete => RowDelete(cs[i]);
        }
      }
      assert cs[..|cs|] == cs;
    }
  }

  // ---------------------------------------------------------------------------
  // What makes a diff of two tables

  /** The change is about one row, and says exactly how it differs between the tables. */
  predicate IsChange(s: Schema, t1: seq<Row>, t2: seq<Row>, rc: RowChange)
    requires IsTable(s, t1) && IsTable(s, t2)
  {
    |rc.cells| == |s.columns| &&
    match rc.mode
    case Insert => Values(rc) in t2 && !Matched(s, Values(rc), t1)
    case Delete => Values(rc) in t1 && !Matched(s, Values(rc), t2)
    case Update => Values(rc) in t1 && SetTouched(Values(rc), rc) in t2 &&
                   KeyOf(s, SetTouched(Values(rc), rc)) == KeyOf(s, Values(rc)) &&
                   (exists c :: 0 <= c < |rc.cells| && rc.cells[c].newValue.Some?) &&
                   forall c :: 0 <= c < |rc.cells| && rc.cells[c].newValue.Some? ==>
                     c !in s.key && rc.cells[c].newValue.value != rc.cells[c].value
  }

  function ChangeKey(s: Schema, rc: RowChange): seq<Value>
    requires IsSchema(s) && |rc.cells| == |s.columns|
  {
    KeyOf(s, Values(rc))
  }

  /** `cs` says every difference once, in whatever order: one change a key, and every row of one table that is
      not in the other accounted for. */
  predicate IsDiff(s: Schema, t1: seq<Row>, t2: seq<Row>, cs: seq<RowChange>)
    requires IsTable(s, t1) && IsTable(s, t2)
  {
    (forall i :: 0 <= i < |cs| ==> IsChange(s, t1, t2, cs[i])) &&
    (forall i, j :: 0 <= i < |cs| && 0 <= j < |cs| && ChangeKey(s, cs[i]) == ChangeKey(s, cs[j]) ==> i == j) &&
    (forall r :: r in t2 && r !in t1 ==> Brings(cs, r)) &&
    (forall r :: r in t1 && r !in t2 ==> Takes(cs, r))
  }

  predicate Brings(cs: seq<RowChange>, r: Row) {
    exists i :: 0 <= i < |cs| && After(cs[i]) == Some(r)
  }

  predicate Takes(cs: seq<RowChange>, r: Row) {
    exists i :: 0 <= i < |cs| && Before(cs[i]) == Some(r)
  }

  predicate Touches(s: Schema, cs: seq<RowChange>, k: seq<Value>)
    requires IsSchema(s) && forall i :: 0 <= i < |cs| ==> |cs[i].cells| == |s.columns|
  {
    exists i :: 0 <= i < |cs| && ChangeKey(s, cs[i]) == k
  }

  // ---------------------------------------------------------------------------
  // One change on a keyed table

  lemma {:induction false} WithoutMembers(t: seq<Row>, r: Row, x: Row)
    ensures x in Without(t, r) <==> x in t && x != r
  {
    if t != [] {
      var n := |t| - 1;
      WithoutMembers(t[..n], r, x);
      assert t == t[..n] + [t[n]];
    }
  }

  lemma Prefix(s: Schema, t: seq<Row>, n: nat)
    requires IsTable(s, t) && n <= |t|
    ensures IsTable(s, t[..n])
  {
    forall i, j | 0 <= i < n && 0 <= j < n && KeyOf(s, t[..n][i]) == KeyOf(s, t[..n][j]) ensures i == j {
      assert t[..n][i] == t[i] && t[..n][j] == t[j];
    }
  }

  /** A row with a key of its own may be added at the end. */
  lemma Grown(s: Schema, t: seq<Row>, r: Row)
    requires IsTable(s, t) && |r| == |s.columns| && !Matched(s, r, t)
    ensures IsTable(s, t + [r])
  {
    var u := t + [r];
    forall i, j | 0 <= i < |u| && 0 <= j < |u| && KeyOf(s, u[i]) == KeyOf(s, u[j]) ensures i == j {
      if i < |t| && j < |t| {
        assert u[i] == t[i] && u[j] == t[j];
      }
    }
  }

  /** The last row is apart from any choice of earlier ones. */
  lemma LastIsApart(s: Schema, t: seq<Row>, w: seq<Row>)
    requires IsTable(s, t) && t != [] && Fits(s, w)
    requires forall i :: 0 <= i < |w| ==> w[i] in t[..|t| - 1]
    ensures !Matched(s, t[|t| - 1], w)
  {
    var n := |t| - 1;
    forall i | 0 <= i < |w| ensures KeyOf(s, w[i]) != KeyOf(s, t[n]) {
      var j :| 0 <= j < n && t[..n][j] == w[i];
      assert t[j] == w[i];
    }
  }

  lemma {:induction false} WithoutIsTable(s: Schema, t: seq<Row>, r: Row)
    requires IsTable(s, t)
    ensures IsTable(s, Without(t, r))
  {
    if t != [] {
      var n := |t| - 1;
      Prefix(s, t, n);
      WithoutIsTable(s, t[..n], r);
      var w := Without(t[..n], r);
      forall i | 0 <= i < |w| ensures w[i] in t[..n] {
        WithoutMembers(t[..n], r, w[i]);
      }
      LastIsApart(s, t, w);
      Grown(s, w, t[n]);
      assert w + [] == w;
    }
  }

  lemma UpdatedIsTable(s: Schema, t: seq<Row>, rc: RowChange)
    requires IsTable(s, t) && |rc.cells| == |s.columns|
    requires KeyOf(s, SetTouched(Values(rc), rc)) == KeyOf(s, Values(rc))
    ensures IsTable(s, Updated(t, rc))
  {
    var u := Updated(t, rc);
    assert forall i :: 0 <= i < |t| ==> |u[i]| == |s.columns| && KeyOf(s, u[i]) == KeyOf(s, t[i]);
  }

  lemma UpdatedMembers(t: seq<Row>, rc: RowChange, x: Row)
    requires Values(rc) in t
    ensures x in Updated(t, rc) <==> (x in t && x != Values(rc)) || x == SetTouched(Values(rc), rc)
  {
    var u := Updated(t, rc);
    var k :| 0 <= k < |t| && t[k] == Values(rc);
    assert u[k] == SetTouched(Values(rc), rc);
    if x in t && x != Values(rc) {
      var i :| 0 <= i < |t| && t[i] == x;
      assert u[i] == x;
    }
  }

  lemma KeyIsUnique(s: Schema, t: seq<Row>, a: Row, b: Row)
    requires IsTable(s, t) && a in t && b in t && |a| == |b| == |s.columns| && KeyOf(s, a) == KeyOf(s, b)
    ensures a == b
  {
    var i :| 0 <= i < |t| && t[i] == a;
    var j :| 0 <= j < |t| && t[j] == b;
    assert KeyOf(s, t[i]) == KeyOf(s, t[j]);
  }

  lemma MemberIsMatched(s: Schema, t: seq<Row>, a: Row, r: Row)
    requires IsSchema(s) && Fits(s, t) && a in t && |r| == |s.columns|
    ensures |a| == |s.columns|
    ensures KeyOf(s, a) == KeyOf(s, r) ==> Matched(s, r, t)
  {
    var i :| 0 <= i < |t| && t[i] == a;
  }

  // ---------------------------------------------------------------------------
  // Any order of application

  /** `r` has been left alone by `done`. */
  predicate LeftAlone(s: Schema, t1: seq<Row>, done: seq<RowChange>, r: Row)
    requires IsSchema(s) && forall i :: 0 <= i < |done| ==> |done[i].cells| == |s.columns|
  {
    r in t1 && |r| == |s.columns| && !Touches(s, done, KeyOf(s, r))
  }

  predicate Sized(s: Schema, cs: seq<RowChange>) {
    forall i :: 0 <= i < |cs| ==> |cs[i].cells| == |s.columns|
  }

  /** The table after the changes `done`: a keyed table of the rows left alone and the rows brought. */
  ghost predicate Midway(s: Schema, t1: seq<Row>, done: seq<RowChange>, t: seq<Row>)
    requires IsSchema(s) && Sized(s, done)
  {
    IsTable(s, t) && forall r :: r in t <==> LeftAlone(s, t1, done, r) || Brings(done, r)
  }

  /** What a change needs of the table it is applied to: the unique key holds, or the row is there. */
  predicate Ready(s: Schema, t: seq<Row>, rc: RowChange)
    requires IsTable(s, t) && |rc.cells| == |s.columns|
  {
    if rc.mode.Insert? then !Matched(s, Values(rc), t) else Values(rc) in t
  }

  lemma BroughtKey(s: Schema, t1: seq<Row>, t2: seq<Row>, rc: RowChange, r: Row)
    requires IsTable(s, t1) && IsTable(s, t2) && IsChange(s, t1, t2, rc) && After(rc) == Some(r)
    ensures r in t2 && |r| == |s.columns| && KeyOf(s, r) == ChangeKey(s, rc)
  {
  }

  lemma InsertIsApart(s: Schema, t1: seq<Row>, t2: seq<Row>, cs: seq<RowChange>, i: nat, x: Row)
    requires IsTable(s, t1) && IsTable(s, t2) && IsDiff(s, t1, t2, cs) && i < |cs| && cs[i].mode.Insert?
    requires Sized(s, cs[..i]) && (LeftAlone(s, t1, cs[..i], x) || Brings(cs[..i], x))
    ensures |x| == |s.columns| && |cs[i].cells| == |s.columns| && KeyOf(s, x) != KeyOf(s, Values(cs[i]))
  {
    var done := cs[..i];
    assert IsChange(s, t1, t2, cs[i]);
    if LeftAlone(s, t1, done, x) {
      hide KeyOf;
      MemberIsMatched(s, t1, x, Values(cs[i]));
    } else {
      var k :| 0 <= k < |done| && After(done[k]) == Some(x);
      assert done[k] == cs[k] && IsChange(s, t1, t2, cs[k]);
      hide KeyOf;
      BroughtKey(s, t1, t2, cs[k], x);
      assert ChangeKey(s, cs[k]) != ChangeKey(s, cs[i]);
    }
  }

  lemma BecomesReady(s: Schema, t1: seq<Row>, t2: seq<Row>, cs: seq<RowChange>, i: nat, t: seq<Row>)
    requires IsTable(s, t1) && IsTable(s, t2) && IsDiff(s, t1, t2, cs) && i < |cs|
    requires Midway(s, t1, cs[..i], t)
    ensures Ready(s, t, cs[i])
  {
    var rc := cs[i];
    var done := cs[..i];
    assert IsChange(s, t1, t2, rc);
    if rc.mode.Insert? {
      forall j | 0 <= j < |t| ensures KeyOf(s, t[j]) != KeyOf(s, Values(rc)) {
        assert t[j] in t;
        InsertIsApart(s, t1, t2, cs, i, t[j]);
      }
    } else {
      forall k | 0 <= k < |done| ensures ChangeKey(s, done[k]) != KeyOf(s, Values(rc)) {
        assert done[k] == cs[k];
      }
      assert LeftAlone(s, t1, done, Values(rc));
    }
  }

  /** What one change does to the set of rows. */
  lemma AppliedMembers(s: Schema, t: seq<Row>, rc: RowChange, x: Row)
    requires IsTable(s, t) && |rc.cells| == |s.columns| && Ready(s, t, rc)
    ensures x in Applied(t, rc) <==> (x in t && Before(rc) != Some(x)) || After(rc) == Some(x)
  {
    match rc.mode
    case Insert =>
    case Update => UpdatedMembers(t, rc, x);
    case Delete => WithoutMembers(t, Values(rc), x);
  }

  lemma AppliedIsTable(s: Schema, t1: seq<Row>, t2: seq<Row>, t: seq<Row>, rc: RowChange)
    requires IsTable(s, t1) && IsTable(s, t2) && IsChange(s, t1, t2, rc) && IsTable(s, t) && Ready(s, t, rc)
    ensures IsTable(s, Applied(t, rc))
  {
    match rc.mode
    case Insert => Grown(s, t, Values(rc));
    case Update => UpdatedIsTable(s, t, rc);
    case Delete => WithoutIsTable(s, t, Values(rc));
  }

  lemma TouchesSnoc(s: Schema, done: seq<RowChange>, rc: RowChange, k: seq<Value>)
    requires IsSchema(s) && Sized(s, done) && |rc.cells| == |s.columns|
    ensures Sized(s, done + [rc])
    ensures Touches(s, done + [rc], k) <==> Touches(s, done, k) || ChangeKey(s, rc) == k
  {
    var more := done + [rc];
    if Touches(s, done, k) {
      var i :| 0 <= i < |done| && ChangeKey(s, done[i]) == k;
      assert more[i] == done[i];
    }
    assert more[|done|] == rc;
  }

  lemma BringsSnoc(done: seq<RowChange>, rc: RowChange, r: Row)
    ensures Brings(done + [rc], r) <==> Brings(done, r) || After(rc) == Some(r)
  {
    var more := done + [rc];
    if Brings(done, r) {
      var i :| 0 <= i < |done| && After(done[i]) == Some(r);
      assert more[i] == done[i];
    }
    assert more[|done|] == rc;
  }

  /** Which rows the next change leaves alone, and which stay brought. */
  lemma StepMembers(s: Schema, t1: seq<Row>, t2: seq<Row>, cs: seq<RowChange>, i: nat, t: seq<Row>, x: Row)
    requires IsTable(s, t1) && IsTable(s, t2) && IsDiff(s, t1, t2, cs) && i < |cs|
    requires Sized(s, cs[..i]) && Sized(s, cs[..i + 1])
    requires Midway(s, t1, cs[..i], t) && Ready(s, t, cs[i])
    ensures x in Applied(t, cs[i]) <==> LeftAlone(s, t1, cs[..i + 1], x) || Brings(cs[..i + 1], x)
  {
    var rc := cs[i];
    var done := cs[..i];
    assert cs[..i + 1] == done + [rc];
    assert IsChange(s, t1, t2, rc);
    hide Applied, KeyOf;
    AppliedMembers(s, t, rc, x);
    BringsSnoc(done, rc, x);
    if |x| == |s.columns| {
      TouchesSnoc(s, done, rc, KeyOf(s, x));
    }
    if Brings(done, x) {
      var k :| 0 <= k < |done| && After(done[k]) == Some(x);
      assert done[k] == cs[k] && IsChange(s, t1, t2, cs[k]);
      BroughtKey(s, t1, t2, cs[k], x);
      assert ChangeKey(s, cs[k]) != ChangeKey(s, cs[i]);
    }
    if LeftAlone(s, t1, done, x) && KeyOf(s, x) == ChangeKey(s, rc) {
      if rc.mode.Insert? {
        MemberIsMatched(s, t1, x, Values(rc));
      } else {
        KeyIsUnique(s, t1, x, Values(rc));
      }
    }
  }

  lemma DiffIsSized(s: Schema, t1: seq<Row>, t2: seq<Row>, cs: seq<RowChange>, i: nat)
    requires IsTable(s, t1) && IsTable(s, t2) && IsDiff(s, t1, t2, cs) && i <= |cs|
    ensures Sized(s, cs[..i]) && forall k :: 0 <= k < |cs| ==> IsChange(s, t1, t2, cs[k])
  {
  }

  lemma MidwayAtStart(s: Schema, t1: seq<Row>)
    requires IsTable(s, t1)
    ensures Midway(s, t1, [], t1)
  {
    assert forall r :: r in t1 ==> |r| == |s.columns|;
  }

  lemma {:induction false} StaysMidway(s: Schema, t1: seq<Row>, t2: seq<Row>, cs: seq<RowChange>, i: nat)
    requires IsTable(s, t1) && IsTable(s, t2) && IsDiff(s, t1, t2, cs) && i <= |cs|
    ensures Sized(s, cs[..i]) && Midway(s, t1, cs[..i], AppliedAll(t1, cs[..i]))
    ensures i < |cs| ==> |cs[i].cells| == |s.columns| && Ready(s, AppliedAll(t1, cs[..i]), cs[i])
  {
    DiffIsSized(s, t1, t2, cs, i);
    var t := AppliedAll(t1, cs[..i]);
    if i == 0 {
      MidwayAtStart(s, t1);
      assert cs[..0] == [];
    } else {
      StaysMidway(s, t1, t2, cs, i - 1);
      assert cs[..i][..i - 1] == cs[..i - 1];
      hide LeftAlone, Brings, Applied, IsDiff, IsChange, Ready;
      var before := AppliedAll(t1, cs[..i - 1]);
      assert t == Applied(before, cs[i - 1]);
      forall x ensures x in t <==> LeftAlone(s, t1, cs[..i], x) || Brings(cs[..i], x) {
        StepMembers(s, t1, t2, cs, i - 1, before, x);
      }
      AppliedIsTable(s, t1, t2, before, cs[i - 1]);
    }
    if i < |cs| {
      BecomesReady(s, t1, t2, cs, i, t);
    }
  }

  lemma SameRows(s: Schema, t1: seq<Row>, t2: seq<Row>, cs: seq<RowChange>, t: seq<Row>, x: Row)
    requires IsTable(s, t1) && IsTable(s, t2) && IsDiff(s, t1, t2, cs) && Sized(s, cs) && Midway(s, t1, cs, t)
    ensures x in t <==> x in t2
  {
    if x in t1 && x !in t2 {
      assert Takes(cs, x);
      var i :| 0 <= i < |cs| && Before(cs[i]) == Some(x);
      MemberIsMatched(s, t1, x, x);
      assert ChangeKey(s, cs[i]) == KeyOf(s, x);
    }
    if Brings(cs, x) {
      var i :| 0 <= i < |cs| && After(cs[i]) == Some(x);
      assert IsChange(s, t1, t2, cs[i]);
      BroughtKey(s, t1, t2, cs[i], x);
    }
    if x in t2 && x in t1 {
      MemberIsMatched(s, t1, x, x);
      forall i | 0 <= i < |cs| ensures ChangeKey(s, cs[i]) != KeyOf(s, x) {
        NoChangeOfShared(s, t1, t2, cs[i], x);
      }
    }
  }

  /** A row in both tables has no change. */
  lemma NoChangeOfShared(s: Schema, t1: seq<Row>, t2: seq<Row>, rc: RowChange, x: Row)
    requires IsTable(s, t1) && IsTable(s, t2) && IsChange(s, t1, t2, rc)
    requires x in t1 && x in t2 && |x| == |s.columns|
    ensures ChangeKey(s, rc) != KeyOf(s, x)
  {
    match rc.mode
    case Insert => MemberIsMatched(s, t1, x, Values(rc));
    case Delete => MemberIsMatched(s, t2, x, Values(rc));
    case Update =>
      var u := SetTouched(Values(rc), rc);
      if x == u {
        KeysApart(s, t1, x, Values(rc));
      } else {
        KeysApart(s, t2, x, u);
      }
  }

  lemma KeysApart(s: Schema, t: seq<Row>, a: Row, b: Row)
    requires IsTable(s, t) && a in t && b in t && |a| == |b| == |s.columns| && a != b
    ensures KeyOf(s, a) != KeyOf(s, b)
  {
    if KeyOf(s, a) == KeyOf(s, b) {
      KeyIsUnique(s, t, a, b);
    }
  }

  lemma {:induction false} CountOnce(s: Schema, t: seq<Row>, x: Row)
    requires IsTable(s, t)
    ensures multiset(t)[x] == if x in t then 1 else 0
  {
    if t != [] {
      var n := |t| - 1;
      Prefix(s, t, n);
      CountOnce(s, t[..n], x);
      assert t == t[..n] + [t[n]];
      forall i | 0 <= i < n ensures t[..n][i] != t[n] {
        assert t[..n][i] == t[i] && KeyOf(s, t[i]) != KeyOf(s, t[n]);
      }
    }
  }

  /** The law: a diff of two keyed tables, applied in whatever order its changes come, turns the first into exactly
      the second; every insert meets the unique key and every update or delete finds its row. */
  lemma ApplyDiff(s: Schema, t1: seq<Row>, t2: seq<Row>, cs: seq<RowChange>)
    requires IsTable(s, t1) && IsTable(s, t2) && IsDiff(s, t1, t2, cs)
    ensures multiset(AppliedAll(t1, cs)) == multiset(t2)
    ensures forall i :: 0 <= i < |cs| ==>
      |cs[i].cells| == |s.columns| && IsTable(s, AppliedAll(t1, cs[..i])) && Ready(s, AppliedAll(t1, cs[..i]), cs[i])
  {
    forall i | 0 <= i <= |cs| ensures Sized(s, cs[..i]) && Midway(s, t1, cs[..i], AppliedAll(t1, cs[..i]))
      ensures i < |cs| ==> |cs[i].cells| == |s.columns| && Ready(s, AppliedAll(t1, cs[..i]), cs[i])
    {
      StaysMidway(s, t1, t2, cs, i);
    }
    var t := AppliedAll(t1, cs);
    assert cs[..|cs|] == cs;
    assert Midway(s, t1, cs[..|cs|], AppliedAll(t1, cs[..|cs|]));
    forall x: Row ensures multiset(t)[x] == multiset(t2)[x] {
      SameRows(s, t1, t2, cs, t, x);
      CountOnce(s, t, x);
      CountOnce(s, t2, x);
    }
  }

  // ---------------------------------------------------------------------------
  // The comparison computes a diff

  lemma {:induction false} MissingMembers(s: Schema, from: seq<Row>, against: seq<Row>, x: Row)
    requires IsSchema(s) && Fits(s, from) && Fits(s, against)
    ensures x in Missing(s, from, against) <==> x in from && |x| == |s.columns| && !Matched(s, x, against)
  {
    if from != [] {
      var n := |from| - 1;
      assert from == from[..n] + [from[n]];
      MissingMembers(s, from[..n], against, x);
    }
  }

  lemma {:induction false} MissingIsTable(s: Schema, from: seq<Row>, against: seq<Row>)
    requires IsTable(s, from) && Fits(s, against)
    ensures IsTable(s, Missing(s, from, against))
  {
    if from != [] {
      var n := |from| - 1;
      Prefix(s, from, n);
      MissingIsTable(s, from[..n], against);
      var w := Missing(s, from[..n], against);
      forall i | 0 <= i < |w| ensures w[i] in from[..n] {
        MissingMembers(s, from[..n], against, w[i]);
      }
      LastIsApart(s, from, w);
      Grown(s, w, from[n]);
      assert w + [] == w;
    }
  }

  /** A pair of the join, as the query promises it. */
  predicate IsPair(s: Schema, t1: seq<Row>, t2: seq<Row>, p: (Row, Row))
    requires IsSchema(s)
  {
    p.0 in t1 && p.1 in t2 && |p.0| == |p.1| == |s.columns| && KeyOf(s, p.0) == KeyOf(s, p.1) && Mismatch(s, p.0, p.1)
  }

  lemma {:induction false} PartnersMembers(s: Schema, a: Row, t: seq<Row>, p: (Row, Row))
    requires IsSchema(s) && |a| == |s.columns| && Fits(s, t)
    ensures p in Partners(s, a, t) <==> p.0 == a && IsPair(s, [a], t, p)
  {
    if t != [] {
      var n := |t| - 1;
      assert t == t[..n] + [t[n]];
      PartnersMembers(s, a, t[..n], p);
    }
  }

  lemma {:induction false} MismatchedMembers(s: Schema, t1: seq<Row>, t2: seq<Row>, p: (Row, Row))
    requires IsSchema(s) && Fits(s, t1) && Fits(s, t2)
    ensures p in Mismatched(s, t1, t2) <==> IsPair(s, t1, t2, p)
  {
    if t1 != [] {
      var n := |t1| - 1;
      assert t1 == t1[..n] + [t1[n]];
      MismatchedMembers(s, t1[..n], t2, p);
      PartnersMembers(s, t1[n], t2, p);
    }
  }

  /** A row joins with at most one row of a keyed table. */
  lemma {:induction false} PartnersAreFew(s: Schema, a: Row, t: seq<Row>)
    requires IsTable(s, t) && |a| == |s.columns|
    ensures |Partners(s, a, t)| <= 1
  {
    if t != [] {
      var n := |t| - 1;
      Prefix(s, t, n);
      PartnersAreFew(s, a, t[..n]);
      var w := Partners(s, a, t[..n]);
      if w != [] {
        PartnersMembers(s, a, t[..n], w[0]);
        var j :| 0 <= j < n && t[..n][j] == w[0].1;
        assert t[j] == w[0].1 && KeyOf(s, t[j]) != KeyOf(s, t[n]);
      }
    }
  }

  lemma {:induction false} MismatchedOnce(s: Schema, t1: seq<Row>, t2: seq<Row>, i: nat, j: nat)
    requires IsTable(s, t1) && IsTable(s, t2)
    requires i < |Mismatched(s, t1, t2)| && j < |Mismatched(s, t1, t2)|
    requires var m := Mismatched(s, t1, t2);
      |m[i].0| == |m[j].0| == |s.columns| && KeyOf(s, m[i].0) == KeyOf(s, m[j].0)
    ensures i == j
  {
    var n := |t1| - 1;
    Prefix(s, t1, n);
    var m := Mismatched(s, t1[..n], t2);
    var w := Partners(s, t1[n], t2);
    PartnersAreFew(s, t1[n], t2);
    assert Mismatched(s, t1, t2) == m + w;
    if i < |m| && j < |m| {
      MismatchedOnce(s, t1[..n], t2, i, j);
    } else if i < |m| {
      FirstsDiffer(s, t1, t2, m[i], w[j - |m|]);
    } else if j < |m| {
      FirstsDiffer(s, t1, t2, m[j], w[i - |m|]);
    }
  }

  lemma FirstsDiffer(s: Schema, t1: seq<Row>, t2: seq<Row>, p: (Row, Row), q: (Row, Row))
    requires IsTable(s, t1) && IsTable(s, t2) && t1 != []
    requires p in Mismatched(s, t1[..|t1| - 1], t2) && q in Partners(s, t1[|t1| - 1], t2)
    ensures |p.0| == |q.0| == |s.columns| && KeyOf(s, p.0) != KeyOf(s, q.0)
  {
    var n := |t1| - 1;
    MismatchedMembers(s, t1[..n], t2, p);
    PartnersMembers(s, t1[n], t2, q);
    var i :| 0 <= i < n && t1[..n][i] == p.0;
    assert t1[i] == p.0;
  }

  lemma PlainValues(mode: Mode, r: Row)
    ensures Values(RowChange(mode, Plain(r))) == r
  {
  }

  lemma PairedValues(a: Row, b: Row)
    requires |a| == |b|
    ensures var rc := RowChange(Update, Paired(a, b)); Values(rc) == a && SetTouched(a, rc) == b
  {
  }

  lemma UpdateIsChange(s: Schema, t1: seq<Row>, t2: seq<Row>, p: (Row, Row))
    requires IsTable(s, t1) && IsTable(s, t2) && IsPair(s, t1, t2, p)
    ensures IsChange(s, t1, t2, RowChange(Update, PairedOrNone(p)))
  {
    var rc := RowChange(Update, Paired(p.0, p.1));
    PairedValues(p.0, p.1);
    var c :| 0 <= c < |p.0| && c !in s.key && p.0[c] != p.1[c];
    assert rc.cells[c].newValue.Some?;
    forall c | 0 <= c < |rc.cells| && c in s.key ensures rc.cells[c].newValue.None? {
      KeyColumnsAgree(s, p.0, p.1, c);
    }
  }

  lemma InsertIsChange(s: Schema, t1: seq<Row>, t2: seq<Row>, r: Row)
    requires IsTable(s, t1) && IsTable(s, t2) && r in Missing(s, t2, t1)
    ensures IsChange(s, t1, t2, RowChange(Insert, Plain(r)))
  {
    PlainValues(Insert, r);
    MissingMembers(s, t2, t1, r);
  }

  lemma DeleteIsChange(s: Schema, t1: seq<Row>, t2: seq<Row>, r: Row)
    requires IsTable(s, t1) && IsTable(s, t2) && r in Missing(s, t1, t2)
    ensures IsChange(s, t1, t2, RowChange(Delete, Plain(r)))
  {
    PlainValues(Delete, r);
    MissingMembers(s, t1, t2, r);
  }

  /** Where in the output a change stands, and what it came from. */
  lemma DiffParts(s: Schema, t1: seq<Row>, t2: seq<Row>, i: nat)
    requires IsTable(s, t1) && IsTable(s, t2) && i < |Diff(s, t1, t2)|
    ensures var a, m, b := Missing(s, t2, t1), Mismatched(s, t1, t2), Missing(s, t1, t2); var rc := Diff(s, t1, t2)[i];
      |Diff(s, t1, t2)| == |a| + |m| + |b| &&
      rc == (if i < |a| then RowChange(Insert, Plain(a[i]))
             else if i < |a| + |m| then RowChange(Update, PairedOrNone(m[i - |a|]))
             else RowChange(Delete, Plain(b[i - |a| - |m|])))
  {
    hide Missing, Mismatched, PairedOrNone;
  }

  lemma PairIsChange(s: Schema, t1: seq<Row>, t2: seq<Row>, p: (Row, Row))
    requires IsTable(s, t1) && IsTable(s, t2) && p in Mismatched(s, t1, t2)
    ensures IsChange(s, t1, t2, RowChange(Update, PairedOrNone(p))) && Values(RowChange(Update, PairedOrNone(p))) == p.0
  {
    MismatchedMembers(s, t1, t2, p);
    PairedValues(p.0, p.1);
    UpdateIsChange(s, t1, t2, p);
  }

  /** The change at `i` is one of the two tables, with the values it came from. */
  lemma DiffShape(s: Schema, t1: seq<Row>, t2: seq<Row>, i: nat)
    requires IsSchema(s) && Fits(s, t1) && Fits(s, t2) && IsTable(s, t1) && IsTable(s, t2) && i < |Diff(s, t1, t2)|
    ensures var a, m, b := Missing(s, t2, t1), Mismatched(s, t1, t2), Missing(s, t1, t2); var rc := Diff(s, t1, t2)[i];
      |Diff(s, t1, t2)| == |a| + |m| + |b| && IsChange(s, t1, t2, rc) &&
      Values(rc) == (if i < |a| then a[i] else if i < |a| + |m| then m[i - |a|].0 else b[i - |a| - |m|]) &&
      rc.mode == (if i < |a| then Insert else if i < |a| + |m| then Update else Delete)
  {
    hide Diff, Missing, Mismatched, IsChange, IsTable, KeyOf, Values, Fits, Plain, PairedOrNone;
    DiffParts(s, t1, t2, i);
    var a, m, b := Missing(s, t2, t1), Mismatched(s, t1, t2), Missing(s, t1, t2);
    if i < |a| {
      PlainValues(Insert, a[i]);
      InsertIsChange(s, t1, t2, a[i]);
    } else if i < |a| + |m| {
      PairIsChange(s, t1, t2, m[i - |a|]);
    } else {
      PlainValues(Delete, b[i - |a| - |m|]);
      DeleteIsChange(s, t1, t2, b[i - |a| - |m|]);
    }
  }

  lemma TableOnce(s: Schema, w: seq<Row>, i: nat, j: nat)
    requires IsTable(s, w) && i < |w| && j < |w| && KeyOf(s, w[i]) == KeyOf(s, w[j])
    ensures i == j
  {
  }

  lemma DiffOnce(s: Schema, t1: seq<Row>, t2: seq<Row>, i: nat, j: nat)
    requires IsSchema(s) && Fits(s, t1) && Fits(s, t2) && IsTable(s, t1) && IsTable(s, t2)
    requires i < |Diff(s, t1, t2)| && j < |Diff(s, t1, t2)|
    requires var d := Diff(s, t1, t2);
      |d[i].cells| == |d[j].cells| == |s.columns| && ChangeKey(s, d[i]) == ChangeKey(s, d[j])
    ensures i == j
  {
    hide Diff, Missing, Mismatched, IsChange, IsTable, KeyOf, Values, Fits;
    DiffShape(s, t1, t2, i);
    DiffShape(s, t1, t2, j);
    ModesAgree(s, t1, t2, Diff(s, t1, t2)[i], Diff(s, t1, t2)[j]);
    var a, m := |Missing(s, t2, t1)|, |Mismatched(s, t1, t2)|;
    if i < a {
      MissingIsTable(s, t2, t1);
      TableOnce(s, Missing(s, t2, t1), i, j);
    } else if i < a + m {
      MismatchedOnce(s, t1, t2, i - a, j - a);
    } else {
      MissingIsTable(s, t1, t2);
      TableOnce(s, Missing(s, t1, t2), i - a - m, j - a - m);
    }
  }

  /** Changes of different kinds touch different keys. */
  lemma ModesAgree(s: Schema, t1: seq<Row>, t2: seq<Row>, x: RowChange, y: RowChange)
    requires IsTable(s, t1) && IsTable(s, t2) && IsChange(s, t1, t2, x) && IsChange(s, t1, t2, y)
    requires ChangeKey(s, x) == ChangeKey(s, y)
    ensures x.mode == y.mode
  {
    ModesDecided(s, t1, t2, x, y);
    ModesDecided(s, t1, t2, y, x);
  }

  lemma ModesDecided(s: Schema, t1: seq<Row>, t2: seq<Row>, x: RowChange, y: RowChange)
    requires IsTable(s, t1) && IsTable(s, t2) && IsChange(s, t1, t2, x) && IsChange(s, t1, t2, y)
    requires ChangeKey(s, x) == ChangeKey(s, y)
    ensures !x.mode.Insert? ==> !y.mode.Insert?
    ensures !x.mode.Delete? ==> !y.mode.Delete?
  {
    if !x.mode.Insert? {
      MemberIsMatched(s, t1, Values(x), Values(y));
    }
    if x.mode.Insert? {
      MemberIsMatched(s, t2, Values(x), Values(y));
    } else if x.mode.Update? {
      MemberIsMatched(s, t2, SetTouched(Values(x), x), Values(y));
    }
  }

  lemma MatchedRow(s: Schema, r: Row, t: seq<Row>) returns (a: Row)
    requires IsSchema(s) && Fits(s, t) && |r| == |s.columns| && Matched(s, r, t)
    ensures a in t && |a| == |s.columns| && KeyOf(s, a) == KeyOf(s, r)
  {
    var i :| 0 <= i < |t| && KeyOf(s, t[i]) == KeyOf(s, r);
    a := t[i];
  }

  lemma DiffLength(s: Schema, t1: seq<Row>, t2: seq<Row>)
    requires IsTable(s, t1) && IsTable(s, t2)
    ensures |Diff(s, t1, t2)| == |Missing(s, t2, t1)| + |Mismatched(s, t1, t2)| + |Missing(s, t1, t2)|
  {
    hide Missing, Mismatched;
  }

  lemma PairPosition(s: Schema, t1: seq<Row>, t2: seq<Row>, q: Row, r: Row) returns (i: nat)
    requires IsTable(s, t1) && IsTable(s, t2) && q in t1 && r in t2 && q != r
    requires |q| == |r| == |s.columns| && KeyOf(s, q) == KeyOf(s, r)
    ensures i < |Mismatched(s, t1, t2)| && Mismatched(s, t1, t2)[i] == (q, r)
  {
    MismatchIsDifference(s, q, r);
    MismatchedMembers(s, t1, t2, (q, r));
    hide Mismatched;
    i :| 0 <= i < |Mismatched(s, t1, t2)| && Mismatched(s, t1, t2)[i] == (q, r);
  }

  lemma MissingPosition(s: Schema, from: seq<Row>, against: seq<Row>, r: Row) returns (i: nat)
    requires IsTable(s, from) && IsTable(s, against) && r in from && |r| == |s.columns| && !Matched(s, r, against)
    ensures i < |Missing(s, from, against)| && Missing(s, from, against)[i] == r
  {
    MissingMembers(s, from, against, r);
    hide Missing;
    i :| 0 <= i < |Missing(s, from, against)| && Missing(s, from, against)[i] == r;
  }

  lemma UpdateBrings(q: Row, r: Row)
    requires |q| == |r|
    ensures var rc := RowChange(Update, PairedOrNone((q, r))); After(rc) == Some(r) && Before(rc) == Some(q)
  {
    PairedValues(q, r);
  }

  lemma DiffHasUpdate(s: Schema, t1: seq<Row>, t2: seq<Row>, q: Row, r: Row)
    requires IsSchema(s) && Fits(s, t1) && Fits(s, t2)
    requires IsTable(s, t1) && IsTable(s, t2) && q in t1 && r in t2 && q != r
    requires |q| == |r| == |s.columns| && KeyOf(s, q) == KeyOf(s, r)
    ensures Brings(Diff(s, t1, t2), r) && Takes(Diff(s, t1, t2), q)
  {
    hide Missing, Mismatched, Diff, IsTable, KeyOf, Fits, PairedOrNone, Before, After;
    var i := PairPosition(s, t1, t2, q, r);
    var k := |Missing(s, t2, t1)| + i;
    DiffLength(s, t1, t2);
    DiffParts(s, t1, t2, k);
    UpdateBrings(q, r);
    assert After(Diff(s, t1, t2)[k]) == Some(r) && Before(Diff(s, t1, t2)[k]) == Some(q);
  }

  lemma DiffBrings(s: Schema, t1: seq<Row>, t2: seq<Row>, r: Row)
    requires IsTable(s, t1) && IsTable(s, t2) && r in t2 && r !in t1
    ensures Brings(Diff(s, t1, t2), r)
  {
    MemberIsMatched(s, t2, r, r);
    hide Missing, Mismatched, Diff, KeyOf, Brings;
    if Matched(s, r, t1) {
      var q := MatchedRow(s, r, t1);
      DiffHasUpdate(s, t1, t2, q, r);
    } else {
      var i := MissingPosition(s, t2, t1, r);
      DiffLength(s, t1, t2);
      DiffParts(s, t1, t2, i);
      PlainValues(Insert, r);
      BringsAt(Diff(s, t1, t2), i, r);
    }
  }

  lemma BringsAt(cs: seq<RowChange>, i: nat, r: Row)
    requires i < |cs|
    ensures After(cs[i]) == Some(r) ==> Brings(cs, r)
    ensures Before(cs[i]) == Some(r) ==> Takes(cs, r)
  {
  }

  lemma DiffHasDelete(s: Schema, t1: seq<Row>, t2: seq<Row>, r: Row)
    requires IsSchema(s) && Fits(s, t1) && Fits(s, t2) && IsTable(s, t1) && IsTable(s, t2)
    requires r in t1 && |r| == |s.columns| && !Matched(s, r, t2)
    ensures Takes(Diff(s, t1, t2), r)
  {
    hide Missing, Mismatched, Diff, IsTable, KeyOf, Fits, Matched, Takes, Plain;
    var i := MissingPosition(s, t1, t2, r);
    var k := |Missing(s, t2, t1)| + |Mismatched(s, t1, t2)| + i;
    DiffLength(s, t1, t2);
    DiffParts(s, t1, t2, k);
    PlainValues(Delete, r);
    BringsAt(Diff(s, t1, t2), k, r);
  }

  lemma DiffTakes(s: Schema, t1: seq<Row>, t2: seq<Row>, r: Row)
    requires IsTable(s, t1) && IsTable(s, t2) && r in t1 && r !in t2
    ensures Takes(Diff(s, t1, t2), r)
  {
    MemberIsMatched(s, t1, r, r);
    hide Missing, Mismatched, Diff, KeyOf, Takes;
    if Matched(s, r, t2) {
      var q := MatchedRow(s, r, t2);
      DiffHasUpdate(s, t1, t2, r, q);
    } else {
      DiffHasDelete(s, t1, t2, r);
    }
  }

  /** The comparison says every difference of the two tables once. */
  lemma DiffIsDiff(s: Schema, t1: seq<Row>, t2: seq<Row>)
    requires IsTable(s, t1) && IsTable(s, t2)
    ensures IsDiff(s, t1, t2, Diff(s, t1, t2))
  {
    var d := Diff(s, t1, t2);
    forall i | 0 <= i < |d| ensures IsChange(s, t1, t2, d[i]) {
      DiffShape(s, t1, t2, i);
    }
    forall i, j | 0 <= i < |d| && 0 <= j < |d| && ChangeKey(s, d[i]) == ChangeKey(s, d[j]) ensures i == j {
      DiffOnce(s, t1, t2, i, j);
    }
    forall r | r in t2 && r !in t1 ensures Brings(d, r) {
      DiffBrings(s, t1, t2, r);
    }
    forall r | r in t1 && r !in t2 ensures Takes(d, r) {
      DiffTakes(s, t1, t2, r);
    }
  }

  /** Comparing and applying, whatever order the changes arrive in. */
  method Synchronize(s: Schema, t1: seq<Row>, t2: seq<Row>, reorder: seq<RowChange> -> seq<RowChange>)
    returns (rows: seq<Row>)
    requires IsTable(s, t1) && IsTable(s, t2) && s.key != []
    requires multiset(reorder(Diff(s, t1, t2))) == multiset(Diff(s, t1, t2))
    ensures multiset(rows) == multiset(t2)
  {
    var ok, changes := Compare(s, s, t1, t2);
    var table := new SqlTable(t1);
    table.ApplyRows(reorder(changes));
    DiffIsDiff(s, t1, t2);
    Reordered(s, t1, t2, changes, reorder(changes));
    ApplyDiff(s, t1, t2, reorder(changes));
    rows := table.rows;
  }

  lemma TwiceCounts<T>(s: seq<T>, i: nat, j: nat)
    requires i < j < |s| && s[i] == s[j]
    ensures multiset(s)[s[i]] >= 2
  {
    assert s == s[..i + 1] + s[i + 1..];
    assert s[i] == s[..i + 1][i] && s[j] == s[i + 1..][j - i - 1];
    assert multiset(s[..i + 1])[s[i]] >= 1 && multiset(s[i + 1..])[s[i]] >= 1;
  }

  lemma {:induction false} CountsOne<T>(s: seq<T>, x: T)
    requires forall i, j :: 0 <= i < j < |s| ==> s[i] != s[j]
    ensures multiset(s)[x] <= 1
  {
    if s != [] {
      var n := |s| - 1;
      CountsOne(s[..n], x);
      assert s == s[..n] + [s[n]];
      forall i | 0 <= i < n ensures s[..n][i] != s[n] {
        assert s[..n][i] == s[i];
      }
    }
  }

  lemma OncePlaced<T>(cs: seq<T>, ds: seq<T>, i: nat, j: nat)
    requires multiset(ds) == multiset(cs) && i < |ds| && j < |ds| && ds[i] == ds[j]
    requires forall k, l :: 0 <= k < l < |cs| ==> cs[k] != cs[l]
    ensures i == j
  {
    if i != j {
      TwiceCounts(ds, if i < j then i else j, if i < j then j else i);
      CountsOne(cs, ds[i]);
    }
  }

  /** A diff stays one as long as it has the same changes, one a key. */
  lemma SameChanges(s: Schema, t1: seq<Row>, t2: seq<Row>, cs: seq<RowChange>, ds: seq<RowChange>)
    requires IsTable(s, t1) && IsTable(s, t2) && IsDiff(s, t1, t2, cs)
    requires forall i :: 0 <= i < |ds| ==> ds[i] in cs && |ds[i].cells| == |s.columns|
    requires forall i :: 0 <= i < |cs| ==> cs[i] in ds
    requires forall i, j :: 0 <= i < |ds| && 0 <= j < |ds| && ChangeKey(s, ds[i]) == ChangeKey(s, ds[j]) ==> i == j
    ensures IsDiff(s, t1, t2, ds)
  {
    forall i | 0 <= i < |ds| ensures IsChange(s, t1, t2, ds[i]) {
      assert ds[i] in cs;
      var k :| 0 <= k < |cs| && cs[k] == ds[i];
      assert IsChange(s, t1, t2, cs[k]);
    }
    hide IsChange, IsTable, ChangeKey, KeyOf;
    forall r | r in t2 && r !in t1 ensures Brings(ds, r) {
      assert Brings(cs, r);
      var k :| 0 <= k < |cs| && After(cs[k]) == Some(r);
      assert cs[k] in ds;
      var i :| 0 <= i < |ds| && ds[i] == cs[k];
    }
    forall r | r in t1 && r !in t2 ensures Takes(ds, r) {
      assert Takes(cs, r);
      var k :| 0 <= k < |cs| && Before(cs[k]) == Some(r);
      assert cs[k] in ds;
      var i :| 0 <= i < |ds| && ds[i] == cs[k];
    }
  }

  /** A diff stays one when its changes are put in another order. */
  lemma Reordered(s: Schema, t1: seq<Row>, t2: seq<Row>, cs: seq<RowChange>, ds: seq<RowChange>)
    requires IsTable(s, t1) && IsTable(s, t2) && IsDiff(s, t1, t2, cs) && multiset(ds) == multiset(cs)
    ensures IsDiff(s, t1, t2, ds)
  {
    forall i | 0 <= i < |ds| ensures ds[i] in cs && |ds[i].cells| == |s.columns| {
      assert ds[i] in multiset(ds);
      var k :| 0 <= k < |cs| && cs[k] == ds[i];
      assert IsChange(s, t1, t2, cs[k]);
    }
    forall i | 0 <= i < |cs| ensures cs[i] in ds {
      assert cs[i] in multiset(cs);
    }
    forall i, j | 0 <= i < |ds| && 0 <= j < |ds| && ChangeKey(s, ds[i]) == ChangeKey(s, ds[j]) ensures i == j {
      var k :| 0 <= k < |cs| && cs[k] == ds[i];
      var l :| 0 <= l < |cs| && cs[l] == ds[j];
      assert ChangeKey(s, cs[k]) == ChangeKey(s, cs[l]);
      OncePlaced(cs, ds, i, j);
    }
    SameChanges(s, t1, t2, cs, ds);
  }
}
