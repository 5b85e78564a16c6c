/** What UPDATE and DELETE do to the rows of a table. */
module Updates {
  import opened Bytes
  import opened KeyCodec
  import opened Rows
  import opened Expressions
  import opened Planner
  import opened Selection

  datatype ExecError =
    | UnimplementedWhere
    | CorruptRow
    | UnknownColumn
    | ChangesPrimaryKey
    | EvalFailed(why: EvalError)
    | TypeMismatch
    | WrongValueCount
    | DuplicateKey

  datatype Assignment = Assignment(column: Bytes, expr: Expr)

  /** The column an assignment writes: it must exist and not be part of the key. */
  function Target(s: Schema, a: Assignment): (r: Result<nat, ExecError>)
    ensures r.Ok? ==> r.value < |s.cols| && s.cols[r.value].name == a.column && !IsPKey(s, r.value)
  {
    var i := ColIndex(s, a.column);
    if i < 0 then Err(UnknownColumn) else if IsPKey(s, i) then Err(ChangesPrimaryKey) else Ok(i)
  }

  /** The value an assignment gives its column, computed in the row as it was. */
  function NewCell(s: Schema, row: Row, a: Assignment): Result<Cell, ExecError>
    requires |row| == |s.cols| && Target(s, a).Ok?
  {
    match Eval(s, row, a.expr)
    case Err(why) => Err(EvalFailed(why))
    case Ok(c) => if c.typ != s.cols[Target(s, a).value].typ then Err(TypeMismatch) else Ok(c)
  }

  predicate Targeted(s: Schema, sets: seq<Assignment>) {
    forall i :: 0 <= i < |sets| ==> Target(s, sets[i]).Ok?
  }

  predicate Assignable(s: Schema, row: Row, sets: seq<Assignment>)
    requires |row| == |s.cols| && Targeted(s, sets)
  {
    forall i :: 0 <= i < |sets| ==> NewCell(s, row, sets[i]).Ok?
  }

  /** The last of the first `k` assignments that writes column `j`, or -1. */
  function LastSet(s: Schema, sets: seq<Assignment>, k: nat, j: nat): (i: int)
    requires Targeted(s, sets) && k <= |sets|
    ensures -1 <= i < k && (i >= 0 ==> Target(s, sets[i]).value == j)
    ensures forall q :: i < q < k ==> Target(s, sets[q]).value != j
  {
    if k == 0 then -1
    else if Target(s, sets[k - 1]).value == j then k - 1
    else LastSet(s, sets, k - 1, j)
  }

  /** Simultaneous assignment: every right-hand side is evaluated in the old row. */
  function UpdatedRow(s: Schema, row: Row, sets: seq<Assignment>): (r: Row)
    requires |row| == |s.cols| && Targeted(s, sets) && Assignable(s, row, sets)
    ensures |r| == |row|
  {
    seq(|row|, j requires 0 <= j < |row| =>
      var i := LastSet(s, sets, |sets|, j);
      if i < 0 then row[j] else NewCell(s, row, sets[i]).value)
  }

  /** Updating changes neither the types nor the primary key of a row ... */
  lemma UpdateKeepsKey(s: Schema, row: Row, sets: seq<Assignment>)
    requires WellFormed(s) && Typed(s, row) && Targeted(s, sets) && Assignable(s, row, sets)
    ensures Typed(s, UpdatedRow(s, row, sets))
    ensures KeyCells(s, UpdatedRow(s, row, sets)) == KeyCells(s, row)
  {
    var r := UpdatedRow(s, row, sets);
    hide Eval;
    forall q | 0 <= q < |s.pkey| ensures KeyCells(s, r)[q] == KeyCells(s, row)[q] {
      assert IsPKey(s, s.pkey[q]);
      assert LastSet(s, sets, |sets|, s.pkey[q]) < 0;
    }
    assert KeyCells(s, r) == KeyCells(s, row);
  }

  /** ... so it is stored where it was. */
  lemma UpdateKeepsRowKey(s: Schema, row: Row, sets: seq<Assignment>)
    requires WellFormed(s) && Typed(s, row) && Targeted(s, sets) && Assignable(s, row, sets)
    ensures RowKey(s, UpdatedRow(s, row, sets)) == RowKey(s, row)
  {
    UpdateKeepsKey(s, row, sets);
    hide EncodeCols, UpdatedRow, Assignable;
  }

  // ---- a SET list told by names and evaluation ----

  /** The i-th assignment is the last that names column j. */
  predicate IsLastFor(s: Schema, sets: seq<Assignment>, i: nat, j: nat)
    requires j < |s.cols|
  {
    && i < |sets| && sets[i].column == s.cols[j].name
    && forall q :: i < q < |sets| ==> sets[q].column != s.cols[j].name
  }

  /** What column j holds afterwards: the value of its last right-hand side in the old
      row, or what it held. */
  ghost predicate HoldsAfter(s: Schema, sets: seq<Assignment>, was: Row, j: nat, c: Cell)
    requires |was| == |s.cols| && j < |s.cols|
  {
    && (forall i: nat :: IsLastFor(s, sets, i, j) ==> Eval(s, was, sets[i].expr) == Ok(c))
    && ((forall i :: 0 <= i < |sets| ==> sets[i].column != s.cols[j].name) ==> c == was[j])
  }

  ghost predicate Assigned(s: Schema, sets: seq<Assignment>, was: Row, now: Row) {
    |was| == |s.cols| && |now| == |s.cols| && forall j :: 0 <= j < |now| ==> HoldsAfter(s, sets, was, j, now[j])
  }

  /** A target is refused for naming no column, and for naming a key column. */
  lemma TargetExactlyWhen(s: Schema, a: Assignment)
    requires WellFormed(s)
    ensures Target(s, a) == Err(UnknownColumn) <==> forall j :: 0 <= j < |s.cols| ==> s.cols[j].name != a.column
    ensures forall j :: 0 <= j < |s.cols| && s.cols[j].name == a.column ==>
      Target(s, a) == if j in s.pkey then Err(ChangesPrimaryKey) else Ok(j)
  {
    var i := ColIndex(s, a.column);
  }

  lemma LastExactlyWhen(s: Schema, sets: seq<Assignment>, i: int, j: nat)
    requires WellFormed(s) && Targeted(s, sets) && j < |s.cols|
    ensures LastSet(s, sets, |sets|, j) == i && i >= 0 <==> i >= 0 && IsLastFor(s, sets, i, j)
    ensures LastSet(s, sets, |sets|, j) < 0 <==> forall q :: 0 <= q < |sets| ==> sets[q].column != s.cols[j].name
  {
    forall q | 0 <= q < |sets| ensures Target(s, sets[q]).value == j <==> sets[q].column == s.cols[j].name {
      TargetExactlyWhen(s, sets[q]);
    }
    hide Target, WellFormed;
  }

  /** The right-hand side has a value of the type of the column it names. */
  predicate ValueFits(s: Schema, row: Row, a: Assignment)
    requires |row| == |s.cols|
  {
    forall j :: 0 <= j < |s.cols| && s.cols[j].name == a.column ==>
      Eval(s, row, a.expr).Ok? && Eval(s, row, a.expr).value.typ == s.cols[j].typ
  }

  /** A row is updated, not refused, exactly when all right-hand sides fit. */
  lemma AssignableExactlyWhen(s: Schema, row: Row, sets: seq<Assignment>)
    requires WellFormed(s) && |row| == |s.cols| && Targeted(s, sets)
    ensures Assignable(s, row, sets) <==> forall i :: 0 <= i < |sets| ==> ValueFits(s, row, sets[i])
  {
    forall i | 0 <= i < |sets| ensures NewCell(s, row, sets[i]).Ok? <==> ValueFits(s, row, sets[i]) {
      TargetExactlyWhen(s, sets[i]);
      hide Eval, WellFormed;
    }
    hide NewCell, ValueFits, WellFormed;
  }

  /** The updated row is the one that the SET list describes. */
  lemma UpdatedExactlyWhen(s: Schema, row: Row, sets: seq<Assignment>, now: Row)
    requires WellFormed(s) && |row| == |s.cols| && Targeted(s, sets) && Assignable(s, row, sets)
    ensures now == UpdatedRow(s, row, sets) <==> Assigned(s, sets, row, now)
  {
    hide WellFormed, Targeted, LastSet, IsLastFor;
    if |now| == |row| {
      forall j | 0 <= j < |row| ensures now[j] == UpdatedRow(s, row, sets)[j] <==> HoldsAfter(s, sets, row, j, now[j]) {
        CellExactlyWhen(s, row, sets, j, now[j]);
      }
    }
  }

  lemma CellExactlyWhen(s: Schema, row: Row, sets: seq<Assignment>, j: nat, c: Cell)
    requires WellFormed(s) && |row| == |s.cols| && Targeted(s, sets) && Assignable(s, row, sets) && j < |row|
    ensures c == UpdatedRow(s, row, sets)[j] <==> HoldsAfter(s, sets, row, j, c)
  {
    var last := LastSet(s, sets, |sets|, j);
    LastExactlyWhen(s, sets, last, j);
    forall i: nat | IsLastFor(s, sets, i, j) ensures i == last { LastExactlyWhen(s, sets, i, j); }
    hide WellFormed, LastSet, Eval;
  }

  /** Why a row is refused: its first right-hand side without a value, or with one of
      the wrong type. */
  lemma RefusalMeans(s: Schema, row: Row, sets: seq<Assignment>, i: nat, why: ExecError, j: nat)
    requires WellFormed(s) && |row| == |s.cols| && Targeted(s, sets) && i < |sets|
    requires j < |s.cols| && s.cols[j].name == sets[i].column
    ensures RefusedAt(s, row, sets, i, why) ==>
      match Eval(s, row, sets[i].expr)
      case Err(x) => why == EvalFailed(x)
      case Ok(c) => c.typ != s.cols[j].typ && why == TypeMismatch
    ensures RefusedAt(s, row, sets, i, why) ==> Assignable(s, row, sets[..i])
  {
    TargetExactlyWhen(s, sets[i]);
    hide Eval, WellFormed;
  }

  predicate TargetsAre(s: Schema, sets: seq<Assignment>, idxs: seq<nat>) {
    |idxs| == |sets| && forall i :: 0 <= i < |sets| ==> Target(s, sets[i]) == Ok(idxs[i])
  }

  /** The first assignment that may not be made, and why. */
  ghost predicate FirstBadTarget(s: Schema, sets: seq<Assignment>, why: ExecError) {
    exists i :: 0 <= i < |sets| && Target(s, sets[i]) == Err(why) && Targeted(s, sets[..i])
  }

  method ValidateTargets(s: Schema, sets: seq<Assignment>) returns (r: Result<seq<nat>, ExecError>)
    ensures r.Ok? <==> Targeted(s, sets)
    ensures r.Ok? ==> TargetsAre(s, sets, r.value)
    ensures r.Err? ==> FirstBadTarget(s, sets, r.error)
  {
    var idxs: seq<nat> := [];
    var i := 0;
    while i < |sets|
      invariant 0 <= i <= |sets| && |idxs| == i
      invariant forall j :: 0 <= j < i ==> Target(s, sets[j]) == Ok(idxs[j])
    {
      var t := Target(s, sets[i]);
      if t.Err? {
        return Err(t.error);
      }
      idxs := idxs + [t.value];
      i := i + 1;
    }
    return Ok(idxs);
  }

  /** The first assignment whose value is refused, and why. */
  predicate RefusedAt(s: Schema, row: Row, sets: seq<Assignment>, i: nat, why: ExecError)
    requires |row| == |s.cols| && Targeted(s, sets)
  {
    && i < |sets| && NewCell(s, row, sets[i]) == Err(why)
    && forall j :: 0 <= j < i ==> NewCell(s, row, sets[j]).Ok?
  }

  ghost predicate Refused(s: Schema, row: Row, sets: seq<Assignment>, why: ExecError) {
    |row| == |s.cols| && Targeted(s, sets) && exists i :: RefusedAt(s, row, sets, i, why)
  }

  method NewValues(s: Schema, row: Row, sets: seq<Assignment>) returns (r: Result<seq<Cell>, ExecError>)
    requires |row| == |s.cols| && Targeted(s, sets)
    ensures r.Ok? <==> Assignable(s, row, sets)
    ensures r.Ok? ==> |r.value| == |sets| && forall i :: 0 <= i < |sets| ==> NewCell(s, row, sets[i]) == Ok(r.value[i])
    ensures r.Err? ==> Refused(s, row, sets, r.error)
  {
    var newVals: seq<Cell> := [];
    var i := 0;
    while i < |sets|
      invariant 0 <= i <= |sets| && |newVals| == i
      invariant forall j :: 0 <= j < i ==> NewCell(s, row, sets[j]) == Ok(newVals[j])
    {
      var v := NewCell(s, row, sets[i]);
      if v.Err? {
        assert RefusedAt(s, row, sets, i, v.error);
        return Err(v.error);
      }
      newVals := newVals + [v.value];
      i := i + 1;
    }
    return Ok(newVals);
  }

  /** Evaluates every right-hand side against the old row, and only then assigns. */
  method AssignRow(s: Schema, row: Row, sets: seq<Assignment>, idxs: seq<nat>) returns (r: Result<Row, ExecError>)
    requires |row| == |s.cols| && Targeted(s, sets) && TargetsAre(s, sets, idxs)
    ensures r.Ok? <==> Assignable(s, row, sets)
    ensures r.Ok? ==> r.value == UpdatedRow(s, row, sets)
    ensures r.Err? ==> Refused(s, row, sets, r.error)
  {
    hide NewCell, Target, Refused;
    var vals := NewValues(s, row, sets);
    if vals.Err? {
      return Err(vals.error);
    }
    var newVals, out, i := vals.value, row, 0;
    while i < |sets|
      invariant 0 <= i <= |sets| && |out| == |row|
      invariant forall j :: 0 <= j < |row| ==>
        out[j] == if LastSet(s, sets, i, j) < 0 then row[j] else newVals[LastSet(s, sets, i, j)]
    {
      assert Target(s, sets[i]) == Ok(idxs[i]);
      out := out[idxs[i] := newVals[i]];
      i := i + 1;
    }
    assert out == UpdatedRow(s, row, sets);
    return Ok(out);
  }

  // ---- the table as a map ----

  /** A row whose new form still fits a log record. */
  ghost predicate Sized(s: Schema, row: Row, sets: seq<Assignment>)
    requires WellFormed(s) && Targeted(s, sets)
  {
    |row| == |s.cols| &&
    (Assignable(s, row, sets) ==> |RowKey(s, row)| + |RowVal(s, UpdatedRow(s, row, sets))| < U32)
  }

  ghost predicate AllFit(s: Schema, rows: seq<Row>, sets: seq<Assignment>)
    requires WellFormed(s)
  {
    Targeted(s, sets) ==> forall i :: 0 <= i < |rows| ==> Sized(s, rows[i], sets)
  }

  ghost predicate KeyOfNone(s: Schema, rows: seq<Row>, k: Bytes)
    requires WellFormed(s)
  {
    forall i :: 0 <= i < |rows| && |rows[i]| == |s.cols| ==> RowKey(s, rows[i]) != k
  }

  ghost predicate Rewritten(s: Schema, m1: map<Bytes, Bytes>, row: Row, sets: seq<Assignment>)
    requires WellFormed(s) && Targeted(s, sets)
  {
    && |row| == |s.cols| && Assignable(s, row, sets) && RowKey(s, row) in m1
    && m1[RowKey(s, row)] == RowVal(s, UpdatedRow(s, row, sets))
  }

  /** `m1` is `m` with exactly these rows rewritten. */
  ghost predicate Rewrites(s: Schema, m: map<Bytes, Bytes>, m1: map<Bytes, Bytes>, rows: seq<Row>,
      sets: seq<Assignment>)
    requires WellFormed(s) && Targeted(s, sets)
  {
    && m1.Keys == m.Keys
    && (forall i :: 0 <= i < |rows| ==> Rewritten(s, m1, rows[i], sets))
    && (forall k :: k in m && KeyOfNone(s, rows, k) ==> m1[k] == m[k])
  }

  /** ... the first `n` of these rows. */
  ghost predicate RewritesFirst(s: Schema, m: map<Bytes, Bytes>, m1: map<Bytes, Bytes>, rows: seq<Row>, n: nat,
      sets: seq<Assignment>)
    requires WellFormed(s) && Targeted(s, sets)
  {
    n <= |rows| && Rewrites(s, m, m1, rows[..n], sets)
  }

  lemma RewritesSnoc(s: Schema, m: map<Bytes, Bytes>, m1: map<Bytes, Bytes>, rows: seq<Row>, row: Row,
      sets: seq<Assignment>)
    requires WellFormed(s) && Targeted(s, sets) && Rewrites(s, m, m1, rows, sets)
    requires |row| == |s.cols| && Assignable(s, row, sets) && RowKey(s, row) in m && KeyOfNone(s, rows, RowKey(s, row))
    ensures Rewrites(s, m, m1[RowKey(s, row) := RowVal(s, UpdatedRow(s, row, sets))], rows + [row], sets)
  {
    hide RowKey, RowVal, Assignable, UpdatedRow;
    var m2 := m1[RowKey(s, row) := RowVal(s, UpdatedRow(s, row, sets))];
    var all := rows + [row];
    forall i | 0 <= i < |all| ensures Rewritten(s, m2, all[i], sets) {
      if i < |rows| { assert Rewritten(s, m1, rows[i], sets) && RowKey(s, rows[i]) != RowKey(s, row); }
    }
    forall k | k in m && KeyOfNone(s, all, k) ensures m2[k] == m[k] {
      assert all[|rows|] == row && forall i :: 0 <= i < |rows| ==> all[i] == rows[i];
    }
  }

  /** What becomes of a row. */
  ghost function Outcome(s: Schema, row: Row, cond: Option<Expr>, sets: seq<Assignment>): (r: Row)
    requires |row| == |s.cols| && Targeted(s, sets)
    requires Selected(s, row, cond) ==> Assignable(s, row, sets)
    ensures |r| == |row|
  {
    if Selected(s, row, cond) then UpdatedRow(s, row, sets) else row
  }

  /** Two stored rows with the same key are the same row. */
  lemma OneRowPerKey(s: Schema, m: map<Bytes, Bytes>, a: Row, b: Row)
    requires WellFormed(s) && TableStored(s, m) && HasRow(s, m, a) && HasRow(s, m, b) && RowKey(s, a) == RowKey(s, b)
    ensures a == b
  {
    hide RowKey, RowVal, DecodeRow;
    HasRowDecodes(s, m, a);
    HasRowDecodes(s, m, b);
  }

  lemma MatchedIsRewritten(s: Schema, m: map<Bytes, Bytes>, m1: map<Bytes, Bytes>, row: Row, sets: seq<Assignment>)
    requires WellFormed(s) && HasRow(s, m, row) && Targeted(s, sets)
    requires Rewritten(s, m1, row, sets) && Sized(s, row, sets)
    ensures Typed(s, UpdatedRow(s, row, sets))
    ensures Encodes(s, UpdatedRow(s, row, sets), RowKey(s, row), m1[RowKey(s, row)])
    ensures HasRow(s, m1, CanonRow(UpdatedRow(s, row, sets)))
    ensures RowKey(s, CanonRow(UpdatedRow(s, row, sets))) == RowKey(s, row)
  {
    UpdateKeepsKey(s, row, sets);
    UpdateKeepsRowKey(s, row, sets);
    hide RowKey, RowVal, Assignable, UpdatedRow;
    CanonSame(s, UpdatedRow(s, row, sets));
  }

  ghost predicate IsUpdate(s: Schema, m: map<Bytes, Bytes>, m1: map<Bytes, Bytes>, cond: Option<Expr>,
      rows: seq<Row>, sets: seq<Assignment>)
    requires WellFormed(s)
  {
    && TableStored(s, m) && Targeted(s, sets) && Answers(s, m, cond, rows) && Rewrites(s, m, m1, rows, sets)
    && forall i :: 0 <= i < |rows| ==> Sized(s, rows[i], sets)
  }

  lemma CompleteUpdate(s: Schema, m: map<Bytes, Bytes>, m1: map<Bytes, Bytes>, cond: Option<Expr>,
      rows: seq<Row>, sets: seq<Assignment>)
    requires WellFormed(s) && TableStored(s, m) && Targeted(s, sets) && Answers(s, m, cond, rows)
    requires RewritesFirst(s, m, m1, rows, |rows|, sets) && AllFit(s, rows, sets)
    ensures IsUpdate(s, m, m1, cond, rows, sets)
  {
    assert rows[..|rows|] == rows;
  }

  /** A stored row that the condition does not select keeps its pair. */
  lemma OthersUntouched(s: Schema, m: map<Bytes, Bytes>, m1: map<Bytes, Bytes>, cond: Option<Expr>,
      rows: seq<Row>, sets: seq<Assignment>, row: Row)
    requires WellFormed(s) && IsUpdate(s, m, m1, cond, rows, sets) && HasRow(s, m, row) && !Selected(s, row, cond)
    ensures HasRow(s, m1, row) && m1[RowKey(s, row)] == m[RowKey(s, row)]
  {
    hide RowKey, RowVal, Selected, TableStored;
    forall i | 0 <= i < |rows| ensures RowKey(s, rows[i]) != RowKey(s, row) {
      if RowKey(s, rows[i]) == RowKey(s, row) {
        OneRowPerKey(s, m, rows[i], row);
        assert false;
      }
    }
    assert KeyOfNone(s, rows, RowKey(s, row));
  }

  /** Every row of the old table becomes its outcome in the new one. */
  lemma RowBecomesOutcome(s: Schema, m: map<Bytes, Bytes>, m1: map<Bytes, Bytes>, cond: Option<Expr>,
      rows: seq<Row>, sets: seq<Assignment>, row: Row)
    requires WellFormed(s) && IsUpdate(s, m, m1, cond, rows, sets) && HasRow(s, m, row)
    ensures |row| == |s.cols| && (Selected(s, row, cond) ==> Assignable(s, row, sets))
    ensures var t := CanonRow(Outcome(s, row, cond, sets));
      HasRow(s, m1, t) && RowKey(s, t) == RowKey(s, row) &&
        Encodes(s, Outcome(s, row, cond, sets), RowKey(s, row), m1[RowKey(s, row)])
  {
    hide RowKey, RowVal, Selected, Assignable, UpdatedRow, TableStored;
    if Selected(s, row, cond) {
      var i :| 0 <= i < |rows| && rows[i] == row;
      assert Rewritten(s, m1, rows[i], sets);
      MatchedIsRewritten(s, m, m1, row, sets);
    } else {
      OthersUntouched(s, m, m1, cond, rows, sets, row);
      StoredFits(s, m, row);
    }
  }

  lemma StoredFits(s: Schema, m: map<Bytes, Bytes>, row: Row)
    requires WellFormed(s) && TableStored(s, m) && HasRow(s, m, row)
    ensures Encodes(s, row, RowKey(s, row), m[RowKey(s, row)])
  {
    var k := RowKey(s, row);
    HasRowDecodes(s, m, row);
    var r :| Encodes(s, r, k, m[k]);
  }

  lemma UpdatedTableStored(s: Schema, m: map<Bytes, Bytes>, m1: map<Bytes, Bytes>, cond: Option<Expr>,
      rows: seq<Row>, sets: seq<Assignment>)
    requires WellFormed(s) && IsUpdate(s, m, m1, cond, rows, sets)
    ensures TableStored(s, m1)
  {
    hide RowKey, RowVal, Selected, Assignable, UpdatedRow, DecodeRow, HasRow, Outcome;
    forall k | k in m1 && TablePrefix(s) <= k ensures exists row :: Encodes(s, row, k, m1[k]) {
      StoredPairDecodes(s, m, k);
      var d := DecodeRow(s, k, m[k]).row;
      RowBecomesOutcome(s, m, m1, cond, rows, sets, d);
      assert Encodes(s, Outcome(s, d, cond, sets), k, m1[k]);
    }
  }

  lemma OutcomeKeepsKey(s: Schema, m: map<Bytes, Bytes>, cond: Option<Expr>, sets: seq<Assignment>, row: Row)
    requires WellFormed(s) && HasRow(s, m, row) && Targeted(s, sets) && |row| == |s.cols|
    requires Selected(s, row, cond) ==> Assignable(s, row, sets)
    ensures KeyCells(s, CanonRow(Outcome(s, row, cond, sets))) == KeyCells(s, row)
  {
    hide RowKey, RowVal, Selected, Assignable, UpdatedRow;
    var t := Outcome(s, row, cond, sets);
    if Selected(s, row, cond) { UpdateKeepsKey(s, row, sets); }
    forall i | 0 <= i < |s.pkey| ensures KeyCells(s, CanonRow(t))[i] == KeyCells(s, row)[i] {
      assert KeyCells(s, t)[i] == KeyCells(s, row)[i];
      assert CanonRow(row)[s.pkey[i]] == Canon(row[s.pkey[i]]);
    }
  }

  /** The row is the outcome of `was`, under the same primary key. */
  ghost predicate OutcomeOf(s: Schema, m: map<Bytes, Bytes>, was: Row, row: Row, cond: Option<Expr>,
      sets: seq<Assignment>)
    requires WellFormed(s) && Targeted(s, sets)
  {
    && HasRow(s, m, was) && |was| == |s.cols| && |row| == |s.cols| && KeyCells(s, row) == KeyCells(s, was)
    && (Selected(s, was, cond) ==> Assignable(s, was, sets)) && row == CanonRow(Outcome(s, was, cond, sets))
  }

  /** Every row of the new table is the outcome of an old one with the same key. */
  lemma RowComesFrom(s: Schema, m: map<Bytes, Bytes>, m1: map<Bytes, Bytes>, cond: Option<Expr>,
      rows: seq<Row>, sets: seq<Assignment>, row1: Row)
    returns (row: Row)
    requires WellFormed(s) && IsUpdate(s, m, m1, cond, rows, sets) && HasRow(s, m1, row1)
    ensures OutcomeOf(s, m, row, row1, cond, sets)
  {
    UpdatedTableStored(s, m, m1, cond, rows, sets);
    HasRowDecodes(s, m1, row1);
    var k := RowKey(s, row1);
    assert k in m;
    StoredPairDecodes(s, m, k);
    row := DecodeRow(s, k, m[k]).row;
    hide RowKey, RowVal, Selected, Assignable, UpdatedRow, DecodeRow, TableStored, HasRow;
    RowBecomesOutcome(s, m, m1, cond, rows, sets, row);
    OneRowPerKey(s, m1, row1, CanonRow(Outcome(s, row, cond, sets)));
    OutcomeKeepsKey(s, m, cond, sets, row);
  }

  /** What has become of a row: what the SET list says if the condition selects it. */
  ghost predicate Became(s: Schema, cond: Option<Expr>, sets: seq<Assignment>, was: Row, now: Row) {
    && |was| == |s.cols|
    && if Selected(s, was, cond) then exists row :: Assigned(s, sets, was, row) && now == CanonRow(row)
       else now == was
  }

  lemma OutcomeBecame(s: Schema, m: map<Bytes, Bytes>, cond: Option<Expr>, sets: seq<Assignment>, was: Row)
    requires WellFormed(s) && HasRow(s, m, was) && Targeted(s, sets) && |was| == |s.cols|
    requires Selected(s, was, cond) ==> Assignable(s, was, sets)
    ensures Became(s, cond, sets, was, CanonRow(Outcome(s, was, cond, sets)))
  {
    hide RowKey, RowVal, Selected, UpdatedRow, Assigned;
    if Selected(s, was, cond) {
      UpdatedExactlyWhen(s, was, sets, UpdatedRow(s, was, sets));
      assert Assigned(s, sets, was, UpdatedRow(s, was, sets));
    }
  }

  lemma OutcomeOfBecame(s: Schema, m: map<Bytes, Bytes>, was: Row, now: Row, cond: Option<Expr>, sets: seq<Assignment>)
    requires WellFormed(s) && Targeted(s, sets) && OutcomeOf(s, m, was, now, cond, sets)
    ensures HasRow(s, m, was) && Became(s, cond, sets, was, now)
  {
    hide HasRow, Became, Outcome, Selected, Assignable;
    OutcomeBecame(s, m, cond, sets, was);
  }

  /** Every row of the old table has become one of the new table ... */
  ghost predicate AllBecame(s: Schema, m: map<Bytes, Bytes>, m1: map<Bytes, Bytes>, cond: Option<Expr>,
      sets: seq<Assignment>)
    requires WellFormed(s)
  {
    forall row :: HasRow(s, m, row) ==> exists row1 :: HasRow(s, m1, row1) && Became(s, cond, sets, row, row1)
  }

  /** ... and every row of the new table was one of the old. */
  ghost predicate AllWere(s: Schema, m: map<Bytes, Bytes>, m1: map<Bytes, Bytes>, cond: Option<Expr>,
      sets: seq<Assignment>)
    requires WellFormed(s)
  {
    forall row1 :: HasRow(s, m1, row1) ==> exists row :: HasRow(s, m, row) && Became(s, cond, sets, row, row1)
  }

  lemma EveryRowBecame(s: Schema, m: map<Bytes, Bytes>, m1: map<Bytes, Bytes>, cond: Option<Expr>,
      rows: seq<Row>, sets: seq<Assignment>)
    requires WellFormed(s) && IsUpdate(s, m, m1, cond, rows, sets)
    ensures AllBecame(s, m, m1, cond, sets)
  {
    forall row | HasRow(s, m, row)
      ensures exists row1 :: HasRow(s, m1, row1) && Became(s, cond, sets, row, row1)
    {
      RowBecomesOutcome(s, m, m1, cond, rows, sets, row);
      hide HasRow, Became, IsUpdate, Outcome;
      OutcomeBecame(s, m, cond, sets, row);
    }
  }

  lemma EveryRowWas(s: Schema, m: map<Bytes, Bytes>, m1: map<Bytes, Bytes>, cond: Option<Expr>,
      rows: seq<Row>, sets: seq<Assignment>)
    requires WellFormed(s) && IsUpdate(s, m, m1, cond, rows, sets)
    ensures AllWere(s, m, m1, cond, sets)
  {
    forall row1 | HasRow(s, m1, row1)
      ensures exists row :: HasRow(s, m, row) && Became(s, cond, sets, row, row1)
    {
      var row := RowComesFrom(s, m, m1, cond, rows, sets, row1);
      hide HasRow, Became, IsUpdate, OutcomeOf;
      OutcomeOfBecame(s, m, row, row1, cond, sets);
    }
  }

  /** The outcome of every old row is in the new table ... */
  ghost predicate HasOutcomes(s: Schema, m: map<Bytes, Bytes>, m1: map<Bytes, Bytes>, cond: Option<Expr>,
      sets: seq<Assignment>)
    requires WellFormed(s) && Targeted(s, sets)
  {
    forall row :: HasRow(s, m, row) ==>
      |row| == |s.cols| && (Selected(s, row, cond) ==> Assignable(s, row, sets)) &&
      HasRow(s, m1, CanonRow(Outcome(s, row, cond, sets)))
  }

  /** ... and every new row is the outcome of an old one with the same key. */
  ghost predicate AreOutcomes(s: Schema, m: map<Bytes, Bytes>, m1: map<Bytes, Bytes>, cond: Option<Expr>,
      sets: seq<Assignment>)
    requires WellFormed(s) && Targeted(s, sets)
  {
    forall row1 :: HasRow(s, m1, row1) ==> exists row :: OutcomeOf(s, m, row, row1, cond, sets)
  }

  lemma EveryOutcomeStands(s: Schema, m: map<Bytes, Bytes>, m1: map<Bytes, Bytes>, cond: Option<Expr>,
      rows: seq<Row>, sets: seq<Assignment>)
    requires WellFormed(s) && IsUpdate(s, m, m1, cond, rows, sets)
    ensures HasOutcomes(s, m, m1, cond, sets)
  {
    forall row | HasRow(s, m, row)
      ensures |row| == |s.cols| && (Selected(s, row, cond) ==> Assignable(s, row, sets))
      ensures HasRow(s, m1, CanonRow(Outcome(s, row, cond, sets)))
    {
      RowBecomesOutcome(s, m, m1, cond, rows, sets, row);
    }
  }

  lemma EveryRowIsOutcome(s: Schema, m: map<Bytes, Bytes>, m1: map<Bytes, Bytes>, cond: Option<Expr>,
      rows: seq<Row>, sets: seq<Assignment>)
    requires WellFormed(s) && IsUpdate(s, m, m1, cond, rows, sets)
    ensures AreOutcomes(s, m, m1, cond, sets)
  {
    forall row1 | HasRow(s, m1, row1) ensures exists row :: OutcomeOf(s, m, row, row1, cond, sets) {
      var row := RowComesFrom(s, m, m1, cond, rows, sets, row1);
    }
  }

  /** UPDATE is simultaneous assignment: the new table consists of exactly the
      outcomes of the old rows, under the same primary keys; selected rows hold in
      every column what its last right-hand side gives in the old row, all other rows
      and every key outside the table are as before. */
  lemma UpdateIsSimultaneous(s: Schema, m: map<Bytes, Bytes>, m1: map<Bytes, Bytes>, cond: Option<Expr>,
      rows: seq<Row>, sets: seq<Assignment>)
    requires WellFormed(s) && IsUpdate(s, m, m1, cond, rows, sets)
    ensures TableStored(s, m1)
    ensures AllBecame(s, m, m1, cond, sets) && AllWere(s, m, m1, cond, sets)
    ensures HasOutcomes(s, m, m1, cond, sets) && AreOutcomes(s, m, m1, cond, sets)
    ensures m1.Keys == m.Keys && forall k :: k in m && !(TablePrefix(s) <= k) ==> m1[k] == m[k]
  {
    hide AllBecame, AllWere, HasOutcomes, AreOutcomes, TableStored, Answers;
    EveryRowBecame(s, m, m1, cond, rows, sets);
    EveryRowWas(s, m, m1, cond, rows, sets);
    EveryOutcomeStands(s, m, m1, cond, rows, sets);
    EveryRowIsOutcome(s, m, m1, cond, rows, sets);
    UpdatedTableStored(s, m, m1, cond, rows, sets);
    ElsewhereUntouched(s, m, m1, rows, sets);
  }

  lemma ElsewhereUntouched(s: Schema, m: map<Bytes, Bytes>, m1: map<Bytes, Bytes>, rows: seq<Row>,
      sets: seq<Assignment>)
    requires WellFormed(s) && Targeted(s, sets) && Rewrites(s, m, m1, rows, sets)
    ensures forall k :: k in m && !(TablePrefix(s) <= k) ==> m1[k] == m[k]
  {
    forall k | k in m && !(TablePrefix(s) <= k) ensures m1[k] == m[k] {
      KeyElsewhere(s, rows, k);
    }
  }

  /** Row keys of a table all start with its prefix. */
  lemma KeyElsewhere(s: Schema, rows: seq<Row>, k: Bytes)
    requires WellFormed(s) && !(TablePrefix(s) <= k)
    ensures KeyOfNone(s, rows, k)
  {
    forall i | 0 <= i < |rows| && |rows[i]| == |s.cols| ensures RowKey(s, rows[i]) != k {
      assert RowKey(s, rows[i]) == TablePrefix(s) + (EncodeCols(KeyCells(s, rows[i])) + [0]);
    }
  }

  // ---- inserting ----

  /** INSERT gives every value the type of its column. */
  function RetypedRow(s: Schema, values: seq<Cell>): (r: Row)
    requires |values| == |s.cols|
    ensures Typed(s, r)
    ensures forall i :: 0 <= i < |r| ==> r[i].num == values[i].num && r[i].str == values[i].str
  {
    seq(|values|, i requires 0 <= i < |values| => Retyped(values[i], s.cols[i].typ))
  }

  ghost predicate SameKey(s: Schema, a: Row, b: Row)
    requires WellFormed(s)
  {
    |a| == |s.cols| && |b| == |s.cols| &&
      SameTypes(KeyCells(s, a), KeyCells(s, b)) && TupleEq(KeyCells(s, a), KeyCells(s, b))
  }

  /** A row's key is taken exactly when some stored row has the same primary key. */
  lemma KeyTakenExactlyWhen(s: Schema, m: map<Bytes, Bytes>, row: Row)
    requires WellFormed(s) && TableStored(s, m) && Typed(s, row)
    ensures RowKey(s, row) in m <==> exists r :: HasRow(s, m, r) && SameKey(s, r, row)
  {
    hide RowKey, RowVal, DecodeRow, TupleEq, TableStored;
    var k := RowKey(s, row);
    if k in m {
      StartsWithPrefix(s, row);
      StoredPairDecodes(s, m, k);
      KeyIsInjective(s, DecodeRow(s, k, m[k]).row, row);
    }
    forall r | HasRow(s, m, r) && SameKey(s, r, row) ensures k in m {
      KeyIsInjective(s, r, row);
    }
  }

  lemma StartsWithPrefix(s: Schema, row: Row)
    requires WellFormed(s) && |row| == |s.cols|
    ensures TablePrefix(s) <= RowKey(s, row)
  {
    assert RowKey(s, row) == TablePrefix(s) + (EncodeCols(KeyCells(s, row)) + [0]);
  }

  /** INSERT adds exactly one row, and keeps the table well stored. */
  lemma InsertIsExact(s: Schema, m: map<Bytes, Bytes>, row: Row)
    requires WellFormed(s) && TableStored(s, m) && Typed(s, row) && RowKey(s, row) !in m
    requires |RowKey(s, row)| + |RowVal(s, row)| < U32
    ensures var m1 := m[RowKey(s, row) := RowVal(s, row)];
      TableStored(s, m1) && forall r :: HasRow(s, m1, r) <==> HasRow(s, m, r) || r == CanonRow(row)
  {
    hide RowKey, RowVal, DecodeRow;
    var k := RowKey(s, row);
    var m1 := m[k := RowVal(s, row)];
    assert Encodes(s, row, k, m1[k]);
    forall x | x in m1 && TablePrefix(s) <= x ensures exists r :: Encodes(s, r, x, m1[x]) {
      if x != k {
        var r :| Encodes(s, r, x, m[x]);
        assert Encodes(s, r, x, m1[x]);
      }
    }
    CanonSame(s, row);
    forall r ensures HasRow(s, m1, r) <==> HasRow(s, m, r) || r == CanonRow(row) {
      if HasRow(s, m1, r) && RowKey(s, r) == k { OneRowPerKey(s, m1, r, CanonRow(row)); }
    }
  }

  // ---- deleting ----

  /** `m1` is `m` without exactly the keys of these rows. */
  ghost predicate Removes(s: Schema, m: map<Bytes, Bytes>, m1: map<Bytes, Bytes>, rows: seq<Row>)
    requires WellFormed(s)
  {
    && (forall k :: k in m1 <==> k in m && KeyOfNone(s, rows, k))
    && (forall k :: k in m1 ==> m1[k] == m[k])
  }

  lemma RemovesSnoc(s: Schema, m: map<Bytes, Bytes>, m1: map<Bytes, Bytes>, rows: seq<Row>, row: Row)
    requires WellFormed(s) && Removes(s, m, m1, rows) && |row| == |s.cols|
    ensures Removes(s, m, m1 - {RowKey(s, row)}, rows + [row])
  {
    hide RowKey;
    var all := rows + [row];
    assert all[|rows|] == row && forall i :: 0 <= i < |rows| ==> all[i] == rows[i];
    forall k ensures KeyOfNone(s, all, k) <==> KeyOfNone(s, rows, k) && k != RowKey(s, row) {
      if KeyOfNone(s, all, k) {
        assert RowKey(s, all[|rows|]) != k;
        forall i | 0 <= i < |rows| && |rows[i]| == |s.cols|
          ensures RowKey(s, rows[i]) != k
        {
          assert all[i] == rows[i];
        }
      }
    }
  }

  /** DELETE leaves exactly the rows the condition does not select. */
  lemma DeleteIsExact(s: Schema, m: map<Bytes, Bytes>, m1: map<Bytes, Bytes>, cond: Option<Expr>, rows: seq<Row>)
    requires WellFormed(s) && TableStored(s, m) && Answers(s, m, cond, rows) && Removes(s, m, m1, rows)
    ensures TableStored(s, m1)
    ensures forall row :: HasRow(s, m1, row) <==> HasRow(s, m, row) && !Selected(s, row, cond)
    ensures forall k :: k in m && !(TablePrefix(s) <= k) ==> k in m1 && m1[k] == m[k]
  {
    hide RowKey, RowVal, Selected, DecodeRow, EncodeCols;
    forall row ensures HasRow(s, m1, row) <==> HasRow(s, m, row) && !Selected(s, row, cond) {
      if HasRow(s, m, row) { RowSurvivesWhen(s, m, m1, cond, rows, row); }
    }
    forall k | k in m && !(TablePrefix(s) <= k) ensures k in m1 {
      KeyElsewhere(s, rows, k);
    }
  }

  lemma RowSurvivesWhen(s: Schema, m: map<Bytes, Bytes>, m1: map<Bytes, Bytes>, cond: Option<Expr>,
      rows: seq<Row>, row: Row)
    requires WellFormed(s) && TableStored(s, m) && Answers(s, m, cond, rows)
    requires Removes(s, m, m1, rows) && HasRow(s, m, row)
    ensures RowKey(s, row) in m1 <==> !Selected(s, row, cond)
  {
    hide RowKey, RowVal, Selected, TableStored;
    var k := RowKey(s, row);
    if Selected(s, row, cond) {
      var i :| 0 <= i < |rows| && rows[i] == row;
      assert !KeyOfNone(s, rows, k);
    } else {
      forall i | 0 <= i < |rows| && |rows[i]| == |s.cols| ensures RowKey(s, rows[i]) != k {
        if RowKey(s, rows[i]) == k {
          OneRowPerKey(s, m, rows[i], row);
          assert false;
        }
      }
    }
  }

  // ---- what other tables see ----

  /** The two maps agree on every key of the table. */
  ghost predicate SameTable(s: Schema, m: map<Bytes, Bytes>, m1: map<Bytes, Bytes>) {
    forall k :: TablePrefix(s) <= k ==> (k in m <==> k in m1) && (k in m ==> m[k] == m1[k])
  }

  /** The two maps agree on every key outside the table. */
  ghost predicate OnlyTable(t: Schema, m: map<Bytes, Bytes>, m1: map<Bytes, Bytes>) {
    forall k :: !(TablePrefix(t) <= k) ==> (k in m <==> k in m1) && (k in m ==> m[k] == m1[k])
  }

  lemma SameTableSameRows(s: Schema, m: map<Bytes, Bytes>, m1: map<Bytes, Bytes>)
    requires WellFormed(s) && SameTable(s, m, m1)
    ensures TableStored(s, m) <==> TableStored(s, m1)
    ensures forall row :: HasRow(s, m, row) <==> HasRow(s, m1, row)
  {
    hide RowKey, RowVal, TableStored;
    forall row ensures HasRow(s, m, row) <==> HasRow(s, m1, row) {
      if |row| == |s.cols| { StartsWithPrefix(s, row); }
    }
    if TableStored(s, m) { SameTableStored(s, m, m1); }
    if TableStored(s, m1) { SameTableStored(s, m1, m); }
  }

  lemma SameTableStored(s: Schema, m: map<Bytes, Bytes>, m1: map<Bytes, Bytes>)
    requires WellFormed(s) && SameTable(s, m, m1) && TableStored(s, m)
    ensures TableStored(s, m1)
  {
    hide Encodes;
    forall k | k in m1 && TablePrefix(s) <= k ensures exists row :: Encodes(s, row, k, m1[k]) {
      var row :| Encodes(s, row, k, m[k]);
      assert Encodes(s, row, k, m1[k]);
    }
  }

  lemma PrefixesDisjoint(s: Schema, t: Schema, k: Bytes)
    requires WellFormed(s) && WellFormed(t) && s.table != t.table && TablePrefix(s) <= k
    ensures !(TablePrefix(t) <= k)
  {
    if TablePrefix(t) <= k {
      var rest := k[|TablePrefix(t)|..];
      assert k == t.table + [0] + rest;
      PrefixIsExclusive(s.table, t.table, rest);
    }
  }

  /** What happens in one table leaves the rows and the good order of every other alone. */
  lemma OtherTablesUntouched(s: Schema, t: Schema, m: map<Bytes, Bytes>, m1: map<Bytes, Bytes>)
    requires WellFormed(s) && WellFormed(t) && s.table != t.table && OnlyTable(t, m, m1)
    ensures TableStored(s, m) <==> TableStored(s, m1)
    ensures forall row :: HasRow(s, m, row) <==> HasRow(s, m1, row)
  {
    hide TablePrefix, HasRow, TableStored;
    forall k | TablePrefix(s) <= k ensures (k in m <==> k in m1) && (k in m ==> m[k] == m1[k]) {
      PrefixesDisjoint(s, t, k);
    }
    SameTableSameRows(s, m, m1);
  }

  /** A catalog entry, whose key holds no 0x00, is in no table. */
  lemma CatalogWriteTouchesNoTable(s: Schema, m: map<Bytes, Bytes>, key: Bytes, val: Bytes)
    requires WellFormed(s) && 0 !in key
    ensures TableStored(s, m) <==> TableStored(s, m[key := val])
    ensures forall row :: HasRow(s, m, row) <==> HasRow(s, m[key := val], row)
  {
    hide HasRow, TableStored;
    assert !(TablePrefix(s) <= key) by { PrefixIsExclusive(s.table, key, []); }
    SameTableSameRows(s, m, m[key := val]);
  }

  /** INSERT writes into its own table only. */
  lemma InsertStaysInTable(t: Schema, m: map<Bytes, Bytes>, row: Row, val: Bytes)
    requires WellFormed(t) && |row| == |t.cols|
    ensures OnlyTable(t, m, m[RowKey(t, row) := val])
  {
    StartsWithPrefix(t, row);
    hide RowKey;
  }

  /** UPDATE rewrites pairs of its own table only. */
  lemma UpdateStaysInTable(t: Schema, m: map<Bytes, Bytes>, m1: map<Bytes, Bytes>, rows: seq<Row>,
      sets: seq<Assignment>)
    requires WellFormed(t) && Targeted(t, sets) && Rewrites(t, m, m1, rows, sets)
    ensures OnlyTable(t, m, m1)
  {
    hide RowKey, RowVal;
    forall k | !(TablePrefix(t) <= k) ensures (k in m <==> k in m1) && (k in m ==> m[k] == m1[k]) {
      KeyElsewhere(t, rows, k);
    }
  }

  /** DELETE removes pairs of its own table only. */
  lemma DeleteStaysInTable(t: Schema, m: map<Bytes, Bytes>, m1: map<Bytes, Bytes>, rows: seq<Row>)
    requires WellFormed(t) && Removes(t, m, m1, rows)
    ensures OnlyTable(t, m, m1)
  {
    hide RowKey;
    forall k | !(TablePrefix(t) <= k) ensures (k in m <==> k in m1) && (k in m ==> m[k] == m1[k]) {
      KeyElsewhere(t, rows, k);
    }
  }

  // ---- one row at a time ----

  lemma NothingRewritten(s: Schema, m: map<Bytes, Bytes>, rows: seq<Row>, sets: seq<Assignment>)
    requires WellFormed(s) && Targeted(s, sets)
    ensures RewritesFirst(s, m, m, rows, 0, sets)
  {
    assert rows[..0] == [];
  }

  /** The next row's key is still in the map and not among those already written. */
  lemma NextToUpdate(s: Schema, m: map<Bytes, Bytes>, m1: map<Bytes, Bytes>, rows: seq<Row>, i: nat,
      sets: seq<Assignment>)
    requires WellFormed(s) && Targeted(s, sets) && StoredRows(s, m, rows) && i < |rows|
    requires RewritesFirst(s, m, m1, rows, i, sets)
    ensures Typed(s, rows[i]) && |rows[i]| == |s.cols| && RowKey(s, rows[i]) in m && RowKey(s, rows[i]) in m1
    ensures KeyOfNone(s, rows[..i], RowKey(s, rows[i]))
  {
    hide RowKey, RowVal, Assignable;
    assert HasRow(s, m, rows[i]);
  }

  lemma NextIsRewritten(s: Schema, m: map<Bytes, Bytes>, m1: map<Bytes, Bytes>, rows: seq<Row>, i: nat,
      sets: seq<Assignment>)
    requires WellFormed(s) && Targeted(s, sets) && StoredRows(s, m, rows) && i < |rows|
    requires RewritesFirst(s, m, m1, rows, i, sets) && Typed(s, rows[i]) && Assignable(s, rows[i], sets)
    ensures var u := UpdatedRow(s, rows[i], sets);
      && RowKey(s, u) in m1
      && RewritesFirst(s, m, m1[RowKey(s, u) := RowVal(s, u)], rows, i + 1, sets)
  {
    hide RowKey, RowVal, Assignable, UpdatedRow, Rewrites, StoredRows, Targeted, KeyOfNone, WellFormed, Typed;
    NextToUpdate(s, m, m1, rows, i, sets);
    UpdateKeepsRowKey(s, rows[i], sets);
    RewritesSnoc(s, m, m1, rows[..i], rows[i], sets);
    assert rows[..i + 1] == rows[..i] + [rows[i]];
  }

  lemma NothingRemoved(s: Schema, m: map<Bytes, Bytes>)
    requires WellFormed(s)
    ensures Removes(s, m, m, [])
  {
  }

  lemma NextToDelete(s: Schema, m: map<Bytes, Bytes>, m1: map<Bytes, Bytes>, rows: seq<Row>, i: nat)
    requires WellFormed(s) && StoredRows(s, m, rows) && i < |rows|
    requires Removes(s, m, m1, rows[..i])
    ensures |rows[i]| == |s.cols| && RowKey(s, rows[i]) in m1
    ensures Removes(s, m, m1 - {RowKey(s, rows[i])}, rows[..i + 1])
  {
    hide RowKey, RowVal;
    assert HasRow(s, m, rows[i]);
    assert KeyOfNone(s, rows[..i], RowKey(s, rows[i]));
    hide Removes, HasRow;
    RemovesSnoc(s, m, m1, rows[..i], rows[i]);
    assert rows[..i + 1] == rows[..i] + [rows[i]];
  }
}
