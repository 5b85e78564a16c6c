/** Running SELECT, UPDATE and DELETE on the storage engine. */
module Execution {
  import opened Bytes
  import opened RangeScan
  import opened KeyCodec
  import opened Rows
  import opened Expressions
  import opened Planner
  import opened Acceptance
  import opened Selection
  import opened Updates
  import opened KVStore
  import Engine

  /** Decoded rows over a key range; it ends with the range, with the table, or at
      a pair that does not decode. */
  class RowIterator {
    const schema: Schema
    const iter: RangedKVIter
    var valid: bool
    var row: Row

    ghost predicate Inv()
      reads this, iter, iter.iter, iter.iter.iter, iter.iter.iter.levels
    {
      && WellFormed(schema) && iter.Inv() && !iter.desc && !iter.iter.iter.desc
      && (valid <==> Pending() != []) && (valid ==> row == Pending()[0])
    }

    /** The rows still to come, the current one first. */
    ghost function Pending(): seq<Row>
      requires WellFormed(schema) && iter.Inv()
      reads this, iter, iter.iter, iter.iter.iter, iter.iter.iter.levels
    {
      RowsUntil(schema, iter.Remaining())
    }

    lemma ValidWhilePending()
      requires Inv()
      ensures WellFormed(schema) && iter.Inv()
      ensures (valid <==> Pending() != []) && (valid ==> row == Pending()[0])
    {
    }

    constructor (schema: Schema, iter: RangedKVIter)
      ensures this.schema == schema && this.iter == iter
    {
      this.schema, this.iter, valid, row := schema, iter, false, [];
    }

    method Decode() returns (ok: bool)
      requires WellFormed(schema) && iter.Inv() && !iter.desc && !iter.iter.iter.desc
      modifies this`valid, this`row
      ensures Inv() && (ok <==> !StartsCorrupt(schema, iter.Remaining()))
    {
      valid := false;
      iter.ValidWhileRemaining();
      if !iter.Valid() {
        return true;
      }
      var d := ReadRow(schema, iter.Current().key, iter.Current().val);
      match d
      case OutOfRange => return true;
      case Corrupt => return false;
      case Good(r) =>
        row := r;
        valid := true;
        return true;
    }

    /** Moves the cursor on and decodes; reports a pair that does not decode. On an
        ended range it stays ended. */
    method Next() returns (ok: bool)
      requires Inv()
      modifies this, iter.iter.iter, iter.iter.iter.levels
      ensures Inv() && (ok <==> !StartsCorrupt(schema, iter.Remaining()))
      ensures iter.Remaining() == if old(iter.Remaining()) == [] then [] else old(iter.Remaining())[1..]
      ensures old(Pending()) != [] ==> Pending() == old(Pending())[1..]
    {
      ghost var recs := iter.Remaining();
      iter.Next();
      ok := Decode();
    }
  }

  method NewRowIterator(schema: Schema, cur: RangedKVIter) returns (r: Result<RowIterator, ExecError>)
    requires WellFormed(schema) && cur.Inv() && !cur.desc && !cur.iter.iter.desc
    ensures r.Err? <==> StartsCorrupt(schema, cur.Remaining())
    ensures r.Err? ==> r.error == CorruptRow
    ensures r.Ok? ==> fresh(r.value) && r.value.Inv() && r.value.schema == schema && r.value.iter == cur
  {
    var it := new RowIterator(schema, cur);
    var ok := it.Decode();
    if !ok {
      return Err(CorruptRow);
    }
    return Ok(it);
  }

  /** execCond: plan, then scan the chosen range. */
  method ExecCond(kv: KV, s: Schema, cond: Option<Expr>) returns (r: Result<RowIterator, ExecError>)
    requires kv.Valid() && WellFormed(s)
    ensures var l, plan := LivePairs(Engine.Stack(kv.Abs())), MakeRange(s, cond);
      (r.Err? <==> plan.None? || StartsCorrupt(s, Hits(s, l, plan.value))) &&
      (r.Ok? ==> r.value.Inv() && r.value.Pending() == SelectRows(s, l, plan.value))
    ensures r.Err? ==> r.error == if MakeRange(s, cond).None? then UnimplementedWhere else CorruptRow
    ensures r == Err(UnimplementedWhere) <==> cond.Some? && !PointShape(s, cond.value) && !RangeShape(s, cond.value)
    ensures r.Ok? ==> fresh(r.value) && fresh(r.value.iter.iter.iter) && fresh(r.value.iter.iter.iter.levels)
  {
    hide MakeRange, LivePairs, RowsUntil, EncodeKeyPrefix, KV.Valid, RangedKVIter.Inv,
      RangedKVIter.Remaining, WellFormed, PointShape, RangeShape;
    RefusedExactlyWhen(s, cond);
    var plan := MakeRange(s, cond);
    if plan.None? {
      return Err(UnimplementedWhere);
    }
    var req := plan.value;
    PlanAscends(s, cond);
    var rit := kv.Range(StartKey(s, req), StopKey(s, req), IsDescending(req.startCmp));
    r := NewRowIterator(s, rit);
  }

  lemma RefusedExactlyWhen(s: Schema, cond: Option<Expr>)
    requires WellFormed(s)
    ensures MakeRange(s, cond).None? <==> cond.Some? && !PointShape(s, cond.value) && !RangeShape(s, cond.value)
  {
    if cond.Some? { AcceptedExactlyWhen(s, cond.value); }
  }

  /** Every plan scans upward. */
  lemma PlanAscends(s: Schema, cond: Option<Expr>)
    requires WellFormed(s) && MakeRange(s, cond).Some?
    ensures !IsDescending(MakeRange(s, cond).value.startCmp)
  {
  }

  lemma LiveRepresents(kv: KV)
    requires kv.Valid()
    ensures Represents(LivePairs(Engine.Stack(kv.Abs())), Engine.View(kv.Abs()))
  {
    LivePairsExact(Engine.Stack(kv.Abs()));
  }

  /** What `Matched` promises of a stored table. */
  lemma LiveAnswers(kv: KV, s: Schema, cond: Option<Expr>)
    requires kv.Valid() && WellFormed(s) && TableStored(s, Engine.View(kv.Abs()))
    ensures var rows := Matched(s, LivePairs(Engine.Stack(kv.Abs())), cond);
      && (Plannable(s, cond) ==> Answers(s, Engine.View(kv.Abs()), cond, rows))
      && StoredRows(s, Engine.View(kv.Abs()), rows)
    ensures MakeRange(s, cond).Some? ==>
      !StartsCorrupt(s, Hits(s, LivePairs(Engine.Stack(kv.Abs())), MakeRange(s, cond).value))
  {
    LiveRepresents(kv);
    var m, l := Engine.View(kv.Abs()), LivePairs(Engine.Stack(kv.Abs()));
    hide HasRow, RowKey, MakeRange, TableStored, KV.Valid, LivePairs, Engine.View, WellFormed,
      SelectRows, Hits, Answers,
      StoredRows;
    MatchedRows(s, m, l, cond);
    if MakeRange(s, cond).Some? { NothingIsCorrupt(s, m, l, MakeRange(s, cond).value); }
    if Plannable(s, cond) { QueryIsExact(s, m, l, cond); }
  }

  ghost predicate AllSized(s: Schema, rows: seq<Row>) {
    forall i :: 0 <= i < |rows| ==> |rows[i]| == |s.cols|
  }

  lemma MatchedAreRows(kv: KV, s: Schema, cond: Option<Expr>)
    requires kv.Valid() && WellFormed(s) && TableStored(s, Engine.View(kv.Abs()))
    ensures AllSized(s, Matched(s, LivePairs(Engine.Stack(kv.Abs())), cond))
  {
    hide LivePairs, KV.Valid, Matched, Engine.View, TableStored, Answers, Hits, StartsCorrupt,
      RowKey, RowVal, MakeRange, Plannable;
    LiveAnswers(kv, s, cond);
  }

  /** An iterator over the matching rows of a stored table. */
  method OpenMatching(kv: KV, s: Schema, cond: Option<Expr>) returns (r: Result<RowIterator, ExecError>)
    requires kv.Valid() && WellFormed(s) && TableStored(s, Engine.View(kv.Abs()))
    ensures r.Err? <==> MakeRange(s, cond).None?
    ensures r.Err? ==> r.error == UnimplementedWhere
    ensures r.Ok? ==> fresh(r.value) && fresh(r.value.iter.iter.iter) && fresh(r.value.iter.iter.iter.levels)
    ensures r.Ok? ==> r.value.Inv() && r.value.Pending() == Matched(s, LivePairs(Engine.Stack(kv.Abs())), cond)
    ensures r.Ok? ==> AllSized(s, r.value.Pending())
    ensures r.Ok? && Plannable(s, cond) ==> Answers(s, Engine.View(kv.Abs()), cond, r.value.Pending())
  {
    hide MakeRange, SelectRows, RowIterator.Pending, KV.Valid, WellFormed, RangedKVIter.Inv, Answers, TableStored,
      HasRow, RowKey, Hits, StartsCorrupt, LivePairs, Engine.View, Plannable, RowIterator.Inv, AllSized;
    LiveAnswers(kv, s, cond);
    MatchedAreRows(kv, s, cond);
    r := ExecCond(kv, s, cond);
  }

  method Collect(it: RowIterator) returns (rows: seq<Row>)
    requires it.Inv()
    modifies it, it.iter.iter.iter, it.iter.iter.iter.levels
    ensures rows == old(it.Pending())
  {
    hide RowIterator.Pending, RangedKVIter.Inv, RangedKVIter.Remaining, WellFormed, StartsCorrupt, RowsUntil;
    ghost var all := it.Pending();
    rows := [];
    it.ValidWhilePending();
    while it.valid
      invariant it.Inv() && rows + it.Pending() == all
      invariant it.valid <==> it.Pending() != []
      decreases |it.Pending()|
    {
      it.ValidWhilePending();
      rows := rows + [it.row];
      var _ := it.Next();
      it.ValidWhilePending();
    }
  }

  /** matchingRows: collects every row before anything is changed. */
  method MatchingRows(kv: KV, s: Schema, cond: Option<Expr>) returns (r: Result<seq<Row>, ExecError>)
    requires kv.Valid() && WellFormed(s) && TableStored(s, Engine.View(kv.Abs()))
    ensures r.Err? <==> MakeRange(s, cond).None?
    ensures r.Err? ==> r.error == UnimplementedWhere
    ensures r.Ok? ==> r.value == Matched(s, LivePairs(Engine.Stack(kv.Abs())), cond)
    ensures r.Ok? && Plannable(s, cond) ==> Answers(s, Engine.View(kv.Abs()), cond, r.value)
  {
    hide *;
    var opening := OpenMatching(kv, s, cond);
    if opening.Err? {
      return Err(opening.error);
    }
    var rows := Collect(opening.value);
    return Ok(rows);
  }

  // ---- SELECT ----

  /** checkExprCols: every column the expression could evaluate exists. */
  predicate CheckExprCols(s: Schema, e: Expr) {
    match e
    case Col(name) => ColIndex(s, name) >= 0
    case Bin(_, l, r) => CheckExprCols(s, l) && CheckExprCols(s, r)
    case Un(_, kid) => CheckExprCols(s, kid)
    case _ => true
  }

  /** The expression refers to a column of this name, outside tuples. */
  predicate Mentions(e: Expr, name: Bytes) {
    match e
    case Col(n) => n == name
    case Bin(_, l, r) => Mentions(l, name) || Mentions(r, name)
    case Un(_, kid) => Mentions(kid, name)
    case _ => false
  }

  predicate HasColumn(s: Schema, name: Bytes) {
    exists j :: 0 <= j < |s.cols| && s.cols[j].name == name
  }

  /** An expression passes exactly when every column that it mentions exists. */
  lemma {:induction false} CheckedExactlyWhen(s: Schema, e: Expr)
    ensures CheckExprCols(s, e) <==> forall name :: Mentions(e, name) ==> HasColumn(s, name)
  {
    match e
    case Col(name) =>
      var i := ColIndex(s, name);
      assert Mentions(e, name);
    case Bin(_, l, r) =>
      CheckedExactlyWhen(s, l);
      CheckedExactlyWhen(s, r);
      hide HasColumn;
      assert forall name :: Mentions(l, name) || Mentions(r, name) ==> Mentions(e, name);
    case Un(_, kid) =>
      CheckedExactlyWhen(s, kid);
      hide HasColumn;
      assert forall name :: Mentions(kid, name) ==> Mentions(e, name);
    case _ =>
  }

  /** A checked expression never fails for want of a column, in any row. */
  lemma {:induction false} CheckedColsExist(s: Schema, row: Row, e: Expr)
    requires |row| == |s.cols| && CheckExprCols(s, e)
    ensures Eval(s, row, e) != Err(NoSuchColumn)
  {
    match e
    case Bin(_, l, r) =>
      CheckedColsExist(s, row, l);
      CheckedColsExist(s, row, r);
    case Un(_, kid) => CheckedColsExist(s, row, kid);
    case _ =>
  }

  /** The values of the output expressions in one row. */
  predicate Projects(s: Schema, cols: seq<Expr>, row: Row, out: seq<Cell>)
    requires |row| == |s.cols|
  {
    |out| == |cols| && forall i :: 0 <= i < |cols| ==> Eval(s, row, cols[i]) == Ok(out[i])
  }

  method ProjectRow(s: Schema, cols: seq<Expr>, row: Row) returns (r: Result<seq<Cell>, EvalError>)
    requires |row| == |s.cols|
    ensures r.Ok? ==> Projects(s, cols, row, r.value)
    ensures r.Err? ==> exists i :: 0 <= i < |cols| && Eval(s, row, cols[i]) == Err(r.error)
  {
    var out: seq<Cell> := [];
    var i := 0;
    while i < |cols|
      invariant 0 <= i <= |cols| && |out| == i
      invariant forall j :: 0 <= j < i ==> Eval(s, row, cols[j]) == Ok(out[j])
    {
      var c := Eval(s, row, cols[i]);
      if c.Err? {
        return Err(c.error);
      }
      out := out + [c.value];
      i := i + 1;
    }
    return Ok(out);
  }

  ghost predicate ProjectsAll(s: Schema, cols: seq<Expr>, rows: seq<Row>, outs: seq<seq<Cell>>) {
    |rows| == |outs| && forall i :: 0 <= i < |rows| ==> |rows[i]| == |s.cols| && Projects(s, cols, rows[i], outs[i])
  }

  /** Some output expression fails so in some row. */
  ghost predicate FailsOnSome(s: Schema, cols: seq<Expr>, rows: seq<Row>, why: EvalError) {
    exists row, i :: row in rows && |row| == |s.cols| && 0 <= i < |cols| && Eval(s, row, cols[i]) == Err(why)
  }

  method ProjectRows(it: RowIterator, s: Schema, cols: seq<Expr>) returns (r: Result<seq<seq<Cell>>, EvalError>)
    requires it.Inv() && AllSized(s, it.Pending())
    modifies it, it.iter.iter.iter, it.iter.iter.iter.levels
    ensures r.Ok? ==> ProjectsAll(s, cols, old(it.Pending()), r.value)
    ensures r.Err? ==> FailsOnSome(s, cols, old(it.Pending()), r.error)
  {
    hide RowIterator.Pending, RangedKVIter.Inv, RangedKVIter.Remaining, WellFormed, StartsCorrupt, RowsUntil, Eval;
    ghost var all := it.Pending();
    var outs: seq<seq<Cell>> := [];
    it.ValidWhilePending();
    while it.valid
      invariant it.Inv() && |outs| <= |all| && it.Pending() == all[|outs|..]
      invariant it.valid <==> it.Pending() != []
      invariant forall i :: 0 <= i < |outs| ==> Projects(s, cols, all[i], outs[i])
      decreases |it.Pending()|
    {
      it.ValidWhilePending();
      assert it.row == all[|outs|];
      var p := ProjectRow(s, cols, it.row);
      if p.Err? {
        return Err(p.error);
      }
      outs := outs + [p.value];
      var _ := it.Next();
      it.ValidWhilePending();
    }
    return Ok(outs);
  }

  method CheckAllCols(s: Schema, cols: seq<Expr>) returns (ok: bool)
    ensures ok <==> forall i :: 0 <= i < |cols| ==> CheckExprCols(s, cols[i])
  {
    hide CheckExprCols;
    var i := 0;
    while i < |cols|
      invariant 0 <= i <= |cols| && forall j :: 0 <= j < i ==> CheckExprCols(s, cols[j])
    {
      if !CheckExprCols(s, cols[i]) {
        return false;
      }
      i := i + 1;
    }
    return true;
  }

  /** SELECT: the output expressions evaluated in every matching row, in order. */
  method ExecSelect(kv: KV, s: Schema, cols: seq<Expr>, cond: Option<Expr>)
    returns (r: Result<seq<seq<Cell>>, ExecError>, ghost rows: seq<Row>)
    requires kv.Valid() && WellFormed(s) && TableStored(s, Engine.View(kv.Abs()))
    ensures rows == Matched(s, LivePairs(Engine.Stack(kv.Abs())), cond)
    ensures r.Ok? ==> ProjectsAll(s, cols, rows, r.value)
    ensures r.Ok? ==> MakeRange(s, cond).Some? && forall i :: 0 <= i < |cols| ==> CheckExprCols(s, cols[i])
    ensures r.Ok? && Plannable(s, cond) ==> Answers(s, Engine.View(kv.Abs()), cond, rows)
    ensures r.Err? ==> match r.error
      case UnknownColumn => exists i :: 0 <= i < |cols| && !CheckExprCols(s, cols[i])
      case UnimplementedWhere => MakeRange(s, cond).None?
      case EvalFailed(why) => why != NoSuchColumn && FailsOnSome(s, cols, rows, why)
      case _ => false
  {
    hide *;
    kv.ParallelWhenValid();
    rows := Matched(s, LivePairs(Engine.Stack(kv.Abs())), cond);
    var ok := CheckAllCols(s, cols);
    if !ok {
      return Err(UnknownColumn), rows;
    }
    var opening := OpenMatching(kv, s, cond);
    if opening.Err? {
      return Err(opening.error), rows;
    }
    var outs := ProjectRows(opening.value, s, cols);
    if outs.Err? {
      AllChecked(s, cols, rows);
      return Err(EvalFailed(outs.error)), rows;
    }
    return Ok(outs.value), rows;
  }

  lemma AllChecked(s: Schema, cols: seq<Expr>, rows: seq<Row>)
    requires forall i :: 0 <= i < |cols| ==> CheckExprCols(s, cols[i])
    ensures !FailsOnSome(s, cols, rows, NoSuchColumn)
  {
    hide Eval, CheckExprCols;
    forall row: Row, i | |row| == |s.cols| && 0 <= i < |cols| ensures Eval(s, row, cols[i]) != Err(NoSuchColumn) {
      CheckedColsExist(s, row, cols[i]);
    }
  }

  // ---- INSERT, UPDATE and DELETE ----

  /** INSERT: refused for a wrong number of values and for a primary key that is
      taken. */
  method ExecInsert(kv: KV, s: Schema, values: seq<Cell>) returns (r: Result<nat, ExecError>)
    requires kv.Valid() && WellFormed(s)
    modifies kv, kv.dev, kv.log, kv.mem
    ensures kv.Valid()
    ensures |values| != |s.cols| ==> r == Err(WrongValueCount) && Engine.View(kv.Abs()) == old(Engine.View(kv.Abs()))
    ensures |values| == |s.cols| ==>
      var row, m := RetypedRow(s, values), old(Engine.View(kv.Abs()));
      if RowKey(s, row) in m then r == Err(DuplicateKey) && Engine.View(kv.Abs()) == m
      else r == Ok(1) && Engine.View(kv.Abs()) == m[RowKey(s, row) := RowVal(s, row)]
  {
    kv.ParallelWhenValid();
    if |values| != |s.cols| {
      return Err(WrongValueCount);
    }
    var row := RetypedRow(s, values);
    var key := EncodeKey(s, row);
    var val := EncodeVal(s, row);
    hide KV.Abs, RowKey, RowVal, RetypedRow, Engine.View, WellFormed;
    Engine.CallsImplementTheMap(kv.Abs(), Engine.Write(key, val, Engine.Insert));
    var ok := kv.SetEx(key, val, Engine.Insert);
    return if ok then Ok(1) else Err(DuplicateKey);
  }

  /** db.Update: rewrites the pair of a row that is there. */
  method StoreRow(kv: KV, s: Schema, row: Row)
    requires kv.Valid() && WellFormed(s) && |row| == |s.cols|
    requires RowKey(s, row) in Engine.View(kv.Abs())
    modifies kv, kv.dev, kv.log, kv.mem
    ensures kv.Valid() && Engine.View(kv.Abs()) == old(Engine.View(kv.Abs()))[RowKey(s, row) := RowVal(s, row)]
  {
    var key := EncodeKey(s, row);
    var val := EncodeVal(s, row);
    hide RowKey, RowVal, Engine.View;
    Engine.CallsImplementTheMap(kv.Abs(), Engine.Write(key, val, Engine.Update));
    var _ := kv.SetEx(key, val, Engine.Update);
  }

  /** db.Delete. */
  method RemoveRow(kv: KV, s: Schema, row: Row) returns (deleted: bool)
    requires kv.Valid() && WellFormed(s) && |row| == |s.cols|
    modifies kv, kv.dev, kv.log, kv.mem
    ensures kv.Valid() && Engine.View(kv.Abs()) == old(Engine.View(kv.Abs())) - {RowKey(s, row)}
    ensures deleted <==> RowKey(s, row) in old(Engine.View(kv.Abs()))
  {
    var key := EncodeKey(s, row);
    hide RowKey, Engine.View;
    Engine.CallsImplementTheMap(kv.Abs(), Engine.Delete(key));
    deleted := kv.Del(key);
  }

  /** Rewrites the rows one after the other until a right-hand side is refused. */
  method UpdateRows(kv: KV, s: Schema, rows: seq<Row>, sets: seq<Assignment>, idxs: seq<nat>)
    returns (r: Result<nat, ExecError>, ghost done: nat)
    requires kv.Valid() && WellFormed(s) && StoredRows(s, Engine.View(kv.Abs()), rows)
    requires Targeted(s, sets) && TargetsAre(s, sets, idxs)
    modifies kv, kv.dev, kv.log, kv.mem
    ensures kv.Valid() && done <= |rows|
    ensures RewritesFirst(s, old(Engine.View(kv.Abs())), Engine.View(kv.Abs()), rows, done, sets)
    ensures r.Ok? ==> r.value == done == |rows|
    ensures r.Err? ==> done < |rows| && Refused(s, rows[done], sets, r.error)
  {
    hide *;
    kv.ParallelWhenValid();
    ghost var m := Engine.View(kv.Abs());
    NothingRewritten(s, m, rows, sets);
    var i := 0;
    var refused: Option<ExecError> := None;
    while i < |rows| && refused.None?
      invariant 0 <= i <= |rows| && kv.Valid() && kv.mem.Parallel()
      invariant RewritesFirst(s, m, Engine.View(kv.Abs()), rows, i, sets)
      invariant refused.Some? ==> i < |rows| && Refused(s, rows[i], sets, refused.value)
      decreases |rows| - i, refused.None?
    {
      refused := UpdateOne(kv, s, m, rows, i, sets, idxs);
      kv.ParallelWhenValid();
      if refused.None? {
        i := i + 1;
      }
    }
    if refused.Some? {
      return Err(refused.value), i;
    }
    return Ok(|rows|), i;
  }

  method UpdateOne(kv: KV, s: Schema, ghost m: map<Bytes, Bytes>, rows: seq<Row>, i: nat,
      sets: seq<Assignment>, idxs: seq<nat>)
    returns (refused: Option<ExecError>)
    requires kv.Valid() && WellFormed(s) && StoredRows(s, m, rows) && i < |rows|
    requires Targeted(s, sets) && TargetsAre(s, sets, idxs)
    requires RewritesFirst(s, m, Engine.View(kv.Abs()), rows, i, sets)
    modifies kv, kv.dev, kv.log, kv.mem
    ensures kv.Valid()
    ensures refused.None? ==> RewritesFirst(s, m, Engine.View(kv.Abs()), rows, i + 1, sets)
    ensures refused.Some? ==> Engine.View(kv.Abs()) == old(Engine.View(kv.Abs()))
    ensures refused.Some? ==> Refused(s, rows[i], sets, refused.value)
  {
    hide *;
    kv.ParallelWhenValid();
    NextToUpdate(s, m, Engine.View(kv.Abs()), rows, i, sets);
    var u := AssignRow(s, rows[i], sets, idxs);
    if u.Err? {
      return Some(u.error);
    }
    NextIsRewritten(s, m, Engine.View(kv.Abs()), rows, i, sets);
    StoreRow(kv, s, u.value);
    return None;
  }

  /** UPDATE: `rows` matched, and exactly the first `done` of them are rewritten, all
      of them unless some right-hand side is refused. */
  method ExecUpdate(kv: KV, s: Schema, sets: seq<Assignment>, cond: Option<Expr>)
    returns (r: Result<nat, ExecError>, ghost rows: seq<Row>, ghost done: nat)
    requires kv.Valid() && WellFormed(s) && TableStored(s, Engine.View(kv.Abs()))
    modifies kv, kv.dev, kv.log, kv.mem
    ensures kv.Valid() && rows == old(Matched(s, LivePairs(Engine.Stack(kv.Abs())), cond)) && done <= |rows|
    ensures Plannable(s, cond) ==> Answers(s, old(Engine.View(kv.Abs())), cond, rows)
    ensures !Targeted(s, sets) || MakeRange(s, cond).None? ==>
      r.Err? && done == 0 && Engine.View(kv.Abs()) == old(Engine.View(kv.Abs())) &&
      (if Targeted(s, sets) then r.error == UnimplementedWhere else FirstBadTarget(s, sets, r.error))
    ensures Targeted(s, sets) && MakeRange(s, cond).Some? ==>
      RewritesFirst(s, old(Engine.View(kv.Abs())), Engine.View(kv.Abs()), rows, done, sets) &&
      (r.Ok? ==> r.value == done == |rows|) &&
      (r.Err? ==> done < |rows| && Refused(s, rows[done], sets, r.error))
    ensures r.Ok? && Plannable(s, cond) && AllFit(s, rows, sets) ==>
      IsUpdate(s, old(Engine.View(kv.Abs())), Engine.View(kv.Abs()), cond, rows, sets)
  {
    hide *;
    kv.ParallelWhenValid();
    ghost var m := Engine.View(kv.Abs());
    rows, done := Matched(s, LivePairs(Engine.Stack(kv.Abs())), cond), 0;
    LiveAnswers(kv, s, cond);
    var idxs := ValidateTargets(s, sets);
    if idxs.Err? {
      return Err(idxs.error), rows, 0;
    }
    var found := MatchingRows(kv, s, cond);
    if found.Err? {
      return Err(found.error), rows, 0;
    }
    r, done := UpdateRows(kv, s, found.value, sets, idxs.value);
    kv.ParallelWhenValid();
    if r.Ok? && Plannable(s, cond) && AllFit(s, rows, sets) {
      CompleteUpdate(s, m, Engine.View(kv.Abs()), cond, rows, sets);
    }
  }

  /** Deletes the rows one after the other, counting those that were there. */
  method DeleteRows(kv: KV, s: Schema, rows: seq<Row>) returns (n: nat)
    requires kv.Valid() && WellFormed(s) && StoredRows(s, Engine.View(kv.Abs()), rows)
    modifies kv, kv.dev, kv.log, kv.mem
    ensures kv.Valid() && n == |rows|
    ensures Removes(s, old(Engine.View(kv.Abs())), Engine.View(kv.Abs()), rows)
  {
    hide *;
    kv.ParallelWhenValid();
    ghost var m := Engine.View(kv.Abs());
    NothingRemoved(s, m);
    assert rows[..0] == [];
    n := 0;
    var i := 0;
    while i < |rows|
      invariant 0 <= i == n <= |rows| && kv.Valid() && kv.mem.Parallel()
      invariant Removes(s, m, Engine.View(kv.Abs()), rows[..i])
    {
      NextToDelete(s, m, Engine.View(kv.Abs()), rows, i);
      var ok := RemoveRow(kv, s, rows[i]);
      kv.ParallelWhenValid();
      if ok {
        n := n + 1;
      }
      i := i + 1;
    }
    assert rows[..i] == rows;
  }

  /** DELETE: every matching row goes, and is counted. */
  method ExecDelete(kv: KV, s: Schema, cond: Option<Expr>) returns (r: Result<nat, ExecError>, ghost rows: seq<Row>)
    requires kv.Valid() && WellFormed(s) && TableStored(s, Engine.View(kv.Abs()))
    modifies kv, kv.dev, kv.log, kv.mem
    ensures kv.Valid() && rows == old(Matched(s, LivePairs(Engine.Stack(kv.Abs())), cond))
    ensures Plannable(s, cond) ==> Answers(s, old(Engine.View(kv.Abs())), cond, rows)
    ensures r == if MakeRange(s, cond).None? then Err(UnimplementedWhere) else Ok(|rows|)
    ensures r.Err? ==> Engine.View(kv.Abs()) == old(Engine.View(kv.Abs()))
    ensures r.Ok? ==> Removes(s, old(Engine.View(kv.Abs())), Engine.View(kv.Abs()), rows)
  {
    hide *;
    kv.ParallelWhenValid();
    rows := Matched(s, LivePairs(Engine.Stack(kv.Abs())), cond);
    LiveAnswers(kv, s, cond);
    var found := MatchingRows(kv, s, cond);
    if found.Err? {
      return Err(found.error), rows;
    }
    var n := DeleteRows(kv, s, found.value);
    return Ok(n), rows;
  }
}
