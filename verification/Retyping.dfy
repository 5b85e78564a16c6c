/** Constants of the wrong type: the planner silently gives every constant the type
    of its column, the interpreter refuses to compare them. */
module Retyping {
  import opened Bytes
  import opened KeyCodec
  import opened Rows
  import opened Expressions
  import opened Planner

  function RetypeTo(s: Schema, name: Bytes, c: Cell): Cell {
    var i := ColIndex(s, name);
    if i < 0 then c else Retyped(c, s.cols[i].typ)
  }

  function RetypeEach(s: Schema, ls: seq<Expr>, rs: seq<Expr>): (r: seq<Expr>)
    requires |ls| == |rs|
    ensures |r| == |rs|
  {
    if ls == [] then []
    else [RetypeRight(s, ls[0], rs[0])] + RetypeEach(s, ls[1..], rs[1..])
  }

  /** The constant compared with a column, in the type of that column. */
  function RetypeRight(s: Schema, l: Expr, r: Expr): Expr {
    if l.Col? && r.Const? then Const(RetypeTo(s, l.name, r.cell)) else r
  }

  /** The condition with every constant in the type of its column. */
  function Retype(s: Schema, e: Expr): Expr {
    match e
    case Bin(AND, l, r) => Bin(AND, Retype(s, l), Retype(s, r))
    case Bin(op, Tuple(ls), Tuple(rs)) =>
      if |ls| == |rs| then Bin(op, Tuple(ls), Tuple(RetypeEach(s, ls, rs))) else e
    case Bin(op, l, r) => Bin(op, l, RetypeRight(s, l, r))
    case _ => e
  }

  function RetypePairs(s: Schema, ps: seq<NamedCell>): (r: seq<NamedCell>)
    ensures |r| == |ps|
    ensures forall i :: 0 <= i < |r| ==>
      r[i].column == ps[i].column && r[i].value == RetypeTo(s, ps[i].column, ps[i].value)
  {
    seq(|ps|, i requires 0 <= i < |ps| => NamedCell(ps[i].column, RetypeTo(s, ps[i].column, ps[i].value)))
  }

  function RetypeFound(s: Schema, found: Option<seq<NamedCell>>): Option<seq<NamedCell>> {
    match found
    case None => None
    case Some(ps) => Some(RetypePairs(s, ps))
  }

  lemma {:induction false} PairsRetyped(s: Schema, ls: seq<Expr>, rs: seq<Expr>)
    requires |ls| == |rs|
    ensures Pairs(ls, RetypeEach(s, ls, rs)) == RetypeFound(s, Pairs(ls, rs))
  {
    hide RetypeTo;
    if ls != [] {
      PairsRetyped(s, ls[1..], rs[1..]);
      if ls[0].Col? && rs[0].Const? && Pairs(ls[1..], rs[1..]).Some? {
        var p, t := NamedCell(ls[0].name, rs[0].cell), Pairs(ls[1..], rs[1..]).value;
        assert RetypePairs(s, [p] + t) ==
          [NamedCell(ls[0].name, RetypeTo(s, ls[0].name, rs[0].cell))] + RetypePairs(s, t);
      }
    }
  }

  lemma ComparisonRetyped(s: Schema, op: Op, l: Expr, r: Expr)
    requires op != AND
    ensures var e := Retype(s, Bin(op, l, r));
      e.Bin? && e.op == op && e.left == l && DestructureCmp(l, e.right) == RetypeFound(s, DestructureCmp(l, r))
  {
    hide RetypeTo;
    if l.Tuple? && r.Tuple? && |l.kids| == |r.kids| {
      PairsRetyped(s, l.kids, r.kids);
    } else if l.Col? && r.Const? {
      assert RetypePairs(s, [NamedCell(l.name, r.cell)]) == [NamedCell(l.name, RetypeTo(s, l.name, r.cell))];
    }
  }

  lemma PrefixUnchanged(s: Schema, ps: seq<NamedCell>)
    requires WellFormed(s)
    ensures IsPKeyPrefix(s, RetypePairs(s, ps)) <==> IsPKeyPrefix(s, ps)
    ensures IsPKeyPrefix(s, ps) ==> TypedPrefix(s, RetypePairs(s, ps)) == TypedPrefix(s, ps)
  {
    hide ColIndex;
    var qs := RetypePairs(s, ps);
    assert forall i :: 0 <= i < |ps| ==> qs[i].column == ps[i].column;
  }

  /** Bounds do not depend on the types the constants came with. */
  lemma BoundUnchanged(s: Schema, e: Expr)
    requires WellFormed(s)
    ensures CmpToBound(s, Retype(s, e)) == CmpToBound(s, e)
  {
    hide DestructureCmp, IsPKeyPrefix, TypedPrefix, RetypePairs, RetypeEach, RetypeRight, WellFormed;
    match e
    case Bin(AND, _, _) =>
    case Bin(op, l, r) =>
      ComparisonRetyped(s, op, l, r);
      hide Retype;
      if DestructureCmp(l, r).Some? { PrefixUnchanged(s, DestructureCmp(l, r).value); }
    case _ =>
  }

  lemma KeyColumnsExist(s: Schema, ps: seq<NamedCell>)
    requires WellFormed(s) && forall i :: 0 <= i < |ps| ==> ColIndex(s, ps[i].column) >= 0
    ensures WellTypedPairs(s, RetypePairs(s, ps))
  {
  }

  lemma PrefixColumnsExist(s: Schema, ps: seq<NamedCell>)
    requires WellFormed(s) && IsPKeyPrefix(s, ps)
    ensures forall i :: 0 <= i < |ps| ==> ColIndex(s, ps[i].column) >= 0
  {
    forall i | 0 <= i < |ps| ensures ColIndex(s, ps[i].column) >= 0 {
      ColIndexOf(s, s.pkey[i]);
    }
  }

  /** An accepted comparison is well typed once retyped. */
  lemma BoundIsWellTyped(s: Schema, e: Expr)
    requires WellFormed(s) && CmpToBound(s, e).Some?
    ensures WellTyped(s, Retype(s, e))
  {
    ComparisonRetyped(s, e.op, e.left, e.right);
    var ps := DestructureCmp(e.left, e.right).value;
    PrefixColumnsExist(s, ps);
    KeyColumnsExist(s, ps);
  }

  // ---- point lookups ----

  lemma {:induction false} MatchAllEqRetyped(s: Schema, e: Expr, out: seq<NamedCell>)
    ensures MatchAllEq(Retype(s, e), RetypePairs(s, out)) == RetypeFound(s, MatchAllEq(e, out))
  {
    hide RetypeTo, RetypeEach;
    match e
    case Bin(AND, l, r) =>
      MatchAllEqRetyped(s, l, out);
      if MatchAllEq(l, out).Some? { MatchAllEqRetyped(s, r, MatchAllEq(l, out).value); }
    case Bin(EQ, Col(name), Const(c)) =>
      assert RetypePairs(s, out + [NamedCell(name, c)]) ==
        RetypePairs(s, out) + [NamedCell(name, RetypeTo(s, name, c))];
    case _ =>
  }

  lemma {:induction false} FirstNamedRetyped(s: Schema, keys: seq<NamedCell>, name: Bytes)
    ensures FirstNamed(RetypePairs(s, keys), name) == FirstNamed(keys, name)
  {
    hide RetypeTo;
    if keys != [] {
      assert RetypePairs(s, keys)[1..] == RetypePairs(s, keys[1..]);
      FirstNamedRetyped(s, keys[1..], name);
    }
  }

  lemma {:induction false} ExtractRetyped(s: Schema, keys: seq<NamedCell>, i: nat)
    requires WellFormed(s) && i <= |s.pkey|
    ensures ExtractFrom(s, RetypePairs(s, keys), i) == ExtractFrom(s, keys, i)
    decreases |s.pkey| - i
  {
    if i < |s.pkey| {
      FirstNamedRetyped(s, keys, s.cols[s.pkey[i]].name);
      ExtractRetyped(s, keys, i + 1);
    }
  }

  lemma PointColumnsExist(s: Schema, keys: seq<NamedCell>)
    requires WellFormed(s) && ExtractPKey(s, keys).Some?
    ensures forall v :: 0 <= v < |keys| ==> ColIndex(s, keys[v].column) >= 0
  {
    ExtractedCells(s, keys, 0);
    ChosenCovers(s, keys);
    hide FirstNamed, ExtractPKey;
    forall v | 0 <= v < |keys| ensures ColIndex(s, keys[v].column) >= 0 {
      assert v in Chosen(s, keys);
      var i :| 0 <= i < |s.pkey| && Chosen(s, keys)[i] == v;
      assert keys[v].column == s.cols[s.pkey[i]].name;
    }
  }

  /** An accepted conjunction of equalities likewise. */
  lemma PointUnchanged(s: Schema, e: Expr)
    requires WellFormed(s)
    ensures MatchAllEq(Retype(s, e), []).Some? <==> MatchAllEq(e, []).Some?
    ensures MatchAllEq(e, []).Some? ==>
      ExtractPKey(s, MatchAllEq(Retype(s, e), []).value) == ExtractPKey(s, MatchAllEq(e, []).value)
    ensures MatchAllEq(e, []).Some? && ExtractPKey(s, MatchAllEq(e, []).value).Some? ==> WellTyped(s, Retype(s, e))
  {
    assert RetypePairs(s, []) == [];
    MatchAllEqRetyped(s, e, []);
    hide MatchAllEq, Retype, ExtractFrom;
    if MatchAllEq(e, []).Some? {
      var keys := MatchAllEq(e, []).value;
      ExtractRetyped(s, keys, 0);
      if ExtractPKey(s, keys).Some? {
        PointColumnsExist(s, keys);
        KeyColumnsExist(s, keys);
        MatchAllEqMeans(s, NewRow(s), Retype(s, e), []);
      }
    }
  }

  // ---- the plan and its meaning ----

  lemma RangeUnchanged(s: Schema, e: Expr)
    requires WellFormed(s)
    ensures MatchRange(s, Retype(s, e)) == MatchRange(s, e)
    ensures MatchRange(s, e).Some? ==> WellTyped(s, Retype(s, e))
    ensures OneBoundPerSide(s, Retype(s, e)) <==> OneBoundPerSide(s, e)
  {
    hide CmpToBound, RetypeEach, RetypeRight;
    BoundUnchanged(s, e);
    match e
    case Bin(AND, l, r) =>
      BoundUnchanged(s, l);
      BoundUnchanged(s, r);
      if CmpToBound(s, l).Some? { BoundIsWellTyped(s, l); }
      if CmpToBound(s, r).Some? { BoundIsWellTyped(s, r); }
    case Bin(op, l, r) =>
      ComparisonRetyped(s, op, l, r);
      if CmpToBound(s, e).Some? { BoundIsWellTyped(s, e); }
    case _ =>
  }

  /** The planner sees no difference between a condition and its retyped form, and
      the retyped form of what it accepts is well typed. */
  lemma PlanUnchanged(s: Schema, e: Expr)
    requires WellFormed(s)
    ensures MakeRange(s, Some(Retype(s, e))) == MakeRange(s, Some(e))
    ensures MakeRange(s, Some(e)).Some? ==> WellTyped(s, Retype(s, e))
    ensures OneBoundPerSide(s, Retype(s, e)) <==> OneBoundPerSide(s, e)
  {
    hide MatchRange, MatchAllEq, ExtractPKey, WellTyped, OneBoundPerSide, Retype;
    PointUnchanged(s, e);
    RangeUnchanged(s, e);
  }

  /** Without any assumption on types: the rows selected are those that satisfy the
      retyped condition. */
  lemma PlanServesRetyped(s: Schema, e: Expr, row: Row)
    requires WellFormed(s) && Typed(s, row) && MakeRange(s, Some(e)).Some?
    ensures InInterval(s, MakeRange(s, Some(e)).value, RowKey(s, row)) <==> Holds(s, row, Served(s, Retype(s, e)))
  {
    hide MakeRange, WellTyped, InInterval, Holds, Retype, Served;
    PlanUnchanged(s, e);
    PlanServes(s, Retype(s, e), row);
  }

  // ---- an ill-typed condition holds of no row ----

  lemma ScalarTypeError(s: Schema, row: Row, op: Op, name: Bytes, c: Cell)
    requires Typed(s, row) && IsComparison(op) && ColIndex(s, name) >= 0 && s.cols[ColIndex(s, name)].typ != c.typ
    ensures !EvalsTrue(s, row, Bin(op, Col(name), Const(c)))
  {
    assert Eval(s, row, Col(name)) == Ok(row[ColIndex(s, name)]) && Eval(s, row, Const(c)) == Ok(c);
    assert Cmp(row[ColIndex(s, name)], c).None?;
  }

  lemma {:induction false} TupleTypeError(s: Schema, row: Row, ls: seq<Expr>, rs: seq<Expr>)
    requires Typed(s, row) && |ls| == |rs| && Pairs(ls, rs).Some?
    requires forall i :: 0 <= i < |Pairs(ls, rs).value| ==> ColIndex(s, Pairs(ls, rs).value[i].column) >= 0
    ensures var a, b := Values(EvalEach(s, row, ls)), Values(EvalEach(s, row, rs));
      a.Some? && b.Some? && (SameTypes(a.value, b.value) <==> WellTypedPairs(s, Pairs(ls, rs).value))
  {
    hide ColIndex, Eval;
    if ls != [] {
      hide WellTypedPairs, SameTypes;
      var ps, t := Pairs(ls, rs).value, Pairs(ls[1..], rs[1..]).value;
      assert ps == [NamedCell(ls[0].name, rs[0].cell)] + t;
      assert forall i :: 0 <= i < |t| ==> t[i] == ps[i + 1];
      assert ColIndex(s, ps[0].column) >= 0;
      TupleTypeError(s, row, ls[1..], rs[1..]);
      PairEvaluates(s, row, ls[0], rs[0]);
      WellTypedCons(s, ps[0], t);
      var a, b := Values(EvalEach(s, row, ls[1..])).value, Values(EvalEach(s, row, rs[1..])).value;
      SameTypesCons(row[ColIndex(s, ls[0].name)], rs[0].cell, a, b);
    }
  }

  lemma WellTypedCons(s: Schema, p: NamedCell, t: seq<NamedCell>)
    requires ColIndex(s, p.column) >= 0
    ensures WellTypedPairs(s, [p] + t) <==> s.cols[ColIndex(s, p.column)].typ == p.value.typ && WellTypedPairs(s, t)
  {
    hide ColIndex;
    var ps := [p] + t;
    assert ps[0] == p && forall i :: 0 <= i < |t| ==> t[i] == ps[i + 1];
  }

  lemma SameTypesCons(x: Cell, y: Cell, a: seq<Cell>, b: seq<Cell>)
    ensures SameTypes([x] + a, [y] + b) <==> x.typ == y.typ && SameTypes(a, b)
  {
    var p, q := [x] + a, [y] + b;
    assert p[0] == x && q[0] == y;
    assert forall i :: 0 <= i < |a| ==> a[i] == p[i + 1];
    assert forall i :: 0 <= i < |b| ==> b[i] == q[i + 1];
  }

  lemma IllTypedBound(s: Schema, row: Row, e: Expr)
    requires WellFormed(s) && Typed(s, row) && CmpToBound(s, e).Some? && !WellTyped(s, e)
    ensures !Holds(s, row, e)
  {
    var ps := DestructureCmp(e.left, e.right).value;
    PrefixColumnsExist(s, ps);
    match e.left
    case Col(name) =>
      assert ps == [NamedCell(name, e.right.cell)];
      ScalarTypeError(s, row, e.op, name, e.right.cell);
    case Tuple(ls) =>
      TupleTypeError(s, row, ls, e.right.kids);
  }

  lemma IllTypedPoint(s: Schema, row: Row, e: Expr)
    requires WellFormed(s) && Typed(s, row) && MatchAllEq(e, []).Some?
    requires ExtractPKey(s, MatchAllEq(e, []).value).Some? && !WellTyped(s, e)
    ensures !Holds(s, row, e)
  {
    hide MatchAllEq, ExtractPKey, Holds, WellTyped;
    var keys := MatchAllEq(e, []).value;
    MatchAllEqMeans(s, row, e, []);
    PointColumnsExist(s, keys);
    var v :| 0 <= v < |keys| && s.cols[ColIndex(s, keys[v].column)].typ != keys[v].value.typ;
    EqualityTypeError(s, row, keys[v]);
  }

  lemma EqualityTypeError(s: Schema, row: Row, nc: NamedCell)
    requires Typed(s, row) && ColIndex(s, nc.column) >= 0 && s.cols[ColIndex(s, nc.column)].typ != nc.value.typ
    ensures !Equality(s, row, nc)
  {
    ScalarTypeError(s, row, EQ, nc.column, nc.value);
  }

  lemma IllTypedHoldsNowhere(s: Schema, row: Row, e: Expr)
    requires WellFormed(s) && Typed(s, row) && MakeRange(s, Some(e)).Some? && !WellTyped(s, e)
    ensures !Holds(s, row, e)
  {
    hide CmpToBound, EvalsTrue, Typed, WellFormed;
    if MatchAllEq(e, []).Some? && ExtractPKey(s, MatchAllEq(e, []).value).Some? {
      IllTypedPoint(s, row, e);
    } else {
      IllTypedRange(s, row, e);
    }
  }

  lemma IllTypedRange(s: Schema, row: Row, e: Expr)
    requires WellFormed(s) && Typed(s, row) && MatchRange(s, e).Some? && !WellTyped(s, e)
    ensures !Holds(s, row, e)
  {
    hide CmpToBound, EvalsTrue, Typed, WellFormed;
    match e
    case Bin(AND, l, r) =>
      if !WellTyped(s, l) { IllTypedBound(s, row, l); } else { IllTypedBound(s, row, r); }
    case _ => IllTypedBound(s, row, e);
  }

  /** Over every condition the planner accepts and every row, the range is wrong
      exactly: for well-typed constants, on rows that meet the right one of two
      bounds on the same side and fail the left one; otherwise, on every row that
      satisfies the retyped condition. */
  lemma RangeIsWrongExactlyOn(s: Schema, e: Expr, row: Row)
    requires WellFormed(s) && Typed(s, row) && MakeRange(s, Some(e)).Some?
    ensures (InInterval(s, MakeRange(s, Some(e)).value, RowKey(s, row)) != Holds(s, row, e)) <==>
      if WellTyped(s, e) then !OneBoundPerSide(s, e) && Holds(s, row, e.right) && !Holds(s, row, e.left)
      else Holds(s, row, Served(s, Retype(s, e)))
  {
    hide MakeRange, WellTyped, InInterval, Holds, Retype, Served;
    if WellTyped(s, e) {
      PlanErrsExactlyOn(s, e, row);
    } else {
      PlanServesRetyped(s, e, row);
      IllTypedHoldsNowhere(s, row, e);
    }
  }
}
