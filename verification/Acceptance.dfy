/** Which conditions the planner accepts, told from their shape alone. */
module Acceptance {
  import opened Bytes
  import opened Rows
  import opened Expressions
  import opened Planner

  // ---- the shapes ----

  /** `column = constant`, and such joined by AND. */
  predicate EqualitiesOnly(e: Expr) {
    match e
    case Bin(op, l, r) =>
      if op == AND then EqualitiesOnly(l) && EqualitiesOnly(r) else op == EQ && l.Col? && r.Const?
    case _ => false
  }

  /** The columns compared in such a tree, from left to right. */
  function ComparedColumns(e: Expr): seq<Bytes>
    requires EqualitiesOnly(e)
  {
    if e.op == AND then ComparedColumns(e.left) + ComparedColumns(e.right) else [e.left.name]
  }

  /** As many equalities as key columns, every key column among them. */
  predicate PointShape(s: Schema, e: Expr)
    requires WellFormed(s)
  {
    && EqualitiesOnly(e) && |ComparedColumns(e)| == |s.pkey|
    && forall i :: 0 <= i < |s.pkey| ==> s.cols[s.pkey[i]].name in ComparedColumns(e)
  }

  predicate NamesKeyColumn(s: Schema, e: Expr, i: nat)
    requires WellFormed(s) && i < |s.pkey|
  {
    e == Col(s.cols[s.pkey[i]].name)
  }

  /** An order comparison of leading key columns with as many constants. */
  predicate BoundShape(s: Schema, e: Expr)
    requires WellFormed(s)
  {
    && e.Bin? && e.op in {LT, LE, GT, GE} && |s.pkey| > 0
    && if e.left.Tuple? then
         && e.right.Tuple? && 0 < |e.left.kids| == |e.right.kids| <= |s.pkey|
         && forall i :: 0 <= i < |e.left.kids| ==> NamesKeyColumn(s, e.left.kids[i], i) && e.right.kids[i].Const?
       else
         NamesKeyColumn(s, e.left, 0) && e.right.Const?
  }

  predicate RangeShape(s: Schema, e: Expr)
    requires WellFormed(s)
  {
    if e.Bin? && e.op == AND then BoundShape(s, e.left) && BoundShape(s, e.right) else BoundShape(s, e)
  }

  // ---- point lookups ----

  ghost function Columns(keys: seq<NamedCell>): (r: seq<Bytes>)
    ensures |r| == |keys| && forall i :: 0 <= i < |r| ==> r[i] == keys[i].column
  {
    seq(|keys|, i requires 0 <= i < |keys| => keys[i].column)
  }

  lemma {:induction false} CollectedColumns(e: Expr, out: seq<NamedCell>)
    ensures MatchAllEq(e, out).Some? <==> EqualitiesOnly(e)
    ensures EqualitiesOnly(e) ==> Columns(MatchAllEq(e, out).value) == Columns(out) + ComparedColumns(e)
  {
    match e
    case Bin(AND, l, r) =>
      CollectedColumns(l, out);
      if MatchAllEq(l, out).Some? {
        CollectedColumns(r, MatchAllEq(l, out).value);
      }
    case _ =>
  }

  lemma {:induction false} ExtractsExactlyWhen(s: Schema, keys: seq<NamedCell>, i: nat)
    requires WellFormed(s) && i <= |s.pkey|
    ensures ExtractFrom(s, keys, i).Some? <==>
      forall q :: i <= q < |s.pkey| ==> s.cols[s.pkey[q]].name in Columns(keys)
    decreases |s.pkey| - i
  {
    if i < |s.pkey| {
      ExtractsExactlyWhen(s, keys, i + 1);
      NamedExactlyWhen(keys, s.cols[s.pkey[i]].name);
      hide FirstNamed, Columns;
    }
  }

  lemma NamedExactlyWhen(keys: seq<NamedCell>, name: Bytes)
    ensures FirstNamed(keys, name) < |keys| <==> name in Columns(keys)
  {
    var j := FirstNamed(keys, name);
    if j < |keys| { assert Columns(keys)[j] == name; }
  }

  lemma PointAcceptedExactlyWhen(s: Schema, e: Expr)
    requires WellFormed(s)
    ensures (MatchAllEq(e, []).Some? && ExtractPKey(s, MatchAllEq(e, []).value).Some?) <==> PointShape(s, e)
  {
    CollectedColumns(e, []);
    hide MatchAllEq, ExtractFrom;
    assert Columns([]) + [] == [];
    if EqualitiesOnly(e) {
      assert Columns([]) + ComparedColumns(e) == ComparedColumns(e);
      ExtractsExactlyWhen(s, MatchAllEq(e, []).value, 0);
    }
  }

  // ---- bounds ----

  lemma {:induction false} PairsExactlyWhen(ls: seq<Expr>, rs: seq<Expr>)
    requires |ls| == |rs|
    ensures Pairs(ls, rs).Some? <==> forall i :: 0 <= i < |ls| ==> ls[i].Col? && rs[i].Const?
    ensures Pairs(ls, rs).Some? ==> |Pairs(ls, rs).value| == |ls|
    ensures Pairs(ls, rs).Some? ==>
      forall i :: 0 <= i < |ls| ==> ls[i].Col? && Pairs(ls, rs).value[i].column == ls[i].name
  {
    if ls != [] {
      PairsExactlyWhen(ls[1..], rs[1..]);
      if forall i :: 0 <= i < |ls| ==> ls[i].Col? && rs[i].Const? {
        assert forall i :: 0 <= i < |ls| - 1 ==> ls[1..][i] == ls[i + 1] && rs[1..][i] == rs[i + 1];
      }
      if Pairs(ls[1..], rs[1..]).Some? {
        assert forall i :: 1 <= i < |ls| ==> ls[i] == ls[1..][i - 1] && rs[i] == rs[1..][i - 1];
      }
    }
  }

  lemma BoundAcceptedExactlyWhen(s: Schema, e: Expr)
    requires WellFormed(s)
    ensures CmpToBound(s, e).Some? <==> BoundShape(s, e)
  {
    if e.Bin? && e.left.Tuple? && e.right.Tuple? && |e.left.kids| == |e.right.kids| {
      PairsExactlyWhen(e.left.kids, e.right.kids);
      hide Pairs, WellFormed, TypedPrefix;
    }
  }

  /** The planner accepts exactly: equalities that are as many as the key columns and
      name them all; one order comparison of leading key columns with constants; two
      such comparisons joined by AND. */
  lemma AcceptedExactlyWhen(s: Schema, e: Expr)
    requires WellFormed(s)
    ensures MakeRange(s, Some(e)).Some? <==> PointShape(s, e) || RangeShape(s, e)
  {
    hide MatchAllEq, ExtractPKey, CmpToBound, PointShape, WellFormed;
    PointAcceptedExactlyWhen(s, e);
    BoundAcceptedExactlyWhen(s, e);
    if e.Bin? && e.op == AND {
      BoundAcceptedExactlyWhen(s, e.left);
      BoundAcceptedExactlyWhen(s, e.right);
    }
  }
}
